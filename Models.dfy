/** The entity records stored in the tables (the Models folder) and the
    display shapes returned to clients (Models/DisplayModels), with the
    conversions between them. */
module Models {
  import opened Common

  // ----- table rows -----

  datatype User = User(userID: int, industry: int, firstName: Text, lastName: Text,
                       email: Text, company: Text, phoneNumber: Text,
                       lastModified: Text, userPhoto: Text, isArio: int)

  datatype Business = Business(businessID: int, industry: int, businessName: Text,
                               address: Text, phoneNumber: Text, website: Text)

  /** Membership of a user in a business; `roleID` 1 = Ario, 2 = owner,
      3 = admin, larger = plain member. */
  datatype BusinessUserJoin = BusinessUserJoin(id: int, businessID: int, userID: int, roleID: int)

  datatype Team = Team(teamID: int, businessID: int, teamCreatorID: int, teamName: Text)

  /** Membership of a user in a team, with a team-scoped role. */
  datatype UserTeamJoin = UserTeamJoin(id: int, userID: int, teamID: int, roleID: int)

  /** A row of the team-roles lookup table. */
  datatype TeamRole = TeamRole(roleID: int, roleName: Text)

  /** Coordinates are C# `decimal`; nothing here does arithmetic on them. */
  datatype Node = Node(id: int, parentID: int, businessID: int, nodeName: Text,
                       xPosition: real, yPosition: real, zPosition: real)

  /** The generic component row; its payload lives in a side table chosen by `type`. */
  datatype NodeComponent = NodeComponent(id: int, nodeID: int, componentType: Text)

  datatype Label = Label(id: int, nodeComponentID: int, text: Text, style: Text, screenshot: Text)
  datatype QRAnchor = QRAnchor(id: int, nodeComponentID: int, qrAnchorID: int)
  datatype Pdf = Pdf(id: int, nodeComponentID: int, pdfLink: Text, title: Text, description: Text)

  /** Visibility of a node to a team. */
  datatype NodeTeamJoin = NodeTeamJoin(id: int, nodeID: int, teamID: int)

  // key projections, named so that the same function value is used everywhere
  function UserKey(u: User): int { u.userID }
  function BusinessKey(b: Business): int { b.businessID }
  function MembershipKey(j: BusinessUserJoin): int { j.id }
  function MembershipPair(j: BusinessUserJoin): (int, int) { (j.userID, j.businessID) }
  function MembershipUser(j: BusinessUserJoin): int { j.userID }
  function TeamKey(t: Team): int { t.teamID }
  function TeamPair(t: Team): (int, int) { (t.teamID, t.businessID) }
  function UserTeamKey(j: UserTeamJoin): int { j.id }
  function UserTeamPair(j: UserTeamJoin): (int, int) { (j.userID, j.teamID) }
  function TeamRoleName(r: TeamRole): Text { r.roleName }
  function UserEmail(u: User): Text { u.email }
  function MembershipBusiness(j: BusinessUserJoin): int { j.businessID }
  function OwnerKey(j: BusinessUserJoin): (int, int) { (j.businessID, j.roleID) }
  function TeamBusiness(t: Team): int { t.businessID }
  function UserTeamTeam(j: UserTeamJoin): int { j.teamID }
  function NodeParent(n: Node): int { n.parentID }
  function ComponentNode(c: NodeComponent): int { c.nodeID }
  function ComponentOfNode(c: NodeComponent): (int, int) { (c.id, c.nodeID) }
  function JoinNode(j: NodeTeamJoin): int { j.nodeID }
  function JoinTeam(j: NodeTeamJoin): int { j.teamID }
  function NodeKey(n: Node): int { n.id }
  function ComponentKey(c: NodeComponent): int { c.id }
  function LabelKey(l: Label): int { l.id }
  function LabelComponent(l: Label): int { l.nodeComponentID }
  function QRAnchorKey(q: QRAnchor): int { q.id }
  function QRAnchorComponent(q: QRAnchor): int { q.nodeComponentID }
  function PdfKey(p: Pdf): int { p.id }
  function PdfComponent(p: Pdf): int { p.nodeComponentID }
  function NodeTeamKey(j: NodeTeamJoin): int { j.id }

  // ----- component type dispatch -----

  datatype ComponentKind = LabelKind | QRAnchorKind | PdfKind | UnknownKind

  /** The `switch` on the component type string: only these exact spellings
      are recognised; anything else (and `null`) falls through every case. */
  function KindOf(t: Text): (k: ComponentKind)
    ensures k == LabelKind <==> t == Some("Label") || t == Some("label")
    ensures k == QRAnchorKind <==> t == Some("QRAnchor") || t == Some("qranchor") || t == Some("QRanchor")
    ensures k == PdfKind <==> t == Some("PDF") || t == Some("pdf")
  {
    match t
    case Some(s) =>
      if s == "Label" || s == "label" then LabelKind
      else if s == "QRAnchor" || s == "qranchor" || s == "QRanchor" then QRAnchorKind
      else if s == "PDF" || s == "pdf" then PdfKind
      else UnknownKind
    case None => UnknownKind
  }

  // ----- node display shape -----

  datatype Position = Position(x: real, y: real, z: real)

  /** The subclass-specific fields of a `NodeComponentData`. */
  datatype Payload =
    | NoPayload
    | LabelPayload(description: Text, color: Text, screenshot: Text)
    | QRAnchorPayload(qrAnchorID: int)
    | PdfPayload(pdfLink: Text, title: Text, pdfDescription: Text)

  /** A component as sent by or returned to a client. */
  datatype ComponentData = ComponentData(nodeComponentID: int, nodeID: int,
                                         componentType: Text, payload: Payload)

  /** The casts `(LabelNodeComponentData)data` etc. succeed: the payload
      subclass agrees with the type string whenever that string is recognised. */
  predicate WellTyped(d: ComponentData)
  {
    match KindOf(d.componentType)
    case LabelKind => d.payload.LabelPayload?
    case QRAnchorKind => d.payload.QRAnchorPayload?
    case PdfKind => d.payload.PdfPayload?
    case UnknownKind => true
  }

  datatype NodeDisplay = NodeDisplay(id: int, parentID: int, businessID: int, nodeName: Text,
                                     position: Option<Position>,
                                     teams: Option<seq<int>>,
                                     components: Option<seq<ComponentData>>)

  /** `new NodesDisplay(node)`: a fresh position and empty team and component lists. */
  function ToDisplay(n: Node): NodeDisplay
  {
    NodeDisplay(n.id, n.parentID, n.businessID, n.nodeName,
                Some(Position(n.xPosition, n.yPosition, n.zPosition)), Some([]), Some([]))
  }

  /** `new Nodes(disp)`: coordinates stay 0 when the display has no position. */
  function FromDisplay(d: NodeDisplay): (n: Node)
  {
    match d.position
    case Some(p) => Node(d.id, d.parentID, d.businessID, d.nodeName, p.x, p.y, p.z)
    case None => Node(d.id, d.parentID, d.businessID, d.nodeName, 0.0, 0.0, 0.0)
  }

  /** The conversion copies the identity fields and the position when there is one. */
  lemma FromDisplayFields(d: NodeDisplay)
    ensures var n := FromDisplay(d);
      n.id == d.id && n.parentID == d.parentID && n.businessID == d.businessID && n.nodeName == d.nodeName
    ensures d.position.Some? ==>
      var n := FromDisplay(d);
      n.xPosition == d.position.value.x && n.yPosition == d.position.value.y && n.zPosition == d.position.value.z
    ensures d.position.None? ==>
      var n := FromDisplay(d);
      n.xPosition == 0.0 && n.yPosition == 0.0 && n.zPosition == 0.0
  {
  }

  /** Converting a node to its display form and back reproduces all seven fields. */
  lemma NodeRoundTrip(n: Node)
    ensures FromDisplay(ToDisplay(n)) == n
  {
  }

  /** The other direction keeps everything a display with a position carries
      except the team and component lists, which come back empty. */
  lemma DisplayRoundTrip(d: NodeDisplay)
    requires d.position.Some?
    ensures ToDisplay(FromDisplay(d)) == d.(teams := Some([]), components := Some([]))
  {
  }

  // ----- business display shape -----

  datatype BusinessDisplay = BusinessDisplay(businessID: int, industry: int, businessName: Text,
                                             address: Text, phoneNumber: Text, website: Text,
                                             owner: Option<User>)

  /** `new BusinessesDisplay(bus)`: the owner is filled in separately. */
  function BusinessToDisplay(b: Business): BusinessDisplay
  {
    BusinessDisplay(b.businessID, b.industry, b.businessName, b.address, b.phoneNumber, b.website, None)
  }

  /** `new Businesses(disp)`: the identifier starts at 0 and is assigned later. */
  function BusinessFromDisplay(d: BusinessDisplay): Business
  {
    Business(0, d.industry, d.businessName, d.address, d.phoneNumber, d.website)
  }

  // ----- user display shape -----

  datatype UserDisplay = UserDisplay(userID: int, businessID: int, teamRoleID: int, businessRoleID: int,
                                     firstName: Text, lastName: Text, email: Text, company: Text,
                                     industry: int, phoneNumber: Text, lastModified: Text,
                                     userPhoto: Text, isArio: int)

  /** `new UsersDisplay(user)`: no business or role information yet. */
  function UserToDisplay(u: User): UserDisplay
  {
    UserDisplay(u.userID, 0, 0, 0, u.firstName, u.lastName, u.email, u.company,
                u.industry, u.phoneNumber, u.lastModified, u.userPhoto, u.isArio)
  }

  /** `new UsersDisplay(user, joinEntry)`. */
  function MemberToDisplay(u: User, j: BusinessUserJoin): UserDisplay
  {
    UserToDisplay(u).(businessID := j.businessID, businessRoleID := j.roleID)
  }

  /** `new UsersDisplay(user, joinEntry, teamJoinEntry)`. */
  function TeamMemberToDisplay(u: User, j: BusinessUserJoin, t: UserTeamJoin): UserDisplay
  {
    MemberToDisplay(u, j).(teamRoleID := t.roleID)
  }

  /** `new Users(disp, bus)`: a user created inside a business takes the
      business's industry and name as its own. */
  function UserForBusiness(d: UserDisplay, b: Business, now: string): User
  {
    User(0, b.industry, d.firstName, d.lastName, d.email, b.businessName, d.phoneNumber,
         Some(now), d.userPhoto, d.isArio)
  }

  // ----- team display shape -----

  datatype TeamDisplay = TeamDisplay(teamID: int, businessID: int, teamCreatorID: int,
                                     teamName: Text, users: seq<UserDisplay>)

  /** `new TeamsDisplay(team)` with its member list. */
  function TeamToDisplay(t: Team, users: seq<UserDisplay>): TeamDisplay
  {
    TeamDisplay(t.teamID, t.businessID, t.teamCreatorID, t.teamName, users)
  }
}
