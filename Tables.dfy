/** The in-memory table store that the four repositories share: one sequence
    per database table context, and the `SaveChanges` call through which
    every write is committed. */
module Tables {
  import opened Common
  import opened Models

  /** The six tables the node repository works on, as one value. */
  datatype NodeTables = NodeTables(nodes: seq<Node>, components: seq<NodeComponent>,
                                   labels: seq<Label>, qrAnchors: seq<QRAnchor>, pdfs: seq<Pdf>,
                                   nodeTeams: seq<NodeTeamJoin>)

  /** Identifiers of the components whose type selects side table `kind`. */
  ghost function ComponentIds(cs: seq<NodeComponent>, kind: ComponentKind): set<int>
  {
    set c | c in cs && KindOf(c.componentType) == kind :: c.id
  }

  /** Keys are unique in every node table, each component has at most one
      side row, and every side row belongs to an existing component whose
      type selects that side table. */
  ghost predicate NodeTablesValid(t: NodeTables)
  {
    && UniqueKeys(t.nodes, NodeKey)
    && UniqueKeys(t.components, ComponentKey)
    && UniqueKeys(t.labels, LabelKey) && UniqueKeys(t.labels, LabelComponent)
    && UniqueKeys(t.qrAnchors, QRAnchorKey) && UniqueKeys(t.qrAnchors, QRAnchorComponent)
    && UniqueKeys(t.pdfs, PdfKey) && UniqueKeys(t.pdfs, PdfComponent)
    && UniqueKeys(t.nodeTeams, NodeTeamKey)
    && (forall l :: l in t.labels ==> l.nodeComponentID in ComponentIds(t.components, LabelKind))
    && (forall q :: q in t.qrAnchors ==> q.nodeComponentID in ComponentIds(t.components, QRAnchorKind))
    && (forall p :: p in t.pdfs ==> p.nodeComponentID in ComponentIds(t.components, PdfKind))
  }

  class Store {
    var users: seq<User>
    var businesses: seq<Business>
    var businessUsers: seq<BusinessUserJoin>
    var teams: seq<Team>
    var userTeams: seq<UserTeamJoin>
    var teamRoles: seq<TeamRole>
    var nodes: seq<Node>
    var components: seq<NodeComponent>
    var labels: seq<Label>
    var qrAnchors: seq<QRAnchor>
    var pdfs: seq<Pdf>
    var nodeTeams: seq<NodeTeamJoin>

    /** How many `SaveChanges` calls have been made so far. */
    var saves: nat
    /** The ordinals of the `SaveChanges` calls that throw `DbUpdateException`
        (storage failure is an input of the model, not something it decides). */
    const failing: set<nat>

    /** Primary keys are unique in the user, business, membership, team and
        team-membership tables. The (user, business) pair of a membership is
        not part of this invariant: nothing here establishes it, and the
        permission checks that look a membership up by that pair require it
        of their caller instead. */
    ghost predicate Valid()
      reads this`users, this`businesses, this`businessUsers, this`teams, this`userTeams
    {
      && UniqueKeys(users, UserKey)
      && UniqueKeys(businesses, BusinessKey)
      && UniqueKeys(businessUsers, MembershipKey)
      && UniqueKeys(teams, TeamKey)
      && UniqueKeys(userTeams, UserTeamKey)
    }

    /** The node tables are consistent. */
    ghost predicate NodesValid()
      reads this`nodes, this`components, this`labels, this`qrAnchors, this`pdfs, this`nodeTeams
    {
      NodeTablesValid(NodeState())
    }

    function NodeState(): NodeTables
      reads this`nodes, this`components, this`labels, this`qrAnchors, this`pdfs, this`nodeTeams
    {
      NodeTables(nodes, components, labels, qrAnchors, pdfs, nodeTeams)
    }

    /** An empty database whose team-roles lookup table holds `roles`. */
    constructor (failing: set<nat>, roles: seq<TeamRole>)
      ensures this.failing == failing && saves == 0 && teamRoles == roles
      ensures users == [] && businesses == [] && businessUsers == [] && teams == [] && userTeams == []
      ensures NodeState() == NodeTables([], [], [], [], [], [])
      ensures Valid() && NodesValid()
    {
      this.failing := failing;
      teamRoles := roles;
      users, businesses, businessUsers, teams, userTeams := [], [], [], [], [];
      nodes, components, labels, qrAnchors, pdfs, nodeTeams := [], [], [], [], [], [];
      saves := 0;
    }

    /** `context.SaveChanges()`: the write numbered `saves + 1` commits
        unless that ordinal is one of the failing ones. */
    method SaveChanges() returns (ok: bool)
      modifies this`saves
      ensures saves == old(saves) + 1
      ensures ok == (saves !in failing)
    {
      saves := saves + 1;
      ok := saves !in failing;
    }

    /** The (user, business) membership row, if any. */
    function MembershipOf(userID: int, busID: int): (r: Option<BusinessUserJoin>)
      reads this
      ensures r.Some? ==> r.value in businessUsers && r.value.userID == userID && r.value.businessID == busID
      ensures r.None? ==> forall j :: j in businessUsers ==> j.userID != userID || j.businessID != busID
    {
      match Find(businessUsers, MembershipPair, (userID, busID))
      case Some(i) => Some(businessUsers[i])
      case None => None
    }

    /** When a user holds at most one membership per business (what
        `SingleOrDefault` demands), the first match is the only one. */
    lemma MembershipIsUnique(userID: int, busID: int)
      requires UniqueKeys(businessUsers, MembershipPair)
      ensures forall j :: j in businessUsers && j.userID == userID && j.businessID == busID ==>
                MembershipOf(userID, busID) == Some(j)
    {
      forall j | j in businessUsers && j.userID == userID && j.businessID == busID
        ensures MembershipOf(userID, busID) == Some(j)
      {
        var i :| 0 <= i < |businessUsers| && businessUsers[i] == j;
        FindUnique(businessUsers, MembershipPair, (userID, busID), i);
      }
    }

    /** The user row with that identifier, if any. */
    function UserById(userID: int): (r: Option<User>)
      reads this
      ensures r.Some? ==> r.value in users && r.value.userID == userID
      ensures r.None? ==> forall u :: u in users ==> u.userID != userID
    {
      match Find(users, UserKey, userID)
      case Some(i) => Some(users[i])
      case None => None
    }

    /** The business row with that identifier, if any. */
    function BusinessById(busID: int): (r: Option<Business>)
      reads this
      ensures r.Some? ==> r.value in businesses && r.value.businessID == busID
      ensures r.None? ==> forall b :: b in businesses ==> b.businessID != busID
    {
      match Find(businesses, BusinessKey, busID)
      case Some(i) => Some(businesses[i])
      case None => None
    }

    /** The first (user, team) join row, if any. */
    function TeamJoinOf(userID: int, teamID: int): (r: Option<UserTeamJoin>)
      reads this
      ensures r.Some? ==> r.value in userTeams && r.value.userID == userID && r.value.teamID == teamID
      ensures r.None? ==> forall j :: j in userTeams ==> j.userID != userID || j.teamID != teamID
    {
      match Find(userTeams, UserTeamPair, (userID, teamID))
      case Some(i) => Some(userTeams[i])
      case None => None
    }
  }
}
