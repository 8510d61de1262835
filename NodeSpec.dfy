/** What the node operations do to the six node tables, written as plans:
    each `SaveChanges` of the repository is one `Save` step of a plan, so
    that the effect of a partly failed operation is stated as exactly as the
    effect of a successful one. */
module NodeSpec {
  import opened Common
  import opened Models
  import opened Tables

  /** A node operation under way: the tables, the saves made, and whether
      one of them failed (after which nothing more is done). */
  type Plan = Progress<NodeTables>

  /** A plan for the node-team join table alone. */
  type JoinPlan = Progress<seq<NodeTeamJoin>>

  function Start(t: NodeTables, saves: nat): Plan
  {
    Progress(t, saves, false)
  }

  /** The join table part of a plan, and the plan with its join part replaced. */
  function Joins(p: Plan): JoinPlan
  {
    Progress(p.state.nodeTeams, p.saves, p.failed)
  }

  function WithJoins(p: Plan, q: JoinPlan): Plan
  {
    Progress(p.state.(nodeTeams := q.state), q.saves, q.failed)
  }

  // ----- node-team joins -----

  /** `CreateTeamJoin`: append a join with the next join identifier. */
  function JoinStep(p: JoinPlan, nodeID: int, teamID: int, failing: set<nat>): JoinPlan
  {
    Save(p, p.state + [NodeTeamJoin(NextId(p.state, NodeTeamKey), nodeID, teamID)], failing)
  }

  /** A join for every team of `teams` not in `kept`, in order, one save each. */
  function AddJoins(p: JoinPlan, nodeID: int, teams: seq<int>, kept: seq<int>, failing: set<nat>): (r: JoinPlan)
    ensures p.failed ==> r == p
    decreases |teams|
  {
    if |teams| == 0 then p
    else AddJoins(if teams[0] in kept then p else JoinStep(p, nodeID, teams[0], failing), nodeID, teams[1..], kept, failing)
  }

  /** Adding joins keeps every existing one and join identifiers unique;
      each new join is for the node and a requested team not in `kept`, and
      if no save failed every such team got one. */
  lemma {:induction false} AddJoinsFacts(p: JoinPlan, nodeID: int, teams: seq<int>, kept: seq<int>, failing: set<nat>)
    requires UniqueKeys(p.state, NodeTeamKey)
    ensures var r := AddJoins(p, nodeID, teams, kept, failing);
      && UniqueKeys(r.state, NodeTeamKey)
      && (forall j :: j in p.state ==> j in r.state)
      && (forall j :: j in r.state && j !in p.state ==> j.nodeID == nodeID && j.teamID in teams && j.teamID !in kept)
      && (!r.failed ==> forall tm :: tm in teams && tm !in kept ==>
            exists j :: j in r.state && j.nodeID == nodeID && j.teamID == tm)
    decreases |teams|
  {
    if |teams| > 0 {
      var tm := teams[0];
      var p1 := if tm in kept then p else JoinStep(p, nodeID, tm, failing);
      var added := NodeTeamJoin(NextId(p.state, NodeTeamKey), nodeID, tm);
      if tm !in kept && !p.failed && !p1.failed {
        AppendKeepsUnique(p.state, NodeTeamKey, added);
        assert added in p1.state;
      }
      AddJoinsFacts(p1, nodeID, teams[1..], kept, failing);
      assert forall x :: x in teams <==> x == tm || x in teams[1..];
    }
  }

  /** The teams of a list of joins, in order. */
  function TeamIdsOf(joins: seq<NodeTeamJoin>): (r: seq<int>)
    ensures |r| == |joins|
    ensures forall i :: 0 <= i < |joins| ==> r[i] == joins[i].teamID
  {
    if |joins| == 0 then [] else [joins[0].teamID] + TeamIdsOf(joins[1..])
  }

  /** A team is listed exactly when one of the joins is for it. */
  lemma TeamIdsMembers(joins: seq<NodeTeamJoin>)
    ensures forall tm :: tm in TeamIdsOf(joins) <==> exists j :: j in joins && j.teamID == tm
  {
    var r := TeamIdsOf(joins);
    forall tm | tm in r ensures exists j :: j in joins && j.teamID == tm {
      var i :| 0 <= i < |r| && r[i] == tm;
      assert joins[i] in joins;
    }
    forall j | j in joins ensures j.teamID in r {
      var i :| 0 <= i < |joins| && joins[i] == j;
      assert r[i] == j.teamID;
    }
  }

  /** `newNode.teams.Contains(joinEntry.teamID)`, as a key to filter joins by. */
  function InList(teams: seq<int>): NodeTeamJoin -> bool
  {
    (j: NodeTeamJoin) => j.teamID in teams
  }

  /** The node's joins whose team is not listed: the ones the pruning loop
      deletes, in order. */
  function Unlisted(mine: seq<NodeTeamJoin>, teams: seq<int>): seq<NodeTeamJoin>
  {
    if |mine| == 0 then []
    else (if mine[0].teamID in teams then [] else [mine[0]]) + Unlisted(mine[1..], teams)
  }

  /** The teams of the node's joins whose team is listed: the ones the
      pruning loop collects, in order. */
  function ListedTeams(mine: seq<NodeTeamJoin>, teams: seq<int>): seq<int>
  {
    if |mine| == 0 then []
    else (if mine[0].teamID in teams then [mine[0].teamID] else []) + ListedTeams(mine[1..], teams)
  }

  /** The two loop lists are the filters `Reconcile` is stated with. */
  lemma {:induction false} PruneLists(mine: seq<NodeTeamJoin>, teams: seq<int>)
    ensures Unlisted(mine, teams) == Where(mine, InList(teams), false)
    ensures ListedTeams(mine, teams) == TeamIdsOf(Where(mine, InList(teams), true))
  {
    if |mine| > 0 {
      PruneLists(mine[1..], teams);
      assert InList(teams)(mine[0]) == (mine[0].teamID in teams);
      var keep := Where(mine[1..], InList(teams), true);
      assert TeamIdsOf([mine[0]] + keep) == [mine[0].teamID] + TeamIdsOf(keep);
    }
  }

  /** One join of the pruning loop on the collected teams: a join with a
      listed team adds that team. */
  lemma ListedStep(mine: seq<NodeTeamJoin>, teams: seq<int>, i: nat, kept: seq<int>)
    requires i < |mine|
    ensures kept + ListedTeams(mine[i..], teams) ==
      (if mine[i].teamID in teams then kept + [mine[i].teamID] else kept) + ListedTeams(mine[i + 1..], teams)
  {
    assert mine[i..][0] == mine[i] && mine[i..][1..] == mine[i + 1..];
    var rest := ListedTeams(mine[i + 1..], teams);
    if mine[i].teamID in teams {
      assert ListedTeams(mine[i..], teams) == [mine[i].teamID] + rest;
      assert kept + ([mine[i].teamID] + rest) == (kept + [mine[i].teamID]) + rest;
    } else {
      assert ListedTeams(mine[i..], teams) == rest;
    }
  }

  /** One join of the pruning loop as a step of its plan: a join with a
      listed team costs nothing; any other is deleted with one save. */
  lemma PruneStep(p: JoinPlan, mine: seq<NodeTeamJoin>, teams: seq<int>, i: nat, failing: set<nat>)
    requires i < |mine|
    ensures DeleteEach(p, NodeTeamKey, Unlisted(mine[i..], teams), failing) ==
      DeleteEach(if mine[i].teamID in teams then p else Save(p, DeleteKey(p.state, NodeTeamKey, mine[i].id), failing),
                 NodeTeamKey, Unlisted(mine[i + 1..], teams), failing)
  {
    assert mine[i..][0] == mine[i] && mine[i..][1..] == mine[i + 1..];
    var rest := Unlisted(mine[i + 1..], teams);
    if mine[i].teamID !in teams {
      assert Unlisted(mine[i..], teams) == [mine[i]] + rest;
      DeleteEachCons(p, NodeTeamKey, mine[i], rest, failing);
    } else {
      assert Unlisted(mine[i..], teams) == rest;
    }
  }

  /** The team reconciliation of `Update`: every join of the node whose team
      is not requested is deleted (one save each); then a join is created
      for every requested team that no remaining join of the node had. */
  function Reconcile(q: JoinPlan, nodeID: int, teams: seq<int>, failing: set<nat>): (r: JoinPlan)
    ensures q.failed ==> r == q
  {
    var mine := Where(q.state, JoinNode, nodeID);
    var pruned := DeleteEach(q, NodeTeamKey, Where(mine, InList(teams), false), failing);
    AddJoins(pruned, nodeID, teams, TeamIdsOf(Where(mine, InList(teams), true)), failing)
  }

  /** After reconciliation the node is visible to exactly the requested
      teams; its joins for requested teams and every other node's joins are
      kept, and identifiers stay unique. */
  lemma ReconcileSets(q: JoinPlan, nodeID: int, teams: seq<int>, failing: set<nat>)
    requires UniqueKeys(q.state, NodeTeamKey)
    ensures var r := Reconcile(q, nodeID, teams, failing);
      && UniqueKeys(r.state, NodeTeamKey)
      && (forall j :: j in q.state && (j.nodeID != nodeID || j.teamID in teams) ==> j in r.state)
      && (forall j :: j in r.state && j !in q.state ==> j.nodeID == nodeID && j.teamID in teams)
      && (forall j, k :: j in r.state && j !in q.state && k in q.state && k.nodeID == nodeID ==> k.teamID != j.teamID)
      && (!r.failed ==> forall tm :: (exists j :: j in r.state && j.nodeID == nodeID && j.teamID == tm) <==> tm in teams)
  {
    var mine := Where(q.state, JoinNode, nodeID);
    var doomed := Where(mine, InList(teams), false);
    var keptRows := Where(mine, InList(teams), true);
    var kept := TeamIdsOf(keptRows);
    TeamIdsMembers(keptRows);
    WhereKeepsUnique(q.state, JoinNode, nodeID, NodeTeamKey);
    WhereKeepsUnique(mine, InList(teams), false, NodeTeamKey);
    DeleteEachRemoves(q, NodeTeamKey, doomed, failing);
    var p := DeleteEach(q, NodeTeamKey, doomed, failing);
    AddJoinsFacts(p, nodeID, teams, kept, failing);
    var r := AddJoins(p, nodeID, teams, kept, failing);
    assert r == Reconcile(q, nodeID, teams, failing);
    forall j, k | j in r.state && j !in q.state && k in q.state && k.nodeID == nodeID
      ensures k.teamID != j.teamID
    {
      assert j !in p.state;
      if k.teamID in teams {
        assert k in mine && k in keptRows;
      }
    }
    if !r.failed {
      forall tm | tm in teams ensures exists j :: j in r.state && j.nodeID == nodeID && j.teamID == tm {
        if tm in kept {
          var k :| k in keptRows && k.teamID == tm;
          assert k in p.state;
        }
      }
      forall j | j in r.state && j.nodeID == nodeID ensures j.teamID in teams {
        if j in p.state {
          assert j in mine && j !in doomed;
        }
      }
    }
  }

  // ----- creating components -----

  /** `CreateComp`: a component row with the next component identifier. */
  function CompStep(p: Plan, nodeID: int, data: ComponentData, failing: set<nat>): Plan
  {
    var t := p.state;
    Save(p, t.(components := t.components + [NodeComponent(NextId(t.components, ComponentKey), nodeID, data.componentType)]), failing)
  }

  /** `CreateCompType`: the side row the type string selects, with the next
      identifier of its table; an unrecognised type writes nothing. */
  function SideRowStep(p: Plan, compID: int, data: ComponentData, failing: set<nat>): (r: Plan)
    requires WellTyped(data)
    ensures p.failed ==> r == p
    ensures KindOf(data.componentType) == UnknownKind ==> r == p
    ensures r.state.nodes == p.state.nodes && r.state.components == p.state.components
    ensures r.state.nodeTeams == p.state.nodeTeams
  {
    var t := p.state;
    match KindOf(data.componentType)
    case LabelKind =>
      var l := Label(NextId(t.labels, LabelKey), compID, data.payload.description, data.payload.color, data.payload.screenshot);
      Save(p, t.(labels := t.labels + [l]), failing)
    case QRAnchorKind =>
      var a := QRAnchor(NextId(t.qrAnchors, QRAnchorKey), compID, data.payload.qrAnchorID);
      Save(p, t.(qrAnchors := t.qrAnchors + [a]), failing)
    case PdfKind =>
      var d := Pdf(NextId(t.pdfs, PdfKey), compID, data.payload.pdfLink, data.payload.title, data.payload.pdfDescription);
      Save(p, t.(pdfs := t.pdfs + [d]), failing)
    case UnknownKind => p
  }

  /** `CreateComp` followed by `CreateCompType` for one component. */
  function ComponentStep(p: Plan, nodeID: int, data: ComponentData, failing: set<nat>): (r: Plan)
    requires WellTyped(data)
    ensures p.failed ==> r == p
  {
    SideRowStep(CompStep(p, nodeID, data, failing), NextId(p.state.components, ComponentKey), data, failing)
  }

  predicate AllWellTyped(comps: seq<ComponentData>)
  {
    forall i :: 0 <= i < |comps| ==> WellTyped(comps[i])
  }

  /** The tail of a list of well-typed components is well typed. */
  lemma TailWellTyped(comps: seq<ComponentData>)
    requires |comps| > 0 && AllWellTyped(comps)
    ensures AllWellTyped(comps[1..])
  {
    forall i | 0 <= i < |comps[1..]| ensures WellTyped(comps[1..][i]) {
      assert comps[1..][i] == comps[i + 1];
    }
  }

  /** Every component of a list in order, stopping at the first failing save. */
  function AddComps(p: Plan, nodeID: int, comps: seq<ComponentData>, failing: set<nat>): (r: Plan)
    requires AllWellTyped(comps)
    ensures p.failed ==> r == p
    decreases |comps|
  {
    if |comps| == 0 then p
    else AddComps(ComponentStep(p, nodeID, comps[0], failing), nodeID, comps[1..], failing)
  }

  /** `Add`: the node with the next node identifier, then its team joins,
      then its components. */
  function AddSpec(t: NodeTables, saves: nat, item: NodeDisplay, failing: set<nat>): Plan
    requires item.components.Some? ==> AllWellTyped(item.components.value)
  {
    var node := FromDisplay(item).(id := NextId(t.nodes, NodeKey));
    var p0 := Save(Start(t, saves), t.(nodes := t.nodes + [node]), failing);
    var p1 := if item.teams.Some? then WithJoins(p0, AddJoins(Joins(p0), node.id, item.teams.value, [], failing)) else p0;
    if item.components.Some? then AddComps(p1, node.id, item.components.value, failing) else p1
  }

  // ----- consistency of the node tables under creation -----

  /** Every component identifier is below the next one handed out. */
  lemma ComponentIdsBelow(cs: seq<NodeComponent>, kind: ComponentKind)
    ensures forall x :: x in ComponentIds(cs, kind) ==> x < NextId(cs, ComponentKey)
  {
    forall x | x in ComponentIds(cs, kind) ensures x < NextId(cs, ComponentKey) {
      var c :| c in cs && KindOf(c.componentType) == kind && c.id == x;
      var i :| 0 <= i < |cs| && cs[i] == c;
    }
  }

  /** A component row with a fresh identifier keeps the tables consistent,
      and every side table keeps all the owners it had. */
  lemma AppendComponentValid(t: NodeTables, c: NodeComponent)
    requires NodeTablesValid(t) && c.id == NextId(t.components, ComponentKey)
    ensures NodeTablesValid(t.(components := t.components + [c]))
    ensures forall k :: c.id in ComponentIds(t.components + [c], k) <==> KindOf(c.componentType) == k
  {
    AppendKeepsUnique(t.components, ComponentKey, c);
    var cs := t.components + [c];
    forall k, x | x in ComponentIds(t.components, k) ensures x in ComponentIds(cs, k) {
      var d :| d in t.components && KindOf(d.componentType) == k && d.id == x;
      assert d in cs;
    }
    ComponentIdsBelow(t.components, LabelKind);
    ComponentIdsBelow(t.components, QRAnchorKind);
    ComponentIdsBelow(t.components, PdfKind);
    ComponentIdsBelow(t.components, UnknownKind);
    forall k ensures c.id in ComponentIds(cs, k) <==> KindOf(c.componentType) == k {
      assert c in cs;
      if c.id in ComponentIds(cs, k) {
        var d :| d in cs && KindOf(d.componentType) == k && d.id == c.id;
        assert d !in t.components;
      }
    }
  }

  /** A side row for a component of the matching type that has none yet
      keeps the tables consistent. */
  lemma SideRowStepValid(p: Plan, compID: int, data: ComponentData, failing: set<nat>)
    requires WellTyped(data) && NodeTablesValid(p.state)
    requires KindOf(data.componentType) != UnknownKind ==> compID in ComponentIds(p.state.components, KindOf(data.componentType))
    requires forall l :: l in p.state.labels ==> l.nodeComponentID != compID
    requires forall a :: a in p.state.qrAnchors ==> a.nodeComponentID != compID
    requires forall d :: d in p.state.pdfs ==> d.nodeComponentID != compID
    ensures NodeTablesValid(SideRowStep(p, compID, data, failing).state)
  {
    var t := p.state;
    match KindOf(data.componentType)
    case LabelKind =>
      AppendLabelValid(t, Label(NextId(t.labels, LabelKey), compID, data.payload.description, data.payload.color, data.payload.screenshot));
    case QRAnchorKind =>
      AppendQRAnchorValid(t, QRAnchor(NextId(t.qrAnchors, QRAnchorKey), compID, data.payload.qrAnchorID));
    case PdfKind =>
      AppendPdfValid(t, Pdf(NextId(t.pdfs, PdfKey), compID, data.payload.pdfLink, data.payload.title, data.payload.pdfDescription));
    case UnknownKind =>
  }

  lemma AppendLabelValid(t: NodeTables, l: Label)
    requires NodeTablesValid(t) && l.id == NextId(t.labels, LabelKey)
    requires l.nodeComponentID in ComponentIds(t.components, LabelKind)
    requires forall x :: x in t.labels ==> x.nodeComponentID != l.nodeComponentID
    ensures NodeTablesValid(t.(labels := t.labels + [l]))
  {
    AppendKeepsUnique(t.labels, LabelKey, l);
    AppendKeepsUnique(t.labels, LabelComponent, l);
  }

  lemma AppendQRAnchorValid(t: NodeTables, a: QRAnchor)
    requires NodeTablesValid(t) && a.id == NextId(t.qrAnchors, QRAnchorKey)
    requires a.nodeComponentID in ComponentIds(t.components, QRAnchorKind)
    requires forall x :: x in t.qrAnchors ==> x.nodeComponentID != a.nodeComponentID
    ensures NodeTablesValid(t.(qrAnchors := t.qrAnchors + [a]))
  {
    AppendKeepsUnique(t.qrAnchors, QRAnchorKey, a);
    AppendKeepsUnique(t.qrAnchors, QRAnchorComponent, a);
  }

  lemma AppendPdfValid(t: NodeTables, d: Pdf)
    requires NodeTablesValid(t) && d.id == NextId(t.pdfs, PdfKey)
    requires d.nodeComponentID in ComponentIds(t.components, PdfKind)
    requires forall x :: x in t.pdfs ==> x.nodeComponentID != d.nodeComponentID
    ensures NodeTablesValid(t.(pdfs := t.pdfs + [d]))
  {
    AppendKeepsUnique(t.pdfs, PdfKey, d);
    AppendKeepsUnique(t.pdfs, PdfComponent, d);
  }

  // ----- the rows creation writes -----

  /** Component `compID` has the side row `d`'s type selects, carrying `d`'s
      content; a type that selects no side table needs none. */
  ghost predicate HoldsContent(t: NodeTables, compID: int, d: ComponentData)
    requires WellTyped(d)
  {
    match KindOf(d.componentType)
    case LabelKind =>
      exists l :: l in t.labels && l.nodeComponentID == compID &&
        l.text == d.payload.description && l.style == d.payload.color && l.screenshot == d.payload.screenshot
    case QRAnchorKind =>
      exists a :: a in t.qrAnchors && a.nodeComponentID == compID && a.qrAnchorID == d.payload.qrAnchorID
    case PdfKind =>
      exists x :: x in t.pdfs && x.nodeComponentID == compID &&
        x.pdfLink == d.payload.pdfLink && x.title == d.payload.title && x.description == d.payload.pdfDescription
    case UnknownKind => true
  }

  /** Node `nodeID` has a component row of `d`'s type whose side row carries `d`'s content. */
  ghost predicate HasComponent(t: NodeTables, nodeID: int, d: ComponentData)
    requires WellTyped(d)
  {
    exists c :: c in t.components && c.nodeID == nodeID && c.componentType == d.componentType && HoldsContent(t, c.id, d)
  }

  /** `u` only appends to `t`: its component and side tables start with `t`'s. */
  predicate Appended(t: NodeTables, u: NodeTables)
  {
    && t.components <= u.components && t.labels <= u.labels
    && t.qrAnchors <= u.qrAnchors && t.pdfs <= u.pdfs
  }

  /** How many of the components have a type that selects side table `kind`. */
  function CountKind(comps: seq<ComponentData>, kind: ComponentKind): (n: nat)
    ensures n <= |comps|
  {
    if |comps| == 0 then 0
    else (if KindOf(comps[0].componentType) == kind then 1 else 0) + CountKind(comps[1..], kind)
  }

  /** Appending rows keeps every component that had its side row. */
  lemma AppendedKeepsComponent(t: NodeTables, u: NodeTables, nodeID: int, d: ComponentData)
    requires WellTyped(d) && Appended(t, u) && HasComponent(t, nodeID, d)
    ensures HasComponent(u, nodeID, d)
  {
    var c :| c in t.components && c.nodeID == nodeID && c.componentType == d.componentType && HoldsContent(t, c.id, d);
    PrefixMembers(t.components, u.components, c);
    match KindOf(d.componentType)
    case LabelKind =>
      var l :| l in t.labels && l.nodeComponentID == c.id &&
        l.text == d.payload.description && l.style == d.payload.color && l.screenshot == d.payload.screenshot;
      PrefixMembers(t.labels, u.labels, l);
    case QRAnchorKind =>
      var a :| a in t.qrAnchors && a.nodeComponentID == c.id && a.qrAnchorID == d.payload.qrAnchorID;
      PrefixMembers(t.qrAnchors, u.qrAnchors, a);
    case PdfKind =>
      var x :| x in t.pdfs && x.nodeComponentID == c.id &&
        x.pdfLink == d.payload.pdfLink && x.title == d.payload.title && x.description == d.payload.pdfDescription;
      PrefixMembers(t.pdfs, u.pdfs, x);
    case UnknownKind =>
  }

  /** `CreateCompType` appends exactly one side row, with the next identifier
      of its table, for a recognised type, and none otherwise; every row
      there was stays where it was. */
  lemma SideRowStepFacts(p: Plan, compID: int, data: ComponentData, failing: set<nat>)
    requires WellTyped(data)
    ensures var r := SideRowStep(p, compID, data, failing);
      var kind := KindOf(data.componentType);
      && Appended(p.state, r.state)
      && (!r.failed ==>
            && |r.state.labels| == |p.state.labels| + (if kind == LabelKind then 1 else 0)
            && |r.state.qrAnchors| == |p.state.qrAnchors| + (if kind == QRAnchorKind then 1 else 0)
            && |r.state.pdfs| == |p.state.pdfs| + (if kind == PdfKind then 1 else 0)
            && (kind == LabelKind ==>
                  Label(NextId(p.state.labels, LabelKey), compID, data.payload.description, data.payload.color,
                        data.payload.screenshot) in r.state.labels)
            && (kind == QRAnchorKind ==>
                  QRAnchor(NextId(p.state.qrAnchors, QRAnchorKey), compID, data.payload.qrAnchorID) in r.state.qrAnchors)
            && (kind == PdfKind ==>
                  Pdf(NextId(p.state.pdfs, PdfKey), compID, data.payload.pdfLink, data.payload.title,
                      data.payload.pdfDescription) in r.state.pdfs)
            && HoldsContent(r.state, compID, data))
  {
    var t := p.state;
    var r := SideRowStep(p, compID, data, failing);
    if !r.failed {
      match KindOf(data.componentType)
      case LabelKind =>
        var l := Label(NextId(t.labels, LabelKey), compID, data.payload.description, data.payload.color, data.payload.screenshot);
        assert r.state.labels == t.labels + [l] && l in r.state.labels;
      case QRAnchorKind =>
        var a := QRAnchor(NextId(t.qrAnchors, QRAnchorKey), compID, data.payload.qrAnchorID);
        assert r.state.qrAnchors == t.qrAnchors + [a] && a in r.state.qrAnchors;
      case PdfKind =>
        var x := Pdf(NextId(t.pdfs, PdfKey), compID, data.payload.pdfLink, data.payload.title, data.payload.pdfDescription);
        assert r.state.pdfs == t.pdfs + [x] && x in r.state.pdfs;
      case UnknownKind =>
    }
  }

  /** `AddComponent`: a component row with the next component identifier on
      the node, then its side row; nothing there was is changed or lost. */
  lemma ComponentStepRows(p: Plan, nodeID: int, data: ComponentData, failing: set<nat>)
    requires WellTyped(data)
    ensures var r := ComponentStep(p, nodeID, data, failing);
      var cid := NextId(p.state.components, ComponentKey);
      && Appended(p.state, r.state)
      && r.state.nodes == p.state.nodes && r.state.nodeTeams == p.state.nodeTeams
      && (!r.failed ==>
            && r.state.components == p.state.components + [NodeComponent(cid, nodeID, data.componentType)]
            && |r.state.labels| == |p.state.labels| + CountKind([data], LabelKind)
            && |r.state.qrAnchors| == |p.state.qrAnchors| + CountKind([data], QRAnchorKind)
            && |r.state.pdfs| == |p.state.pdfs| + CountKind([data], PdfKind)
            && HoldsContent(r.state, cid, data)
            && HasComponent(r.state, nodeID, data))
  {
    var q := CompStep(p, nodeID, data, failing);
    var cid := NextId(p.state.components, ComponentKey);
    SideRowStepFacts(q, cid, data, failing);
    var r := ComponentStep(p, nodeID, data, failing);
    assert CountKind([data], LabelKind) == if KindOf(data.componentType) == LabelKind then 1 else 0;
    assert CountKind([data], QRAnchorKind) == if KindOf(data.componentType) == QRAnchorKind then 1 else 0;
    assert CountKind([data], PdfKind) == if KindOf(data.componentType) == PdfKind then 1 else 0;
    if !r.failed {
      var c := NodeComponent(cid, nodeID, data.componentType);
      assert c in r.state.components;
    }
  }

  /** `Add`'s component loop only appends; unless a save failed it adds one
      component row per listed component and one side row per listed
      component of a recognised type. */
  lemma {:induction false} AddCompsGrows(p: Plan, nodeID: int, comps: seq<ComponentData>, failing: set<nat>)
    requires AllWellTyped(comps)
    ensures var r := AddComps(p, nodeID, comps, failing);
      && Appended(p.state, r.state)
      && r.state.nodes == p.state.nodes && r.state.nodeTeams == p.state.nodeTeams
      && (!r.failed ==>
            && |r.state.components| == |p.state.components| + |comps|
            && |r.state.labels| == |p.state.labels| + CountKind(comps, LabelKind)
            && |r.state.qrAnchors| == |p.state.qrAnchors| + CountKind(comps, QRAnchorKind)
            && |r.state.pdfs| == |p.state.pdfs| + CountKind(comps, PdfKind))
    decreases |comps|
  {
    if |comps| > 0 {
      var p1 := ComponentStep(p, nodeID, comps[0], failing);
      ComponentStepRows(p, nodeID, comps[0], failing);
      TailWellTyped(comps);
      AddCompsGrows(p1, nodeID, comps[1..], failing);
      var r := AddComps(p1, nodeID, comps[1..], failing);
      AppendedTrans(p.state, p1.state, r.state);
      assert [comps[0]] + comps[1..] == comps;
      CountKindAppend([comps[0]], comps[1..], LabelKind);
      CountKindAppend([comps[0]], comps[1..], QRAnchorKind);
      CountKindAppend([comps[0]], comps[1..], PdfKind);
    }
  }

  /** Unless a save failed, every component `Add` lists ends up on the node
      with a side row carrying its content. */
  lemma {:induction false} AddCompsPresent(p: Plan, nodeID: int, comps: seq<ComponentData>, failing: set<nat>)
    requires AllWellTyped(comps)
    ensures var r := AddComps(p, nodeID, comps, failing);
      !r.failed ==> forall i :: 0 <= i < |comps| ==> HasComponent(r.state, nodeID, comps[i])
    decreases |comps|
  {
    if |comps| > 0 {
      var p1 := ComponentStep(p, nodeID, comps[0], failing);
      ComponentStepRows(p, nodeID, comps[0], failing);
      TailWellTyped(comps);
      AddCompsPresent(p1, nodeID, comps[1..], failing);
      AddCompsGrows(p1, nodeID, comps[1..], failing);
      var r := AddComps(p1, nodeID, comps[1..], failing);
      if !r.failed {
        AppendedKeepsComponent(p1.state, r.state, nodeID, comps[0]);
        forall i | 0 < i < |comps| ensures HasComponent(r.state, nodeID, comps[i]) {
          assert comps[1..][i - 1] == comps[i];
        }
      }
    }
  }

  lemma AppendedTrans(t: NodeTables, u: NodeTables, v: NodeTables)
    requires Appended(t, u) && Appended(u, v)
    ensures Appended(t, v)
  {
  }

  /** Counting over two lists adds up. */
  lemma {:induction false} CountKindAppend(a: seq<ComponentData>, b: seq<ComponentData>, kind: ComponentKind)
    ensures CountKind(a + b, kind) == CountKind(a, kind) + CountKind(b, kind)
    decreases |a|
  {
    if |a| > 0 {
      assert (a + b)[0] == a[0] && (a + b)[1..] == a[1..] + b;
      CountKindAppend(a[1..], b, kind);
    } else {
      assert a + b == b;
    }
  }

  /** Creating one component keeps the tables consistent, keeps every
      component there was, and (unless a save failed) adds the new one. */
  lemma ComponentStepValid(p: Plan, nodeID: int, data: ComponentData, failing: set<nat>)
    requires WellTyped(data) && NodeTablesValid(p.state)
    ensures var r := ComponentStep(p, nodeID, data, failing);
      && NodeTablesValid(r.state)
      && r.state.nodes == p.state.nodes && r.state.nodeTeams == p.state.nodeTeams
      && (forall c :: c in p.state.components ==> c in r.state.components)
      && Appended(p.state, r.state)
      && (!r.failed ==> NodeComponent(NextId(p.state.components, ComponentKey), nodeID, data.componentType) in r.state.components)
      && (!r.failed ==> HasComponent(r.state, nodeID, data))
  {
    ComponentStepRows(p, nodeID, data, failing);
    var t := p.state;
    var c := NodeComponent(NextId(t.components, ComponentKey), nodeID, data.componentType);
    var q := CompStep(p, nodeID, data, failing);
    AppendComponentValid(t, c);
    if !q.failed {
      assert q.state == t.(components := t.components + [c]);
      ComponentIdsBelow(t.components, LabelKind);
      ComponentIdsBelow(t.components, QRAnchorKind);
      ComponentIdsBelow(t.components, PdfKind);
      SideRowStepValid(q, c.id, data, failing);
    }
  }

  /** Creating a list of components keeps the tables consistent and only
      appends; unless a save failed, every requested component is on the
      node with a side row carrying its content. */
  lemma {:induction false} AddCompsFacts(p: Plan, nodeID: int, comps: seq<ComponentData>, failing: set<nat>)
    requires AllWellTyped(comps) && NodeTablesValid(p.state)
    ensures var r := AddComps(p, nodeID, comps, failing);
      && NodeTablesValid(r.state)
      && r.state.nodes == p.state.nodes && r.state.nodeTeams == p.state.nodeTeams
      && (forall c :: c in p.state.components ==> c in r.state.components)
      && Appended(p.state, r.state)
      && (!r.failed ==> forall i :: 0 <= i < |comps| ==> HasComponent(r.state, nodeID, comps[i]))
    decreases |comps|
  {
    AddCompsGrows(p, nodeID, comps, failing);
    AddCompsPresent(p, nodeID, comps, failing);
    if |comps| > 0 {
      var p1 := ComponentStep(p, nodeID, comps[0], failing);
      ComponentStepValid(p, nodeID, comps[0], failing);
      TailWellTyped(comps);
      AddCompsFacts(p1, nodeID, comps[1..], failing);
    }
  }

  /** `Add` keeps the tables consistent, every node and join there was, and
      only appends components and side rows; unless a save failed, the new
      node is stored under the next identifier with the fields of the
      display, is visible to every listed team, and has one component row
      per listed component, each with a side row carrying its content. */
  lemma AddSpecFacts(t: NodeTables, saves: nat, item: NodeDisplay, failing: set<nat>)
    requires NodeTablesValid(t)
    requires item.components.Some? ==> AllWellTyped(item.components.value)
    ensures var r := AddSpec(t, saves, item, failing);
      var id := NextId(t.nodes, NodeKey);
      && NodeTablesValid(r.state)
      && (forall n :: n in t.nodes ==> n in r.state.nodes)
      && (!r.failed ==> FromDisplay(item).(id := id) in r.state.nodes)
      && (!r.failed && item.teams.Some? ==> forall tm :: tm in item.teams.value ==>
            exists j :: j in r.state.nodeTeams && j.nodeID == id && j.teamID == tm)
      && AddedRows(t, r, id, ListedComponents(item))
  {
    AddSpecRows(t, saves, item, failing);
    var node := FromDisplay(item).(id := NextId(t.nodes, NodeKey));
    var p0 := Save(Start(t, saves), t.(nodes := t.nodes + [node]), failing);
    AppendKeepsUnique(t.nodes, NodeKey, node);
    assert NodeTablesValid(p0.state);
    var p1 := if item.teams.Some? then WithJoins(p0, AddJoins(Joins(p0), node.id, item.teams.value, [], failing)) else p0;
    if item.teams.Some? {
      AddJoinsFacts(Joins(p0), node.id, item.teams.value, [], failing);
    }
    assert NodeTablesValid(p1.state) && p1.state.nodes == p0.state.nodes;
    if item.components.Some? {
      AddCompsFacts(p1, node.id, item.components.value, failing);
    }
  }

  /** What `Add` writes besides the node: every join there was is kept, the
      component and side tables are only appended to, and unless a save
      failed there is one component row per listed component and one side
      row per listed component of a recognised type, each listed component
      being on node `id` with a side row carrying its content. */
  ghost predicate AddedRows(t: NodeTables, r: Plan, id: int, cs: seq<ComponentData>)
    requires AllWellTyped(cs)
  {
    && Appended(t, r.state)
    && (forall j :: j in t.nodeTeams ==> j in r.state.nodeTeams)
    && (!r.failed ==>
          && |r.state.components| == |t.components| + |cs|
          && |r.state.labels| == |t.labels| + CountKind(cs, LabelKind)
          && |r.state.qrAnchors| == |t.qrAnchors| + CountKind(cs, QRAnchorKind)
          && |r.state.pdfs| == |t.pdfs| + CountKind(cs, PdfKind)
          && forall i :: 0 <= i < |cs| ==> HasComponent(r.state, id, cs[i]))
  }

  /** `Add` writes exactly the rows `AddedRows` describes. */
  lemma AddSpecRows(t: NodeTables, saves: nat, item: NodeDisplay, failing: set<nat>)
    requires UniqueKeys(t.nodeTeams, NodeTeamKey)
    requires item.components.Some? ==> AllWellTyped(item.components.value)
    ensures AddedRows(t, AddSpec(t, saves, item, failing), NextId(t.nodes, NodeKey), ListedComponents(item))
  {
    var node := FromDisplay(item).(id := NextId(t.nodes, NodeKey));
    var p0 := Save(Start(t, saves), t.(nodes := t.nodes + [node]), failing);
    var p1 := if item.teams.Some? then WithJoins(p0, AddJoins(Joins(p0), node.id, item.teams.value, [], failing)) else p0;
    if item.teams.Some? {
      AddJoinsFacts(Joins(p0), node.id, item.teams.value, [], failing);
    }
    assert Appended(t, p1.state) && p1.state.components == t.components;
    if item.components.Some? {
      AddCompsGrows(p1, node.id, item.components.value, failing);
      AddCompsPresent(p1, node.id, item.components.value, failing);
    }
  }

  // ----- updating -----

  /** `Update`'s edit of the node row: non-zero parent and business
      identifiers, a present name and a present position overwrite. */
  function PatchNode(n: Node, d: NodeDisplay): (r: Node)
    ensures r.id == n.id
    ensures r.parentID == if d.parentID != 0 then d.parentID else n.parentID
    ensures r.businessID == if d.businessID != 0 then d.businessID else n.businessID
    ensures r.nodeName == if d.nodeName.Some? then d.nodeName else n.nodeName
    ensures d.position.Some? ==>
      r.xPosition == d.position.value.x && r.yPosition == d.position.value.y && r.zPosition == d.position.value.z
    ensures d.position.None? ==>
      r.xPosition == n.xPosition && r.yPosition == n.yPosition && r.zPosition == n.zPosition
    ensures d.parentID == 0 && d.businessID == 0 && d.nodeName.None? && d.position.None? ==> r == n
  {
    var m := n.(parentID := OverwriteNonZero(n.parentID, d.parentID),
                businessID := OverwriteNonZero(n.businessID, d.businessID),
                nodeName := Overwrite(n.nodeName, d.nodeName));
    match d.position
    case Some(pos) => m.(xPosition := pos.x, yPosition := pos.y, zPosition := pos.z)
    case None => m
  }

  /** Applying the same edit twice is applying it once. */
  lemma PatchNodeIdempotent(n: Node, d: NodeDisplay)
    ensures PatchNode(PatchNode(n, d), d) == PatchNode(n, d)
  {
  }

  /** The node row, if it exists, edited and saved. */
  function NodeStep(p: Plan, id: int, d: NodeDisplay, failing: set<nat>): (r: Plan)
    ensures p.failed ==> r == p
    ensures r.state == p.state.(nodes := r.state.nodes)
  {
    var t := p.state;
    match Find(t.nodes, NodeKey, id)
    case None => p
    case Some(i) => Save(p, t.(nodes := t.nodes[i := PatchNode(t.nodes[i], d)]), failing)
  }

  /** The team reconciliation, when the display lists teams. */
  function TeamsStep(p: Plan, id: int, teams: Option<seq<int>>, failing: set<nat>): (r: Plan)
    ensures p.failed ==> r == p
    ensures r.state == p.state.(nodeTeams := r.state.nodeTeams)
  {
    match teams
    case None => p
    case Some(ts) => WithJoins(p, Reconcile(Joins(p), id, ts, failing))
  }

  /** A listed label's edit: a present colour, description or screenshot
      replaces the stored style, text or screenshot. */
  function PatchLabel(l: Label, c: Payload): (r: Label)
    requires c.LabelPayload?
    ensures r.id == l.id && r.nodeComponentID == l.nodeComponentID
    ensures r.style == if c.color.Some? then c.color else l.style
    ensures r.text == if c.description.Some? then c.description else l.text
    ensures r.screenshot == if c.screenshot.Some? then c.screenshot else l.screenshot
    ensures c.color.None? && c.description.None? && c.screenshot.None? ==> r == l
  {
    l.(style := Overwrite(l.style, c.color), text := Overwrite(l.text, c.description),
       screenshot := Overwrite(l.screenshot, c.screenshot))
  }

  /** A listed QR anchor's edit: a non-zero anchor identifier replaces the stored one. */
  function PatchQRAnchor(a: QRAnchor, c: Payload): (r: QRAnchor)
    requires c.QRAnchorPayload?
    ensures r.id == a.id && r.nodeComponentID == a.nodeComponentID
    ensures r.qrAnchorID == if c.qrAnchorID != 0 then c.qrAnchorID else a.qrAnchorID
    ensures c.qrAnchorID == 0 ==> r == a
  {
    a.(qrAnchorID := OverwriteNonZero(a.qrAnchorID, c.qrAnchorID))
  }

  /** A listed PDF's edit: a present link, title or description replaces the stored one. */
  function PatchPdf(d: Pdf, c: Payload): (r: Pdf)
    requires c.PdfPayload?
    ensures r.id == d.id && r.nodeComponentID == d.nodeComponentID
    ensures r.pdfLink == if c.pdfLink.Some? then c.pdfLink else d.pdfLink
    ensures r.title == if c.title.Some? then c.title else d.title
    ensures r.description == if c.pdfDescription.Some? then c.pdfDescription else d.description
    ensures c.pdfLink.None? && c.title.None? && c.pdfDescription.None? ==> r == d
  {
    d.(pdfLink := Overwrite(d.pdfLink, c.pdfLink), title := Overwrite(d.title, c.title),
       description := Overwrite(d.description, c.pdfDescription))
  }

  /** One listed component of `Update`: a non-zero component identifier of a
      recognised type whose side row exists gets that row edited and saved;
      anything else is passed over. */
  function PatchStep(p: Plan, comp: ComponentData, failing: set<nat>): (r: Plan)
    requires WellTyped(comp)
    ensures p.failed ==> r == p
    ensures comp.nodeComponentID == 0 || KindOf(comp.componentType) == UnknownKind ==> r == p
    ensures r.state.nodes == p.state.nodes && r.state.components == p.state.components
    ensures r.state.nodeTeams == p.state.nodeTeams
  {
    var key := comp.nodeComponentID;
    if key == 0 then p
    else
      match KindOf(comp.componentType)
      case LabelKind => PatchLabelStep(p, key, comp.payload, failing)
      case QRAnchorKind => PatchQRAnchorStep(p, key, comp.payload, failing)
      case PdfKind => PatchPdfStep(p, key, comp.payload, failing)
      case UnknownKind => p
  }

  /** The label of component `key`, if there is one, edited and saved. */
  function PatchLabelStep(p: Plan, key: int, c: Payload, failing: set<nat>): Plan
    requires c.LabelPayload?
  {
    var t := p.state;
    match Find(t.labels, LabelComponent, key)
    case None => p
    case Some(i) => Save(p, t.(labels := t.labels[i := PatchLabel(t.labels[i], c)]), failing)
  }

  /** The QR anchor of component `key`, if there is one, edited and saved. */
  function PatchQRAnchorStep(p: Plan, key: int, c: Payload, failing: set<nat>): Plan
    requires c.QRAnchorPayload?
  {
    var t := p.state;
    match Find(t.qrAnchors, QRAnchorComponent, key)
    case None => p
    case Some(i) => Save(p, t.(qrAnchors := t.qrAnchors[i := PatchQRAnchor(t.qrAnchors[i], c)]), failing)
  }

  /** The PDF of component `key`, if there is one, edited and saved. */
  function PatchPdfStep(p: Plan, key: int, c: Payload, failing: set<nat>): Plan
    requires c.PdfPayload?
  {
    var t := p.state;
    match Find(t.pdfs, PdfComponent, key)
    case None => p
    case Some(i) => Save(p, t.(pdfs := t.pdfs[i := PatchPdf(t.pdfs[i], c)]), failing)
  }

  function PatchComps(p: Plan, comps: seq<ComponentData>, failing: set<nat>): (r: Plan)
    requires AllWellTyped(comps)
    ensures p.failed ==> r == p
    ensures r.state.nodes == p.state.nodes && r.state.components == p.state.components
    ensures r.state.nodeTeams == p.state.nodeTeams
    decreases |comps|
  {
    if |comps| == 0 then p
    else PatchComps(PatchStep(p, comps[0], failing), comps[1..], failing)
  }

  /** `Update`: the node row, then the teams, then the listed components. */
  function UpdateSpec(t: NodeTables, saves: nat, id: int, d: NodeDisplay, failing: set<nat>): Plan
    requires d.components.Some? ==> AllWellTyped(d.components.value)
  {
    var p := TeamsStep(NodeStep(Start(t, saves), id, d, failing), id, d.teams, failing);
    if d.components.Some? then PatchComps(p, d.components.value, failing) else p
  }

  /** Editing side rows in place keeps the tables consistent. */
  lemma PatchStepValid(p: Plan, comp: ComponentData, failing: set<nat>)
    requires WellTyped(comp) && NodeTablesValid(p.state)
    ensures NodeTablesValid(PatchStep(p, comp, failing).state)
  {
    var key := comp.nodeComponentID;
    if key != 0 {
      match KindOf(comp.componentType)
      case LabelKind => PatchLabelValid(p, key, comp.payload, failing);
      case QRAnchorKind => PatchQRAnchorValid(p, key, comp.payload, failing);
      case PdfKind => PatchPdfValid(p, key, comp.payload, failing);
      case UnknownKind =>
    }
  }

  lemma PatchLabelValid(p: Plan, key: int, c: Payload, failing: set<nat>)
    requires c.LabelPayload? && NodeTablesValid(p.state)
    ensures NodeTablesValid(PatchLabelStep(p, key, c, failing).state)
  {
    var t := p.state;
    if Find(t.labels, LabelComponent, key).Some? {
      var i := Find(t.labels, LabelComponent, key).value;
      var l := PatchLabel(t.labels[i], c);
      ReplaceKeepsUnique(t.labels, LabelKey, i, l);
      ReplaceKeepsUnique(t.labels, LabelComponent, i, l);
      assert forall x :: x in t.labels[i := l] ==> x in t.labels || x == l;
    }
  }

  lemma PatchQRAnchorValid(p: Plan, key: int, c: Payload, failing: set<nat>)
    requires c.QRAnchorPayload? && NodeTablesValid(p.state)
    ensures NodeTablesValid(PatchQRAnchorStep(p, key, c, failing).state)
  {
    var t := p.state;
    if Find(t.qrAnchors, QRAnchorComponent, key).Some? {
      var i := Find(t.qrAnchors, QRAnchorComponent, key).value;
      var a := PatchQRAnchor(t.qrAnchors[i], c);
      ReplaceKeepsUnique(t.qrAnchors, QRAnchorKey, i, a);
      ReplaceKeepsUnique(t.qrAnchors, QRAnchorComponent, i, a);
      assert forall x :: x in t.qrAnchors[i := a] ==> x in t.qrAnchors || x == a;
    }
  }

  lemma PatchPdfValid(p: Plan, key: int, c: Payload, failing: set<nat>)
    requires c.PdfPayload? && NodeTablesValid(p.state)
    ensures NodeTablesValid(PatchPdfStep(p, key, c, failing).state)
  {
    var t := p.state;
    if Find(t.pdfs, PdfComponent, key).Some? {
      var i := Find(t.pdfs, PdfComponent, key).value;
      var d := PatchPdf(t.pdfs[i], c);
      ReplaceKeepsUnique(t.pdfs, PdfKey, i, d);
      ReplaceKeepsUnique(t.pdfs, PdfComponent, i, d);
      assert forall x :: x in t.pdfs[i := d] ==> x in t.pdfs || x == d;
    }
  }

  lemma {:induction false} PatchCompsValid(p: Plan, comps: seq<ComponentData>, failing: set<nat>)
    requires AllWellTyped(comps) && NodeTablesValid(p.state)
    ensures NodeTablesValid(PatchComps(p, comps, failing).state)
    decreases |comps|
  {
    if |comps| > 0 {
      PatchStepValid(p, comps[0], failing);
      TailWellTyped(comps);
      PatchCompsValid(PatchStep(p, comps[0], failing), comps[1..], failing);
    }
  }

  // ----- the side rows an update edits -----

  /** Listed component `c` names the side row of component `key` in the side
      table `kind`: `Update` reaches the edit for that row only then. */
  predicate Targets(c: ComponentData, kind: ComponentKind, key: int)
  {
    c.nodeComponentID != 0 && c.nodeComponentID == key && KindOf(c.componentType) == kind
  }

  /** Some listed component names the side row of component `key` in table `kind`. */
  predicate Listed(comps: seq<ComponentData>, kind: ComponentKind, key: int)
  {
    exists c :: c in comps && Targets(c, kind, key)
  }

  /** A label row as one listed component leaves it. */
  function LabelEdit(l: Label, c: ComponentData): Label
    requires WellTyped(c)
  {
    if Targets(c, LabelKind, l.nodeComponentID) then PatchLabel(l, c.payload) else l
  }

  /** A label row after every listed component that names it, in list
      order: the row-by-row reading of `Update`'s component loop. */
  function LabelAfter(l: Label, comps: seq<ComponentData>): (r: Label)
    requires AllWellTyped(comps)
    ensures r.id == l.id && r.nodeComponentID == l.nodeComponentID
    ensures !Listed(comps, LabelKind, l.nodeComponentID) ==> r == l
    decreases |comps|
  {
    if |comps| == 0 then l else LabelAfter(LabelEdit(l, comps[0]), comps[1..])
  }

  /** A QR anchor row as one listed component leaves it. */
  function QRAnchorEdit(a: QRAnchor, c: ComponentData): QRAnchor
    requires WellTyped(c)
  {
    if Targets(c, QRAnchorKind, a.nodeComponentID) then PatchQRAnchor(a, c.payload) else a
  }

  /** A QR anchor row after every listed component that names it, in list order. */
  function QRAnchorAfter(a: QRAnchor, comps: seq<ComponentData>): (r: QRAnchor)
    requires AllWellTyped(comps)
    ensures r.id == a.id && r.nodeComponentID == a.nodeComponentID
    ensures !Listed(comps, QRAnchorKind, a.nodeComponentID) ==> r == a
    decreases |comps|
  {
    if |comps| == 0 then a else QRAnchorAfter(QRAnchorEdit(a, comps[0]), comps[1..])
  }

  /** A PDF row as one listed component leaves it. */
  function PdfEdit(d: Pdf, c: ComponentData): Pdf
    requires WellTyped(c)
  {
    if Targets(c, PdfKind, d.nodeComponentID) then PatchPdf(d, c.payload) else d
  }

  /** A PDF row after every listed component that names it, in list order. */
  function PdfAfter(d: Pdf, comps: seq<ComponentData>): (r: Pdf)
    requires AllWellTyped(comps)
    ensures r.id == d.id && r.nodeComponentID == d.nodeComponentID
    ensures !Listed(comps, PdfKind, d.nodeComponentID) ==> r == d
    decreases |comps|
  {
    if |comps| == 0 then d else PdfAfter(PdfEdit(d, comps[0]), comps[1..])
  }

  /** One listed component edits the label of the component it names, if
      that label exists, and no other label; a failed save edits none. */
  lemma PatchStepLabels(p: Plan, c: ComponentData, failing: set<nat>)
    requires WellTyped(c) && UniqueKeys(p.state.labels, LabelComponent)
    ensures var q := PatchStep(p, c, failing);
      && |q.state.labels| == |p.state.labels|
      && UniqueKeys(q.state.labels, LabelComponent)
      && (q.failed ==> q.state.labels == p.state.labels)
      && (!q.failed ==> forall k :: 0 <= k < |p.state.labels| ==> q.state.labels[k] == LabelEdit(p.state.labels[k], c))
  {
    var ls := p.state.labels;
    if c.nodeComponentID != 0 && KindOf(c.componentType) == LabelKind {
      var key := c.nodeComponentID;
      match Find(ls, LabelComponent, key)
      case None =>
      case Some(i) =>
        var l := PatchLabel(ls[i], c.payload);
        ReplaceKeepsUnique(ls, LabelComponent, i, l);
        forall k | 0 <= k < |ls| && k != i ensures !Targets(c, LabelKind, ls[k].nodeComponentID) {
          if k < i {
          } else {
            assert LabelComponent(ls[i]) != LabelComponent(ls[k]);
          }
        }
    }
  }

  /** The same for QR anchors. */
  lemma PatchStepQRAnchors(p: Plan, c: ComponentData, failing: set<nat>)
    requires WellTyped(c) && UniqueKeys(p.state.qrAnchors, QRAnchorComponent)
    ensures var q := PatchStep(p, c, failing);
      && |q.state.qrAnchors| == |p.state.qrAnchors|
      && UniqueKeys(q.state.qrAnchors, QRAnchorComponent)
      && (q.failed ==> q.state.qrAnchors == p.state.qrAnchors)
      && (!q.failed ==> forall k :: 0 <= k < |p.state.qrAnchors| ==> q.state.qrAnchors[k] == QRAnchorEdit(p.state.qrAnchors[k], c))
  {
    var qs := p.state.qrAnchors;
    if c.nodeComponentID != 0 && KindOf(c.componentType) == QRAnchorKind {
      var key := c.nodeComponentID;
      match Find(qs, QRAnchorComponent, key)
      case None =>
      case Some(i) =>
        var a := PatchQRAnchor(qs[i], c.payload);
        ReplaceKeepsUnique(qs, QRAnchorComponent, i, a);
        forall k | 0 <= k < |qs| && k != i ensures !Targets(c, QRAnchorKind, qs[k].nodeComponentID) {
          if k < i {
          } else {
            assert QRAnchorComponent(qs[i]) != QRAnchorComponent(qs[k]);
          }
        }
    }
  }

  /** The same for PDFs. */
  lemma PatchStepPdfs(p: Plan, c: ComponentData, failing: set<nat>)
    requires WellTyped(c) && UniqueKeys(p.state.pdfs, PdfComponent)
    ensures var q := PatchStep(p, c, failing);
      && |q.state.pdfs| == |p.state.pdfs|
      && UniqueKeys(q.state.pdfs, PdfComponent)
      && (q.failed ==> q.state.pdfs == p.state.pdfs)
      && (!q.failed ==> forall k :: 0 <= k < |p.state.pdfs| ==> q.state.pdfs[k] == PdfEdit(p.state.pdfs[k], c))
  {
    var ds := p.state.pdfs;
    if c.nodeComponentID != 0 && KindOf(c.componentType) == PdfKind {
      var key := c.nodeComponentID;
      match Find(ds, PdfComponent, key)
      case None =>
      case Some(i) =>
        var d := PatchPdf(ds[i], c.payload);
        ReplaceKeepsUnique(ds, PdfComponent, i, d);
        forall k | 0 <= k < |ds| && k != i ensures !Targets(c, PdfKind, ds[k].nodeComponentID) {
          if k < i {
          } else {
            assert PdfComponent(ds[i]) != PdfComponent(ds[k]);
          }
        }
    }
  }

  /** `Update`'s component loop neither adds nor removes a label. Each label
      keeps its identifiers; a label no listed component names is left as it
      was; and, unless a save failed, every label is edited by exactly the
      listed components that name it, in list order. */
  lemma {:induction false} PatchCompsLabels(p: Plan, comps: seq<ComponentData>, failing: set<nat>)
    requires AllWellTyped(comps) && UniqueKeys(p.state.labels, LabelComponent)
    ensures var r := PatchComps(p, comps, failing);
      && |r.state.labels| == |p.state.labels|
      && (forall k :: 0 <= k < |p.state.labels| ==>
            r.state.labels[k].id == p.state.labels[k].id &&
            r.state.labels[k].nodeComponentID == p.state.labels[k].nodeComponentID)
      && (forall k :: 0 <= k < |p.state.labels| && !Listed(comps, LabelKind, p.state.labels[k].nodeComponentID) ==>
            r.state.labels[k] == p.state.labels[k])
      && (!r.failed ==> forall k :: 0 <= k < |p.state.labels| ==>
            r.state.labels[k] == LabelAfter(p.state.labels[k], comps))
    decreases |comps|
  {
    if |comps| > 0 {
      var q := PatchStep(p, comps[0], failing);
      PatchStepLabels(p, comps[0], failing);
      TailWellTyped(comps);
      PatchCompsLabels(q, comps[1..], failing);
      forall k | 0 <= k < |p.state.labels| && !Listed(comps, LabelKind, p.state.labels[k].nodeComponentID)
        ensures !Listed(comps[1..], LabelKind, p.state.labels[k].nodeComponentID)
      {
        forall c | c in comps[1..] ensures c in comps { }
      }
      assert !q.failed ==> forall k :: 0 <= k < |p.state.labels| && !Listed(comps, LabelKind, p.state.labels[k].nodeComponentID) ==>
        q.state.labels[k] == p.state.labels[k];
    }
  }

  /** The same for QR anchors. */
  lemma {:induction false} PatchCompsQRAnchors(p: Plan, comps: seq<ComponentData>, failing: set<nat>)
    requires AllWellTyped(comps) && UniqueKeys(p.state.qrAnchors, QRAnchorComponent)
    ensures var r := PatchComps(p, comps, failing);
      && |r.state.qrAnchors| == |p.state.qrAnchors|
      && (forall k :: 0 <= k < |p.state.qrAnchors| ==>
            r.state.qrAnchors[k].id == p.state.qrAnchors[k].id &&
            r.state.qrAnchors[k].nodeComponentID == p.state.qrAnchors[k].nodeComponentID)
      && (forall k :: 0 <= k < |p.state.qrAnchors| && !Listed(comps, QRAnchorKind, p.state.qrAnchors[k].nodeComponentID) ==>
            r.state.qrAnchors[k] == p.state.qrAnchors[k])
      && (!r.failed ==> forall k :: 0 <= k < |p.state.qrAnchors| ==>
            r.state.qrAnchors[k] == QRAnchorAfter(p.state.qrAnchors[k], comps))
    decreases |comps|
  {
    if |comps| > 0 {
      var q := PatchStep(p, comps[0], failing);
      PatchStepQRAnchors(p, comps[0], failing);
      TailWellTyped(comps);
      PatchCompsQRAnchors(q, comps[1..], failing);
      forall k | 0 <= k < |p.state.qrAnchors| && !Listed(comps, QRAnchorKind, p.state.qrAnchors[k].nodeComponentID)
        ensures !Listed(comps[1..], QRAnchorKind, p.state.qrAnchors[k].nodeComponentID)
      {
        forall c | c in comps[1..] ensures c in comps { }
      }
      assert !q.failed ==> forall k :: 0 <= k < |p.state.qrAnchors| && !Listed(comps, QRAnchorKind, p.state.qrAnchors[k].nodeComponentID) ==>
        q.state.qrAnchors[k] == p.state.qrAnchors[k];
    }
  }

  /** The same for PDFs. */
  lemma {:induction false} PatchCompsPdfs(p: Plan, comps: seq<ComponentData>, failing: set<nat>)
    requires AllWellTyped(comps) && UniqueKeys(p.state.pdfs, PdfComponent)
    ensures var r := PatchComps(p, comps, failing);
      && |r.state.pdfs| == |p.state.pdfs|
      && (forall k :: 0 <= k < |p.state.pdfs| ==>
            r.state.pdfs[k].id == p.state.pdfs[k].id &&
            r.state.pdfs[k].nodeComponentID == p.state.pdfs[k].nodeComponentID)
      && (forall k :: 0 <= k < |p.state.pdfs| && !Listed(comps, PdfKind, p.state.pdfs[k].nodeComponentID) ==>
            r.state.pdfs[k] == p.state.pdfs[k])
      && (!r.failed ==> forall k :: 0 <= k < |p.state.pdfs| ==>
            r.state.pdfs[k] == PdfAfter(p.state.pdfs[k], comps))
    decreases |comps|
  {
    if |comps| > 0 {
      var q := PatchStep(p, comps[0], failing);
      PatchStepPdfs(p, comps[0], failing);
      TailWellTyped(comps);
      PatchCompsPdfs(q, comps[1..], failing);
      forall k | 0 <= k < |p.state.pdfs| && !Listed(comps, PdfKind, p.state.pdfs[k].nodeComponentID)
        ensures !Listed(comps[1..], PdfKind, p.state.pdfs[k].nodeComponentID)
      {
        forall c | c in comps[1..] ensures c in comps { }
      }
      assert !q.failed ==> forall k :: 0 <= k < |p.state.pdfs| && !Listed(comps, PdfKind, p.state.pdfs[k].nodeComponentID) ==>
        q.state.pdfs[k] == p.state.pdfs[k];
    }
  }

  /** Editing the node row keeps node identifiers unique and every other
      node as it was; unless the save failed, the node named is edited. */
  lemma NodeStepFacts(p: Plan, id: int, d: NodeDisplay, failing: set<nat>)
    requires UniqueKeys(p.state.nodes, NodeKey)
    ensures var r := NodeStep(p, id, d, failing);
      && UniqueKeys(r.state.nodes, NodeKey)
      && |r.state.nodes| == |p.state.nodes|
      && (forall n :: n in p.state.nodes && n.id != id ==> n in r.state.nodes)
      && (!r.failed ==> forall n :: n in p.state.nodes && n.id == id ==> PatchNode(n, d) in r.state.nodes)
  {
    var ns := p.state.nodes;
    match Find(ns, NodeKey, id)
    case None =>
    case Some(i) =>
      var n := PatchNode(ns[i], d);
      ReplaceKeepsUnique(ns, NodeKey, i, n);
      forall m | m in ns && m.id != id ensures m in ns[i := n] {
        var k :| 0 <= k < |ns| && ns[k] == m;
        assert ns[i := n][k] == m;
      }
      forall m | m in ns && m.id == id ensures m == ns[i] {
        var k :| 0 <= k < |ns| && ns[k] == m;
        FindUnique(ns, NodeKey, id, k);
      }
      assert ns[i := n][i] == n;
  }

  /** `Update` keeps the tables consistent, never adds or removes a node or a
      component, leaves every other node as it was and, unless a save failed,
      edits the node it names. */
  lemma UpdateSpecFacts(t: NodeTables, saves: nat, id: int, d: NodeDisplay, failing: set<nat>)
    requires NodeTablesValid(t)
    requires d.components.Some? ==> AllWellTyped(d.components.value)
    ensures var r := UpdateSpec(t, saves, id, d, failing);
      && NodeTablesValid(r.state)
      && r.state.components == t.components
      && |r.state.nodes| == |t.nodes|
      && (forall n :: n in t.nodes && n.id != id ==> n in r.state.nodes)
      && (!r.failed ==> forall n :: n in t.nodes && n.id == id ==> PatchNode(n, d) in r.state.nodes)
  {
    var p1 := NodeStep(Start(t, saves), id, d, failing);
    NodeStepFacts(Start(t, saves), id, d, failing);
    assert NodeTablesValid(p1.state);
    var p2 := TeamsStep(p1, id, d.teams, failing);
    if d.teams.Some? {
      ReconcileSets(Joins(p1), id, d.teams.value, failing);
    }
    assert NodeTablesValid(p2.state);
    if d.components.Some? {
      PatchCompsValid(p2, d.components.value, failing);
    }
  }

  /** The components a display lists; none when it has no component list. */
  function ListedComponents(d: NodeDisplay): (cs: seq<ComponentData>)
    ensures d.components.Some? ==> cs == d.components.value
    ensures d.components.None? ==> cs == []
  {
    if d.components.Some? then d.components.value else []
  }

  /** `Update` never creates or deletes a side row and never changes a side
      row's identifiers. Rows of components the display does not list (with
      a non-zero identifier and a type of that side table) stay as they
      were; unless a save failed, every side row is its old row edited by
      exactly the listed components that name it. */
  lemma UpdateSideRows(t: NodeTables, saves: nat, id: int, d: NodeDisplay, failing: set<nat>)
    requires NodeTablesValid(t)
    requires d.components.Some? ==> AllWellTyped(d.components.value)
    ensures var r := UpdateSpec(t, saves, id, d, failing);
      var cs := ListedComponents(d);
      && |r.state.labels| == |t.labels|
      && (forall k :: 0 <= k < |t.labels| && !Listed(cs, LabelKind, t.labels[k].nodeComponentID) ==>
            r.state.labels[k] == t.labels[k])
      && (!r.failed ==> forall k :: 0 <= k < |t.labels| ==> r.state.labels[k] == LabelAfter(t.labels[k], cs))
      && |r.state.qrAnchors| == |t.qrAnchors|
      && (forall k :: 0 <= k < |t.qrAnchors| && !Listed(cs, QRAnchorKind, t.qrAnchors[k].nodeComponentID) ==>
            r.state.qrAnchors[k] == t.qrAnchors[k])
      && (!r.failed ==> forall k :: 0 <= k < |t.qrAnchors| ==> r.state.qrAnchors[k] == QRAnchorAfter(t.qrAnchors[k], cs))
      && |r.state.pdfs| == |t.pdfs|
      && (forall k :: 0 <= k < |t.pdfs| && !Listed(cs, PdfKind, t.pdfs[k].nodeComponentID) ==>
            r.state.pdfs[k] == t.pdfs[k])
      && (!r.failed ==> forall k :: 0 <= k < |t.pdfs| ==> r.state.pdfs[k] == PdfAfter(t.pdfs[k], cs))
  {
    var p2 := TeamsStep(NodeStep(Start(t, saves), id, d, failing), id, d.teams, failing);
    assert p2.state.labels == t.labels && p2.state.qrAnchors == t.qrAnchors && p2.state.pdfs == t.pdfs;
    if d.components.Some? {
      PatchCompsLabels(p2, d.components.value, failing);
      PatchCompsQRAnchors(p2, d.components.value, failing);
      PatchCompsPdfs(p2, d.components.value, failing);
    }
  }

  /** With a team list, after `Update` (if no save failed) the node is
      visible to exactly the listed teams; joins of other nodes and the
      node's joins for listed teams always stay, and every new join is the
      node's and for a listed team. Without a team list the joins are
      untouched. */
  lemma UpdateTeams(t: NodeTables, saves: nat, id: int, d: NodeDisplay, failing: set<nat>)
    requires UniqueKeys(t.nodeTeams, NodeTeamKey)
    requires d.components.Some? ==> AllWellTyped(d.components.value)
    ensures var r := UpdateSpec(t, saves, id, d, failing);
      && (d.teams.None? ==> r.state.nodeTeams == t.nodeTeams)
      && (d.teams.Some? ==>
            && (forall j :: j in t.nodeTeams && (j.nodeID != id || j.teamID in d.teams.value) ==> j in r.state.nodeTeams)
            && (forall j :: j in r.state.nodeTeams && j !in t.nodeTeams ==> j.nodeID == id && j.teamID in d.teams.value)
            && (forall j, k :: j in r.state.nodeTeams && j !in t.nodeTeams && k in t.nodeTeams && k.nodeID == id ==>
                  k.teamID != j.teamID)
            && (!r.failed ==> forall tm :: (exists j :: j in r.state.nodeTeams && j.nodeID == id && j.teamID == tm) <==> tm in d.teams.value))
  {
    var p1 := NodeStep(Start(t, saves), id, d, failing);
    if d.teams.Some? {
      ReconcileSets(Joins(p1), id, d.teams.value, failing);
    }
  }

  // ----- dropping -----

  /** The first half of `DropComponentType`: if the component's type selects
      a side table holding a row for it, that row is deleted and saved. */
  function DropSide(p: Plan, c: NodeComponent, failing: set<nat>): (r: Plan)
    ensures p.failed ==> r == p
    ensures r.state.nodes == p.state.nodes && r.state.components == p.state.components
    ensures r.state.nodeTeams == p.state.nodeTeams
  {
    match KindOf(c.componentType)
    case LabelKind => DropLabelStep(p, c.id, failing)
    case QRAnchorKind => DropQRAnchorStep(p, c.id, failing)
    case PdfKind => DropPdfStep(p, c.id, failing)
    case UnknownKind => p
  }

  /** The label of component `compID`, if there is one, deleted and saved. */
  function DropLabelStep(p: Plan, compID: int, failing: set<nat>): Plan
  {
    var t := p.state;
    match Find(t.labels, LabelComponent, compID)
    case None => p
    case Some(i) => Save(p, t.(labels := RemoveAt(t.labels, i)), failing)
  }

  /** The QR anchor of component `compID`, if there is one, deleted and saved. */
  function DropQRAnchorStep(p: Plan, compID: int, failing: set<nat>): Plan
  {
    var t := p.state;
    match Find(t.qrAnchors, QRAnchorComponent, compID)
    case None => p
    case Some(i) => Save(p, t.(qrAnchors := RemoveAt(t.qrAnchors, i)), failing)
  }

  /** The PDF of component `compID`, if there is one, deleted and saved. */
  function DropPdfStep(p: Plan, compID: int, failing: set<nat>): Plan
  {
    var t := p.state;
    match Find(t.pdfs, PdfComponent, compID)
    case None => p
    case Some(i) => Save(p, t.(pdfs := RemoveAt(t.pdfs, i)), failing)
  }

  /** `DropComponentType`: the side row, then the component row, each with
      its own save. */
  function DropStep(p: Plan, c: NodeComponent, failing: set<nat>): (r: Plan)
    ensures p.failed ==> r == p
    ensures r.state.nodes == p.state.nodes && r.state.nodeTeams == p.state.nodeTeams
  {
    var q := DropSide(p, c, failing);
    Save(q, q.state.(components := DeleteKey(q.state.components, ComponentKey, c.id)), failing)
  }

  /** `DropComponentType` for each component of a list, stopping at the first
      failing save. */
  function DropAll(p: Plan, comps: seq<NodeComponent>, failing: set<nat>): (r: Plan)
    ensures p.failed ==> r == p
    ensures r.state.nodes == p.state.nodes && r.state.nodeTeams == p.state.nodeTeams
    decreases |comps|
  {
    if |comps| == 0 then p
    else DropAll(DropStep(p, comps[0], failing), comps[1..], failing)
  }

  /** The end of `Remove`: all the node's team joins with one save, then the
      node row with another. */
  function RemoveTail(p: Plan, id: int, failing: set<nat>): (r: Plan)
    ensures p.failed ==> r == p
  {
    var q := Save(p, p.state.(nodeTeams := Without(p.state.nodeTeams, JoinNode, id)), failing);
    Save(q, q.state.(nodes := DeleteKey(q.state.nodes, NodeKey, id)), failing)
  }

  /** `Remove` of a node that exists: its components (side row first), then
      its team joins, then the node row. */
  function RemoveSpec(t: NodeTables, saves: nat, id: int, failing: set<nat>): Plan
  {
    RemoveTail(DropAll(Start(t, saves), Where(t.components, ComponentNode, id), failing), id, failing)
  }

  /** The identifiers of a list of components. */
  ghost function IdsOf(comps: seq<NodeComponent>): set<int>
  {
    set c | c in comps :: c.id
  }

  /** In consistent tables a component's side rows can only be in the table
      its type selects. */
  lemma SideRowOwner(t: NodeTables, c: NodeComponent)
    requires NodeTablesValid(t) && c in t.components
    ensures forall l :: l in t.labels && l.nodeComponentID == c.id ==> KindOf(c.componentType) == LabelKind
    ensures forall a :: a in t.qrAnchors && a.nodeComponentID == c.id ==> KindOf(c.componentType) == QRAnchorKind
    ensures forall d :: d in t.pdfs && d.nodeComponentID == c.id ==> KindOf(c.componentType) == PdfKind
  {
    var cs := t.components;
    forall k | c.id in ComponentIds(cs, k) ensures KindOf(c.componentType) == k {
      var e :| e in cs && KindOf(e.componentType) == k && e.id == c.id;
      var a :| 0 <= a < |cs| && cs[a] == c;
      var b :| 0 <= b < |cs| && cs[b] == e;
      assert !(a < b) && !(b < a);
    }
  }

  /** Deleting a component's side row keeps the tables consistent and every
      other side row; unless the save failed, no side row of it is left. */
  lemma DropSideFacts(p: Plan, c: NodeComponent, failing: set<nat>)
    requires NodeTablesValid(p.state) && c in p.state.components
    ensures var r := DropSide(p, c, failing);
      && NodeTablesValid(r.state)
      && (forall l :: l in r.state.labels ==> l in p.state.labels)
      && (forall a :: a in r.state.qrAnchors ==> a in p.state.qrAnchors)
      && (forall d :: d in r.state.pdfs ==> d in p.state.pdfs)
      && (forall l :: l in p.state.labels && l.nodeComponentID != c.id ==> l in r.state.labels)
      && (forall a :: a in p.state.qrAnchors && a.nodeComponentID != c.id ==> a in r.state.qrAnchors)
      && (forall d :: d in p.state.pdfs && d.nodeComponentID != c.id ==> d in r.state.pdfs)
      && (!r.failed ==>
            && (forall l :: l in r.state.labels ==> l.nodeComponentID != c.id)
            && (forall a :: a in r.state.qrAnchors ==> a.nodeComponentID != c.id)
            && (forall d :: d in r.state.pdfs ==> d.nodeComponentID != c.id))
  {
    var t := p.state;
    SideRowOwner(t, c);
    match KindOf(c.componentType)
    case LabelKind =>
      if Find(t.labels, LabelComponent, c.id).Some? {
        RemoveLabelFacts(t, c.id);
      }
    case QRAnchorKind =>
      if Find(t.qrAnchors, QRAnchorComponent, c.id).Some? {
        RemoveQRAnchorFacts(t, c.id);
      }
    case PdfKind =>
      if Find(t.pdfs, PdfComponent, c.id).Some? {
        RemovePdfFacts(t, c.id);
      }
    case UnknownKind =>
  }

  /** Deleting the label of component `compID` keeps the tables consistent
      and every other label, and leaves none for that component. */
  lemma RemoveLabelFacts(t: NodeTables, compID: int)
    requires NodeTablesValid(t) && Find(t.labels, LabelComponent, compID).Some?
    ensures var r := RemoveAt(t.labels, Find(t.labels, LabelComponent, compID).value);
      && NodeTablesValid(t.(labels := r))
      && (forall l :: l in r ==> l in t.labels)
      && (forall l :: l in t.labels && l.nodeComponentID != compID ==> l in r)
      && (forall l :: l in r ==> l.nodeComponentID != compID)
  {
    var i := Find(t.labels, LabelComponent, compID).value;
    RemoveAtKeepsUnique(t.labels, LabelKey, i);
    RemoveAtKeepsUnique(t.labels, LabelComponent, i);
    RemoveAtElements(t.labels, i);
  }

  /** The same for the QR anchor of component `compID`. */
  lemma RemoveQRAnchorFacts(t: NodeTables, compID: int)
    requires NodeTablesValid(t) && Find(t.qrAnchors, QRAnchorComponent, compID).Some?
    ensures var r := RemoveAt(t.qrAnchors, Find(t.qrAnchors, QRAnchorComponent, compID).value);
      && NodeTablesValid(t.(qrAnchors := r))
      && (forall a :: a in r ==> a in t.qrAnchors)
      && (forall a :: a in t.qrAnchors && a.nodeComponentID != compID ==> a in r)
      && (forall a :: a in r ==> a.nodeComponentID != compID)
  {
    var i := Find(t.qrAnchors, QRAnchorComponent, compID).value;
    RemoveAtKeepsUnique(t.qrAnchors, QRAnchorKey, i);
    RemoveAtKeepsUnique(t.qrAnchors, QRAnchorComponent, i);
    RemoveAtElements(t.qrAnchors, i);
  }

  /** The same for the PDF of component `compID`. */
  lemma RemovePdfFacts(t: NodeTables, compID: int)
    requires NodeTablesValid(t) && Find(t.pdfs, PdfComponent, compID).Some?
    ensures var r := RemoveAt(t.pdfs, Find(t.pdfs, PdfComponent, compID).value);
      && NodeTablesValid(t.(pdfs := r))
      && (forall d :: d in r ==> d in t.pdfs)
      && (forall d :: d in t.pdfs && d.nodeComponentID != compID ==> d in r)
      && (forall d :: d in r ==> d.nodeComponentID != compID)
  {
    var i := Find(t.pdfs, PdfComponent, compID).value;
    RemoveAtKeepsUnique(t.pdfs, PdfKey, i);
    RemoveAtKeepsUnique(t.pdfs, PdfComponent, i);
    RemoveAtElements(t.pdfs, i);
  }

  /** Deleting a component row that no side row refers to keeps the tables
      consistent; unless the save failed, exactly that component goes. */
  lemma DropRowFacts(q: Plan, c: NodeComponent, failing: set<nat>)
    requires NodeTablesValid(q.state) && c in q.state.components
    requires forall l :: l in q.state.labels ==> l.nodeComponentID != c.id
    requires forall a :: a in q.state.qrAnchors ==> a.nodeComponentID != c.id
    requires forall d :: d in q.state.pdfs ==> d.nodeComponentID != c.id
    ensures var r := Save(q, q.state.(components := DeleteKey(q.state.components, ComponentKey, c.id)), failing);
      && NodeTablesValid(r.state)
      && (forall x :: x in r.state.components ==> x in q.state.components)
      && (forall x :: x in q.state.components && x != c ==> x in r.state.components)
      && (!r.failed ==> c !in r.state.components)
  {
    var cs := q.state.components;
    var i :| 0 <= i < |cs| && cs[i] == c;
    FindUnique(cs, ComponentKey, c.id, i);
    RemoveAtKeepsUnique(cs, ComponentKey, i);
    RemoveAtElements(cs, i);
    var rest := RemoveAt(cs, i);
    forall k, x | x in ComponentIds(cs, k) && x != c.id ensures x in ComponentIds(rest, k) {
      var e :| e in cs && KindOf(e.componentType) == k && e.id == x;
      assert e in rest;
    }
  }

  /** `DropComponentType` keeps the tables consistent and everything not
      belonging to the component; unless a save failed, the component and
      its side row are gone. */
  lemma DropStepFacts(p: Plan, c: NodeComponent, failing: set<nat>)
    requires NodeTablesValid(p.state) && c in p.state.components
    ensures var r := DropStep(p, c, failing);
      && NodeTablesValid(r.state)
      && (forall x :: x in r.state.components ==> x in p.state.components)
      && (forall x :: x in p.state.components && x != c ==> x in r.state.components)
      && (forall l :: l in r.state.labels ==> l in p.state.labels)
      && (forall a :: a in r.state.qrAnchors ==> a in p.state.qrAnchors)
      && (forall d :: d in r.state.pdfs ==> d in p.state.pdfs)
      && (forall l :: l in p.state.labels && l.nodeComponentID != c.id ==> l in r.state.labels)
      && (forall a :: a in p.state.qrAnchors && a.nodeComponentID != c.id ==> a in r.state.qrAnchors)
      && (forall d :: d in p.state.pdfs && d.nodeComponentID != c.id ==> d in r.state.pdfs)
      && (!r.failed ==>
            && c !in r.state.components
            && (forall l :: l in r.state.labels ==> l.nodeComponentID != c.id)
            && (forall a :: a in r.state.qrAnchors ==> a.nodeComponentID != c.id)
            && (forall d :: d in r.state.pdfs ==> d.nodeComponentID != c.id))
  {
    var q := DropSide(p, c, failing);
    DropSideFacts(p, c, failing);
    if !q.failed {
      DropRowFacts(q, c, failing);
    }
  }

  /** Dropping a list of distinct components keeps the tables consistent and
      everything that belongs to no listed component. */
  lemma {:induction false} DropAllKeeps(p: Plan, comps: seq<NodeComponent>, failing: set<nat>)
    requires NodeTablesValid(p.state) && UniqueKeys(comps, ComponentKey)
    requires forall c :: c in comps ==> c in p.state.components
    ensures var r := DropAll(p, comps, failing);
      && NodeTablesValid(r.state)
      && (forall x :: x in r.state.components ==> x in p.state.components)
      && (forall x :: x in p.state.components && x !in comps ==> x in r.state.components)
      && (forall l :: l in r.state.labels ==> l in p.state.labels)
      && (forall a :: a in r.state.qrAnchors ==> a in p.state.qrAnchors)
      && (forall d :: d in r.state.pdfs ==> d in p.state.pdfs)
      && (forall l :: l in p.state.labels && l.nodeComponentID !in IdsOf(comps) ==> l in r.state.labels)
      && (forall a :: a in p.state.qrAnchors && a.nodeComponentID !in IdsOf(comps) ==> a in r.state.qrAnchors)
      && (forall d :: d in p.state.pdfs && d.nodeComponentID !in IdsOf(comps) ==> d in r.state.pdfs)
    decreases |comps|
  {
    if |comps| > 0 {
      var c := comps[0];
      var rest := comps[1..];
      var p1 := DropStep(p, c, failing);
      DropStepFacts(p, c, failing);
      TailKeepsUnique(comps, ComponentKey);
      assert forall e :: e in rest ==> e in p.state.components && e != c;
      DropAllKeeps(p1, rest, failing);
      assert forall x :: x in comps <==> x == c || x in rest;
      assert IdsOf(comps) == {c.id} + IdsOf(rest);
    }
  }

  /** Unless a save failed, dropping a list of distinct components leaves no
      listed component and no side row of one. */
  lemma {:induction false} DropAllClears(p: Plan, comps: seq<NodeComponent>, failing: set<nat>)
    requires NodeTablesValid(p.state) && UniqueKeys(comps, ComponentKey)
    requires forall c :: c in comps ==> c in p.state.components
    ensures var r := DropAll(p, comps, failing);
      !r.failed ==>
        && (forall x :: x in comps ==> x !in r.state.components)
        && (forall l :: l in r.state.labels ==> l.nodeComponentID !in IdsOf(comps))
        && (forall a :: a in r.state.qrAnchors ==> a.nodeComponentID !in IdsOf(comps))
        && (forall d :: d in r.state.pdfs ==> d.nodeComponentID !in IdsOf(comps))
    decreases |comps|
  {
    if |comps| > 0 {
      var c := comps[0];
      var rest := comps[1..];
      var p1 := DropStep(p, c, failing);
      DropStepFacts(p, c, failing);
      TailKeepsUnique(comps, ComponentKey);
      assert forall e :: e in rest ==> e in p.state.components && e != c;
      DropAllKeeps(p1, rest, failing);
      DropAllClears(p1, rest, failing);
      assert forall x :: x in comps <==> x == c || x in rest;
      assert IdsOf(comps) == {c.id} + IdsOf(rest);
    }
  }

  /** Both of the above. */
  lemma DropAllFacts(p: Plan, comps: seq<NodeComponent>, failing: set<nat>)
    requires NodeTablesValid(p.state) && UniqueKeys(comps, ComponentKey)
    requires forall c :: c in comps ==> c in p.state.components
    ensures var r := DropAll(p, comps, failing);
      && NodeTablesValid(r.state)
      && (forall x :: x in r.state.components ==> x in p.state.components)
      && (forall x :: x in p.state.components && x !in comps ==> x in r.state.components)
      && (forall l :: l in r.state.labels ==> l in p.state.labels)
      && (forall a :: a in r.state.qrAnchors ==> a in p.state.qrAnchors)
      && (forall d :: d in r.state.pdfs ==> d in p.state.pdfs)
      && (forall l :: l in p.state.labels && l.nodeComponentID !in IdsOf(comps) ==> l in r.state.labels)
      && (forall a :: a in p.state.qrAnchors && a.nodeComponentID !in IdsOf(comps) ==> a in r.state.qrAnchors)
      && (forall d :: d in p.state.pdfs && d.nodeComponentID !in IdsOf(comps) ==> d in r.state.pdfs)
      && (!r.failed ==>
            && (forall x :: x in comps ==> x !in r.state.components)
            && (forall l :: l in r.state.labels ==> l.nodeComponentID !in IdsOf(comps))
            && (forall a :: a in r.state.qrAnchors ==> a.nodeComponentID !in IdsOf(comps))
            && (forall d :: d in r.state.pdfs ==> d.nodeComponentID !in IdsOf(comps)))
  {
    DropAllKeeps(p, comps, failing);
    DropAllClears(p, comps, failing);
  }

  /** The team joins and then the node row: the tables stay consistent, the
      component tables are untouched, other nodes and their joins stay, and
      when no save failed the node and its joins are gone. */
  lemma RemoveTailFacts(p: Plan, id: int, failing: set<nat>)
    requires NodeTablesValid(p.state)
    ensures var r := RemoveTail(p, id, failing);
      && NodeTablesValid(r.state)
      && r.state.components == p.state.components
      && r.state.labels == p.state.labels && r.state.qrAnchors == p.state.qrAnchors
      && r.state.pdfs == p.state.pdfs
      && (forall n :: n in p.state.nodes && n.id != id ==> n in r.state.nodes)
      && (forall j :: j in p.state.nodeTeams && j.nodeID != id ==> j in r.state.nodeTeams)
      && (!r.failed ==> (forall n :: n in r.state.nodes ==> n.id != id) &&
                        (forall j :: j in r.state.nodeTeams ==> j.nodeID != id))
  {
    var q := Save(p, p.state.(nodeTeams := Without(p.state.nodeTeams, JoinNode, id)), failing);
    WithoutKeepsUnique(p.state.nodeTeams, JoinNode, id, NodeTeamKey);
    assert NodeTablesValid(q.state);
    match Find(q.state.nodes, NodeKey, id)
    case None =>
    case Some(i) =>
      RemoveAtKeepsUnique(q.state.nodes, NodeKey, i);
      RemoveAtElements(q.state.nodes, i);
  }

  /** `Remove` keeps the tables consistent and never touches another node,
      another node's components or their side rows, or another node's joins. */
  lemma RemoveKeeps(t: NodeTables, saves: nat, id: int, failing: set<nat>)
    requires NodeTablesValid(t)
    ensures var r := RemoveSpec(t, saves, id, failing);
      var mine := Where(t.components, ComponentNode, id);
      && NodeTablesValid(r.state)
      && (forall n :: n in t.nodes && n.id != id ==> n in r.state.nodes)
      && (forall c :: c in t.components && c.nodeID != id ==> c in r.state.components)
      && (forall j :: j in t.nodeTeams && j.nodeID != id ==> j in r.state.nodeTeams)
      && (forall l :: l in t.labels && l.nodeComponentID !in IdsOf(mine) ==> l in r.state.labels)
      && (forall a :: a in t.qrAnchors && a.nodeComponentID !in IdsOf(mine) ==> a in r.state.qrAnchors)
      && (forall d :: d in t.pdfs && d.nodeComponentID !in IdsOf(mine) ==> d in r.state.pdfs)
  {
    var mine := Where(t.components, ComponentNode, id);
    WhereKeepsUnique(t.components, ComponentNode, id, ComponentKey);
    DropAllFacts(Start(t, saves), mine, failing);
    RemoveTailFacts(DropAll(Start(t, saves), mine, failing), id, failing);
  }

  /** After a `Remove` in which no save failed, the node, each of its
      components, each side row of those components and each of its team
      joins is gone. */
  lemma RemoveCascade(t: NodeTables, saves: nat, id: int, failing: set<nat>)
    requires NodeTablesValid(t)
    ensures var r := RemoveSpec(t, saves, id, failing);
      var mine := Where(t.components, ComponentNode, id);
      !r.failed ==>
        && (forall n :: n in r.state.nodes ==> n.id != id)
        && (forall c :: c in r.state.components ==> c.nodeID != id)
        && (forall j :: j in r.state.nodeTeams ==> j.nodeID != id)
        && (forall l :: l in r.state.labels ==> l.nodeComponentID !in IdsOf(mine))
        && (forall a :: a in r.state.qrAnchors ==> a.nodeComponentID !in IdsOf(mine))
        && (forall d :: d in r.state.pdfs ==> d.nodeComponentID !in IdsOf(mine))
  {
    var mine := Where(t.components, ComponentNode, id);
    WhereKeepsUnique(t.components, ComponentNode, id, ComponentKey);
    DropAllFacts(Start(t, saves), mine, failing);
    RemoveTailFacts(DropAll(Start(t, saves), mine, failing), id, failing);
  }
}
