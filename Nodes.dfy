/** The node repository: nodes with their components (each component's
    content in the side table its type string selects) and their
    visibility to teams. */
module Nodes {
  import opened Common
  import opened Models
  import opened Tables
  import opened Filter
  import opened NodeSpec

  // ----- displays -----

  /** The component type strings `CreateDisplay` recognises. */
  const KnownTypes: set<Text> := {Some("Label"), Some("label"), Some("QRAnchor"), Some("qranchor"),
                                  Some("QRanchor"), Some("PDF"), Some("pdf")}

  /** The component's type selects a side table holding a row for it. */
  ghost predicate HasSideRow(t: NodeTables, c: NodeComponent)
  {
    match KindOf(c.componentType)
    case LabelKind => exists l :: l in t.labels && l.nodeComponentID == c.id
    case QRAnchorKind => exists a :: a in t.qrAnchors && a.nodeComponentID == c.id
    case PdfKind => exists d :: d in t.pdfs && d.nodeComponentID == c.id
    case UnknownKind => false
  }

  /** One case of the `switch` in `CreateDisplay`: the component's data,
      built from the first side row that belongs to it, if there is one. */
  function ComponentDataOf(t: NodeTables, c: NodeComponent): (r: Option<ComponentData>)
    ensures r.Some? ==> KindOf(c.componentType) != UnknownKind
  {
    match KindOf(c.componentType)
    case LabelKind =>
      (match Common.Find(t.labels, LabelComponent, c.id)
       case None => None
       case Some(i) =>
         var l := t.labels[i];
         Some(ComponentData(l.nodeComponentID, c.nodeID, c.componentType, LabelPayload(l.text, l.style, l.screenshot))))
    case QRAnchorKind =>
      (match Common.Find(t.qrAnchors, QRAnchorComponent, c.id)
       case None => None
       case Some(i) =>
         var a := t.qrAnchors[i];
         Some(ComponentData(a.nodeComponentID, c.nodeID, c.componentType, QRAnchorPayload(a.qrAnchorID))))
    case PdfKind =>
      (match Common.Find(t.pdfs, PdfComponent, c.id)
       case None => None
       case Some(i) =>
         var d := t.pdfs[i];
         Some(ComponentData(d.nodeComponentID, c.nodeID, c.componentType, PdfPayload(d.pdfLink, d.title, d.description))))
    case UnknownKind => None
  }

  /** A component is shown exactly when it has a side row, and then with its
      own identifier, node and type string (one of the recognised ones) and a
      payload of the kind that type string selects. */
  lemma ComponentDataShown(t: NodeTables, c: NodeComponent)
    ensures var r := ComponentDataOf(t, c);
      && (r.Some? <==> HasSideRow(t, c))
      && (r.Some? ==>
            && r.value.nodeComponentID == c.id && r.value.nodeID == c.nodeID
            && r.value.componentType == c.componentType && r.value.componentType in KnownTypes
            && WellTyped(r.value))
  {
    match KindOf(c.componentType)
    case LabelKind =>
      if exists l :: l in t.labels && l.nodeComponentID == c.id {
        var l :| l in t.labels && l.nodeComponentID == c.id;
        var i :| 0 <= i < |t.labels| && t.labels[i] == l;
        assert LabelComponent(t.labels[i]) == c.id;
      }
    case QRAnchorKind =>
      if exists a :: a in t.qrAnchors && a.nodeComponentID == c.id {
        var a :| a in t.qrAnchors && a.nodeComponentID == c.id;
        var i :| 0 <= i < |t.qrAnchors| && t.qrAnchors[i] == a;
        assert QRAnchorComponent(t.qrAnchors[i]) == c.id;
      }
    case PdfKind =>
      if exists d :: d in t.pdfs && d.nodeComponentID == c.id {
        var d :| d in t.pdfs && d.nodeComponentID == c.id;
        var i :| 0 <= i < |t.pdfs| && t.pdfs[i] == d;
        assert PdfComponent(t.pdfs[i]) == c.id;
      }
    case UnknownKind =>
  }

  /** In consistent tables the data shown for a component carries exactly
      the content of its side row: description and colour are the label's
      text and style, and so on. */
  lemma ComponentDataContent(t: NodeTables, c: NodeComponent)
    requires NodeTablesValid(t)
    ensures forall l :: l in t.labels && l.nodeComponentID == c.id && KindOf(c.componentType) == LabelKind ==>
      ComponentDataOf(t, c) == Some(ComponentData(c.id, c.nodeID, c.componentType, LabelPayload(l.text, l.style, l.screenshot)))
    ensures forall a :: a in t.qrAnchors && a.nodeComponentID == c.id && KindOf(c.componentType) == QRAnchorKind ==>
      ComponentDataOf(t, c) == Some(ComponentData(c.id, c.nodeID, c.componentType, QRAnchorPayload(a.qrAnchorID)))
    ensures forall d :: d in t.pdfs && d.nodeComponentID == c.id && KindOf(c.componentType) == PdfKind ==>
      ComponentDataOf(t, c) == Some(ComponentData(c.id, c.nodeID, c.componentType, PdfPayload(d.pdfLink, d.title, d.description)))
  {
    FindUniqueAll(t.labels, LabelComponent, c.id);
    FindUniqueAll(t.qrAnchors, QRAnchorComponent, c.id);
    FindUniqueAll(t.pdfs, PdfComponent, c.id);
    forall l | l in t.labels && l.nodeComponentID == c.id && KindOf(c.componentType) == LabelKind
      ensures ComponentDataOf(t, c) == Some(ComponentData(c.id, c.nodeID, c.componentType, LabelPayload(l.text, l.style, l.screenshot)))
    {
      var i :| 0 <= i < |t.labels| && t.labels[i] == l;
    }
    forall a | a in t.qrAnchors && a.nodeComponentID == c.id && KindOf(c.componentType) == QRAnchorKind
      ensures ComponentDataOf(t, c) == Some(ComponentData(c.id, c.nodeID, c.componentType, QRAnchorPayload(a.qrAnchorID)))
    {
      var i :| 0 <= i < |t.qrAnchors| && t.qrAnchors[i] == a;
    }
    forall d | d in t.pdfs && d.nodeComponentID == c.id && KindOf(c.componentType) == PdfKind
      ensures ComponentDataOf(t, c) == Some(ComponentData(c.id, c.nodeID, c.componentType, PdfPayload(d.pdfLink, d.title, d.description)))
    {
      var i :| 0 <= i < |t.pdfs| && t.pdfs[i] == d;
    }
  }

  /** What `CreateDisplay` adds to its component list for one component. */
  function Shown(t: NodeTables, c: NodeComponent): seq<ComponentData>
  {
    match ComponentDataOf(t, c)
    case Some(d) => [d]
    case None => []
  }

  /** The data of every component of a list that has a side row, in order. */
  function ComponentDatas(t: NodeTables, comps: seq<NodeComponent>): (r: seq<ComponentData>)
    ensures |r| <= |comps|
    decreases |comps|
  {
    if |comps| == 0 then [] else ComponentDatas(t, comps[..|comps| - 1]) + Shown(t, comps[|comps| - 1])
  }

  lemma ComponentDatasStep(t: NodeTables, comps: seq<NodeComponent>, i: nat)
    requires i < |comps|
    ensures ComponentDatas(t, comps[..i + 1]) == ComponentDatas(t, comps[..i]) + Shown(t, comps[i])
  {
    assert comps[..i + 1][..i] == comps[..i];
  }

  /** Exactly the components with a side row show up. */
  lemma {:induction false} ComponentDatasExact(t: NodeTables, comps: seq<NodeComponent>)
    ensures forall d :: d in ComponentDatas(t, comps) <==> exists c :: c in comps && ComponentDataOf(t, c) == Some(d)
    decreases |comps|
  {
    if |comps| > 0 {
      var front := comps[..|comps| - 1];
      ComponentDatasExact(t, front);
      assert forall c :: c in comps <==> c == comps[|comps| - 1] || c in front;
    }
  }

  /** `CreateDisplay(node)`: the node with the teams of its joins and the
      data of its components, both in table order. */
  function DisplayOf(t: NodeTables, n: Node): NodeDisplay
  {
    ToDisplay(n).(teams := Some(TeamIdsOf(Where(t.nodeTeams, JoinNode, n.id))),
                  components := Some(ComponentDatas(t, Where(t.components, ComponentNode, n.id))))
  }

  /** A display converts back to its node; it lists exactly the teams the
      node is visible to and exactly the node's components that have a side
      row, each under a recognised type string and with its payload. */
  lemma DisplayOfFacts(t: NodeTables, n: Node)
    ensures var d := DisplayOf(t, n);
      && FromDisplay(d) == n
      && d.teams.Some? && d.components.Some?
      && (forall tm :: tm in d.teams.value <==> exists j :: j in t.nodeTeams && j.nodeID == n.id && j.teamID == tm)
      && (forall cd :: cd in d.components.value <==>
            exists c :: c in t.components && c.nodeID == n.id && ComponentDataOf(t, c) == Some(cd))
      && (forall cd :: cd in d.components.value ==>
            cd.nodeID == n.id && cd.componentType in KnownTypes && WellTyped(cd))
  {
    var comps := Where(t.components, ComponentNode, n.id);
    ComponentDatasExact(t, comps);
    TeamIdsMembers(Where(t.nodeTeams, JoinNode, n.id));
    forall c | c in comps ensures
      var r := ComponentDataOf(t, c);
      r.Some? ==> r.value.nodeID == n.id && r.value.componentType in KnownTypes && WellTyped(r.value)
    {
      ComponentDataShown(t, c);
    }
  }

  /** The properties `GetSelect` compares, in declaration order. */
  function NodeFields(q: NodeDisplay, d: NodeDisplay): seq<Field>
  {
    [ Field(Num(q.id), Num(d.id), false),
      Field(Num(q.parentID), Num(d.parentID), false),
      Field(Num(q.businessID), Num(d.businessID), false),
      Field(TextValue(q.nodeName), TextValue(d.nodeName), false),
      Field(ObjValue(q.position), ObjValue(d.position), false),
      Field(ObjValue(q.teams), ObjValue(d.teams), false),
      Field(ObjValue(q.components), ObjValue(d.components), false) ]
  }

  /** `new NodesDisplay()`: a query with every property at its default. */
  const BlankQuery := NodeDisplay(0, 0, 0, None, None, None, None)

  /** The exact condition a node display must meet to be selected: every
      non-zero number and every name other than "0" must be equal, and a
      query that carries a position, a team list or a component list
      selects nothing. */
  lemma NodeMatch(q: NodeDisplay, d: NodeDisplay)
    ensures Accepts(NodeFields(q, d)) <==>
      && (q.id == 0 || d.id == q.id)
      && (q.parentID == 0 || d.parentID == q.parentID)
      && (q.businessID == 0 || d.businessID == q.businessID)
      && TextAgrees(q.nodeName, d.nodeName)
      && q.position.None? && q.teams.None? && q.components.None?
  {
    var fs := NodeFields(q, d);
    if forall i :: 0 <= i < 7 ==> FieldAccepts(fs[i]) {
      assert FieldAccepts(fs[0]) && FieldAccepts(fs[1]) && FieldAccepts(fs[2]) && FieldAccepts(fs[3]);
      assert FieldAccepts(fs[4]) && FieldAccepts(fs[5]) && FieldAccepts(fs[6]);
    }
    NumField(q.id, d.id);
    NumField(q.parentID, d.parentID);
    NumField(q.businessID, d.businessID);
    TextField(q.nodeName, d.nodeName);
    ObjField(q.position, d.position);
    ObjField(q.teams, d.teams);
    ObjField(q.components, d.components);
  }

  /** The display of every row, in table order. */
  function AllDisplays(t: NodeTables, rows: seq<Node>): (r: seq<NodeDisplay>)
    ensures |r| == |rows|
  {
    MapAll(rows, n => DisplayOf(t, n))
  }

  lemma AllDisplaysStep(t: NodeTables, rows: seq<Node>, i: nat)
    requires i < |rows|
    ensures AllDisplays(t, rows[..i + 1]) == AllDisplays(t, rows[..i]) + [DisplayOf(t, rows[i])]
  {
    MapAllStep(rows, n => DisplayOf(t, n), i);
  }

  /** The displays listed are exactly those of the rows. */
  lemma AllDisplaysMembers(t: NodeTables, rows: seq<Node>)
    ensures forall d :: d in AllDisplays(t, rows) <==> exists n :: n in rows && d == DisplayOf(t, n)
  {
    MapAllMembers(rows, n => DisplayOf(t, n));
  }

  /** The displays of `ds` that the query accepts, in order. */
  function Matching(ds: seq<NodeDisplay>, q: NodeDisplay): (r: seq<NodeDisplay>)
    ensures |r| <= |ds|
  {
    if |ds| == 0 then []
    else
      var d := ds[|ds| - 1];
      Matching(ds[..|ds| - 1], q) + if Accepts(NodeFields(q, d)) then [d] else []
  }

  /** A display is kept exactly when it is listed and accepted. */
  lemma {:induction false} MatchingMembers(ds: seq<NodeDisplay>, q: NodeDisplay, d: NodeDisplay)
    ensures d in Matching(ds, q) <==> d in ds && Accepts(NodeFields(q, d))
  {
    if |ds| > 0 {
      var front := ds[..|ds| - 1];
      MatchingMembers(front, q, d);
      assert d in ds <==> d in front || d == ds[|ds| - 1];
    }
  }

  /** The query with every property at its default accepts every display. */
  lemma {:induction false} BlankMatchesAll(ds: seq<NodeDisplay>)
    ensures Matching(ds, BlankQuery) == ds
  {
    if |ds| > 0 {
      BlankMatchesAll(ds[..|ds| - 1]);
      NodeMatch(BlankQuery, ds[|ds| - 1]);
    }
  }

  /** The displays of `rows` that the query selects, in table order. */
  function Selected(t: NodeTables, rows: seq<Node>, q: NodeDisplay): (r: seq<NodeDisplay>)
    ensures |r| <= |rows|
  {
    Matching(AllDisplays(t, rows), q)
  }

  lemma SelectedStep(t: NodeTables, rows: seq<Node>, q: NodeDisplay, i: nat)
    requires i < |rows|
    ensures Selected(t, rows[..i + 1], q) == Selected(t, rows[..i], q) +
      if Accepts(NodeFields(q, DisplayOf(t, rows[i]))) then [DisplayOf(t, rows[i])] else []
  {
    AllDisplaysStep(t, rows, i);
    var ds := AllDisplays(t, rows[..i + 1]);
    assert ds[..|ds| - 1] == AllDisplays(t, rows[..i]);
  }

  /** A display is selected exactly when it is the display of some row and
      it passes the filter. */
  lemma SelectedMembers(t: NodeTables, rows: seq<Node>, q: NodeDisplay, d: NodeDisplay)
    ensures d in Selected(t, rows, q) <==>
      Accepts(NodeFields(q, d)) && exists n :: n in rows && d == DisplayOf(t, n)
  {
    MatchingMembers(AllDisplays(t, rows), q, d);
    AllDisplaysMembers(t, rows);
  }

  /** A query with every property at its default selects every node. */
  lemma BlankSelectsAll(t: NodeTables, rows: seq<Node>)
    ensures Selected(t, rows, BlankQuery) == AllDisplays(t, rows)
  {
    BlankMatchesAll(AllDisplays(t, rows));
  }

  /** `GetByBusiness` with a non-zero business identifier returns only
      nodes of that business. (With 0 the business imposes nothing.) */
  lemma ByBusinessOnly(t: NodeTables, rows: seq<Node>, q: NodeDisplay, busID: int)
    requires busID != 0
    ensures forall d :: d in Selected(t, rows, q.(businessID := busID)) ==>
      d.businessID == busID && exists n :: n in rows && n.businessID == busID && d == DisplayOf(t, n)
  {
    forall d | d in Selected(t, rows, q.(businessID := busID))
      ensures d.businessID == busID && exists n :: n in rows && n.businessID == busID && d == DisplayOf(t, n)
    {
      SelectedMembers(t, rows, q.(businessID := busID), d);
      NodeMatch(q.(businessID := busID), d);
      var n :| n in rows && d == DisplayOf(t, n);
      assert n.businessID == d.businessID;
    }
  }

  /** `GetNodesOnTeam`'s list: for each join, the display of its node if
      that node exists. */
  function TeamNodes(t: NodeTables, joins: seq<NodeTeamJoin>): (r: seq<NodeDisplay>)
    ensures |r| <= |joins|
  {
    if |joins| == 0 then [] else TeamNodes(t, joins[..|joins| - 1]) + JoinedNode(t, joins[|joins| - 1])
  }

  /** What `GetNodesOnTeam` adds to its list for one join. */
  function JoinedNode(t: NodeTables, j: NodeTeamJoin): seq<NodeDisplay>
  {
    match Common.Find(t.nodes, NodeKey, j.nodeID)
    case Some(i) => [DisplayOf(t, t.nodes[i])]
    case None => []
  }

  lemma TeamNodesStep(t: NodeTables, joins: seq<NodeTeamJoin>, i: nat)
    requires i < |joins|
    ensures TeamNodes(t, joins[..i + 1]) == TeamNodes(t, joins[..i]) + JoinedNode(t, joins[i])
  {
    assert joins[..i + 1][..i] == joins[..i];
  }

  /** With unique node identifiers, the list holds exactly the displays of
      the nodes some join names. */
  lemma {:induction false} TeamNodesExact(t: NodeTables, joins: seq<NodeTeamJoin>)
    requires UniqueKeys(t.nodes, NodeKey)
    ensures forall d :: d in TeamNodes(t, joins) <==>
      exists j, n :: j in joins && n in t.nodes && n.id == j.nodeID && d == DisplayOf(t, n)
  {
    if |joins| > 0 {
      var front := joins[..|joins| - 1];
      var last := joins[|joins| - 1];
      TeamNodesExact(t, front);
      FindUniqueAll(t.nodes, NodeKey, last.nodeID);
      assert forall j :: j in joins <==> j == last || j in front;
      forall n | n in t.nodes && n.id == last.nodeID
        ensures Common.Find(t.nodes, NodeKey, last.nodeID).Some? && DisplayOf(t, n) == DisplayOf(t, t.nodes[Common.Find(t.nodes, NodeKey, last.nodeID).value])
      {
        var i :| 0 <= i < |t.nodes| && t.nodes[i] == n;
      }
    }
  }

  /** With unique component identifiers, the only component with `c`'s
      identifier is `c`. */
  lemma DroppedIsGone(t: NodeTables, c: NodeComponent)
    requires UniqueKeys(t.components, ComponentKey) && c in t.components
    ensures forall x :: x in t.components && x.id == c.id ==> x == c
  {
    forall x | x in t.components && x.id == c.id ensures x == c {
      var a :| 0 <= a < |t.components| && t.components[a] == x;
      var b :| 0 <= b < |t.components| && t.components[b] == c;
      assert ComponentKey(t.components[a]) == ComponentKey(t.components[b]);
    }
  }

  /** What `Remove` needs of its plan: consistent tables stay consistent,
      and without a failing save the node, its components and its joins are
      gone. */
  lemma RemoveValid(t: NodeTables, saves: nat, id: int, failing: set<nat>)
    ensures NodeTablesValid(t) ==>
      var r := RemoveSpec(t, saves, id, failing);
      && NodeTablesValid(r.state)
      && (!r.failed ==>
            && (forall n :: n in r.state.nodes ==> n.id != id)
            && (forall c :: c in r.state.components ==> c.nodeID != id)
            && (forall j :: j in r.state.nodeTeams ==> j.nodeID != id))
  {
    if NodeTablesValid(t) {
      RemoveKeeps(t, saves, id, failing);
      RemoveCascade(t, saves, id, failing);
    }
  }

  /** What `Update` needs of its plan: consistent tables stay consistent,
      and without a failing save the node holds the edit and is visible to
      exactly the listed teams. */
  lemma UpdateOutcome(t: NodeTables, saves: nat, id: int, d: NodeDisplay, failing: set<nat>)
    requires d.components.Some? ==> AllWellTyped(d.components.value)
    ensures NodeTablesValid(t) ==>
      var r := UpdateSpec(t, saves, id, d, failing);
      && NodeTablesValid(r.state)
      && (!r.failed ==> forall n :: n in t.nodes && n.id == id ==> PatchNode(n, d) in r.state.nodes)
      && (!r.failed && d.teams.Some? ==> forall tm ::
            (exists j :: j in r.state.nodeTeams && j.nodeID == id && j.teamID == tm) <==> tm in d.teams.value)
      && |r.state.labels| == |t.labels| && |r.state.qrAnchors| == |t.qrAnchors| && |r.state.pdfs| == |t.pdfs|
      && (!r.failed ==>
            && (forall k :: 0 <= k < |t.labels| ==> r.state.labels[k] == LabelAfter(t.labels[k], ListedComponents(d)))
            && (forall k :: 0 <= k < |t.qrAnchors| ==> r.state.qrAnchors[k] == QRAnchorAfter(t.qrAnchors[k], ListedComponents(d)))
            && (forall k :: 0 <= k < |t.pdfs| ==> r.state.pdfs[k] == PdfAfter(t.pdfs[k], ListedComponents(d))))
  {
    if NodeTablesValid(t) {
      UpdateSpecFacts(t, saves, id, d, failing);
      UpdateTeams(t, saves, id, d, failing);
      UpdateSideRows(t, saves, id, d, failing);
    }
  }

  class NodesRepository {
    const db: Store

    constructor (db: Store)
      ensures this.db == db
    {
      this.db := db;
    }

    function NodeExists(id: int): (r: bool)
      reads db
      ensures r <==> exists n :: n in db.nodes && n.id == id
    {
      Common.Find(db.nodes, NodeKey, id).Some?
    }

    /** The first loop of `CreateDisplay`: the team of each of the node's joins. */
    method TeamsOf(nodeID: int) returns (teams: seq<int>)
      ensures teams == TeamIdsOf(Where(db.nodeTeams, JoinNode, nodeID))
    {
      var joins := Where(db.nodeTeams, JoinNode, nodeID);
      teams := [];
      var i := 0;
      while i < |joins|
        invariant 0 <= i <= |joins|
        invariant teams == TeamIdsOf(joins[..i])
      {
        teams := teams + [joins[i].teamID];
        i := i + 1;
      }
      assert joins[..i] == joins;
    }

    /** The second loop of `CreateDisplay`: the data of each of the node's
        components that has a side row. */
    method ComponentsOf(nodeID: int) returns (list: seq<ComponentData>)
      ensures list == ComponentDatas(db.NodeState(), Where(db.components, ComponentNode, nodeID))
    {
      var t := db.NodeState();
      var comps := Where(t.components, ComponentNode, nodeID);
      list := [];
      var i := 0;
      while i < |comps|
        invariant 0 <= i <= |comps|
        invariant list == ComponentDatas(t, comps[..i])
      {
        ComponentDatasStep(t, comps, i);
        var data := DataOf(comps[i]);
        if data.Some? {
          list := list + [data.value];
        }
        i := i + 1;
      }
      assert comps[..i] == comps;
    }

    /** The switch inside that loop: the side row of the table the type
        string selects, if there is one, as component data. */
    method DataOf(c: NodeComponent) returns (data: Option<ComponentData>)
      ensures data == ComponentDataOf(db.NodeState(), c)
    {
      data := None;
      match KindOf(c.componentType)
      case LabelKind => {
        var k := Common.Find(db.labels, LabelComponent, c.id);
        if k.Some? {
          var l := db.labels[k.value];
          data := Some(ComponentData(l.nodeComponentID, c.nodeID, c.componentType, LabelPayload(l.text, l.style, l.screenshot)));
        }
      }
      case QRAnchorKind => {
        var k := Common.Find(db.qrAnchors, QRAnchorComponent, c.id);
        if k.Some? {
          var a := db.qrAnchors[k.value];
          data := Some(ComponentData(a.nodeComponentID, c.nodeID, c.componentType, QRAnchorPayload(a.qrAnchorID)));
        }
      }
      case PdfKind => {
        var k := Common.Find(db.pdfs, PdfComponent, c.id);
        if k.Some? {
          var d := db.pdfs[k.value];
          data := Some(ComponentData(d.nodeComponentID, c.nodeID, c.componentType, PdfPayload(d.pdfLink, d.title, d.description)));
        }
      }
      case UnknownKind =>
    }

    /** `CreateDisplay`: the node with its teams and its components. */
    method CreateDisplay(node: Node) returns (disp: NodeDisplay)
      ensures disp == DisplayOf(db.NodeState(), node)
    {
      var teams := TeamsOf(node.id);
      var list := ComponentsOf(node.id);
      disp := ToDisplay(node).(teams := Some(teams), components := Some(list));
    }

    /** `Find`: the display of the node with that identifier, if any. */
    method Find(id: int) returns (r: Option<NodeDisplay>)
      ensures r.None? <==> forall n :: n in db.nodes ==> n.id != id
      ensures r.Some? ==> exists n :: n in db.nodes && n.id == id && r.value == DisplayOf(db.NodeState(), n)
    {
      match Common.Find(db.nodes, NodeKey, id)
      case None =>
        r := None;
      case Some(i) =>
        var disp := CreateDisplay(db.nodes[i]);
        assert db.nodes[i] in db.nodes;
        r := Some(disp);
    }

    /** `GetSelect`: no query, no result; otherwise the selected displays. */
    method GetSelect(item: Option<NodeDisplay>) returns (list: seq<NodeDisplay>)
      ensures item.None? ==> list == []
      ensures item.Some? ==> list == Selected(db.NodeState(), db.nodes, item.value)
    {
      list := [];
      if item.Some? {
        list := SelectFrom(db.nodes, item.value);
      }
    }

    /** The filtering loop of `GetSelect` over the rows `rows`. */
    method SelectFrom(rows: seq<Node>, q: NodeDisplay) returns (list: seq<NodeDisplay>)
      ensures list == Selected(db.NodeState(), rows, q)
    {
      var t := db.NodeState();
      list := [];
      var i := 0;
      while i < |rows|
        invariant 0 <= i <= |rows|
        invariant list == Selected(t, rows[..i], q)
      {
        SelectedStep(t, rows, q, i);
        var disp, matched := Screen(rows[i], q);
        if matched {
          list := list + [disp];
        }
        i := i + 1;
      }
      assert rows[..i] == rows;
    }

    /** One row of that loop: its display, and whether the query accepts it. */
    method Screen(row: Node, q: NodeDisplay) returns (disp: NodeDisplay, matched: bool)
      ensures disp == DisplayOf(db.NodeState(), row)
      ensures matched == Accepts(NodeFields(q, disp))
    {
      disp := CreateDisplay(row);
      matched := MatchFields(NodeFields(q, disp));
    }

    /** `GetByBusiness`: the query with its business set to `id`. */
    method GetByBusiness(id: int, disp: NodeDisplay) returns (list: seq<NodeDisplay>)
      ensures list == Selected(db.NodeState(), db.nodes, disp.(businessID := id))
      ensures id != 0 ==> forall d :: d in list ==> d.businessID == id
    {
      list := GetSelect(Some(disp.(businessID := id)));
      if id != 0 {
        ByBusinessOnly(db.NodeState(), db.nodes, disp, id);
      }
    }

    /** `GetChildren`: a parent that does not exist is dereferenced (a null
        reference exception, so neither a list nor a status); a parent of
        another business gives no list and 400; otherwise the display of every
        node whose parent it is, and 200. */
    method GetChildren(busID: int, nodeID: int) returns (r: Fallible<(Option<seq<NodeDisplay>>, int)>)
      ensures r.Thrown? <==> forall n :: n in db.nodes ==> n.id != nodeID
      ensures r.Thrown? ==> r.exception == NullReference
      ensures r.Ok? ==>
        exists parent :: parent in db.nodes && parent.id == nodeID &&
          (if parent.businessID != busID then r.value == (None, BAD_REQUEST)
           else r.value == (Some(AllDisplays(db.NodeState(), Where(db.nodes, NodeParent, nodeID))), OK))
      ensures r.Ok? && r.value.0.Some? ==> forall d :: d in r.value.0.value <==>
        exists n :: n in db.nodes && n.parentID == nodeID && d == DisplayOf(db.NodeState(), n)
    {
      var t := db.NodeState();
      var found := Common.Find(t.nodes, NodeKey, nodeID);
      if found.None? {
        return Thrown(NullReference);
      }
      var parent := t.nodes[found.value];
      assert parent in t.nodes;
      if parent.businessID != busID {
        return Ok((None, BAD_REQUEST));
      }
      var rows := Where(t.nodes, NodeParent, parent.id);
      var list: seq<NodeDisplay> := [];
      var i := 0;
      while i < |rows|
        invariant 0 <= i <= |rows|
        invariant list == AllDisplays(t, rows[..i])
      {
        AllDisplaysStep(t, rows, i);
        var disp := CreateDisplay(rows[i]);
        list := list + [disp];
        i := i + 1;
      }
      assert rows[..i] == rows;
      AllDisplaysMembers(t, rows);
      r := Ok((Some(list), OK));
    }

    /** `GetNodesOnTeam`: the display of the node of each join of the team,
        skipping joins whose node is gone. */
    method GetNodesOnTeam(teamID: int) returns (list: seq<NodeDisplay>)
      ensures list == TeamNodes(db.NodeState(), Where(db.nodeTeams, JoinTeam, teamID))
    {
      var t := db.NodeState();
      var joins := Where(t.nodeTeams, JoinTeam, teamID);
      list := [];
      var i := 0;
      while i < |joins|
        invariant 0 <= i <= |joins|
        invariant list == TeamNodes(t, joins[..i])
      {
        TeamNodesStep(t, joins, i);
        var found := Common.Find(db.nodes, NodeKey, joins[i].nodeID);
        if found.Some? {
          var disp := CreateDisplay(db.nodes[found.value]);
          list := list + [disp];
        }
        i := i + 1;
      }
      assert joins[..i] == joins;
    }

    // ----- creating -----

    /** `CreateTeamJoin`: a join with the next join identifier; 200, or 507
        when the save fails. */
    method CreateTeamJoin(nodeID: int, teamID: int) returns (status: int)
      modifies db`nodeTeams, db`saves
      ensures status == OK || status == INSUFFICIENT_STORAGE
      ensures Progress(db.nodeTeams, db.saves, status != OK) ==
        JoinStep(Progress(old(db.nodeTeams), old(db.saves), false), nodeID, teamID, db.failing)
    {
      var join := NodeTeamJoin(NextId(db.nodeTeams, NodeTeamKey), nodeID, teamID);
      var ok := db.SaveChanges();
      if !ok {
        return INSUFFICIENT_STORAGE;
      }
      db.nodeTeams := db.nodeTeams + [join];
      status := OK;
    }

    /** The team loops of `Add` and `Update`: a join for every listed team
        not in `kept`, stopping at the first failing save. */
    method CreateTeamJoins(nodeID: int, teams: seq<int>, kept: seq<int>) returns (status: int)
      modifies db`nodeTeams, db`saves
      ensures status == OK || status == INSUFFICIENT_STORAGE
      ensures Progress(db.nodeTeams, db.saves, status != OK) ==
        AddJoins(Progress(old(db.nodeTeams), old(db.saves), false), nodeID, teams, kept, db.failing)
    {
      ghost var goal := AddJoins(Progress(db.nodeTeams, db.saves, false), nodeID, teams, kept, db.failing);
      var i := 0;
      while i < |teams|
        invariant 0 <= i <= |teams|
        invariant goal == AddJoins(Progress(db.nodeTeams, db.saves, false), nodeID, teams[i..], kept, db.failing)
      {
        assert teams[i..][0] == teams[i] && teams[i..][1..] == teams[i + 1..];
        if teams[i] !in kept {
          status := CreateTeamJoin(nodeID, teams[i]);
          if status != OK {
            return;
          }
        }
        i := i + 1;
      }
      status := OK;
    }

    /** `CreateComp`: a component row with the next component identifier;
        the new identifier and 200, or 0 and 507 when the save fails. */
    method CreateComp(nodeID: int, data: ComponentData) returns (id: int, status: int)
      modifies db`components, db`saves
      ensures status == OK || status == INSUFFICIENT_STORAGE
      ensures id == if status == OK then NextId(old(db.components), ComponentKey) else 0
      ensures Progress(db.NodeState(), db.saves, status != OK) ==
        CompStep(Start(old(db.NodeState()), old(db.saves)), nodeID, data, db.failing)
    {
      var comp := NodeComponent(NextId(db.components, ComponentKey), nodeID, data.componentType);
      var ok := db.SaveChanges();
      if !ok {
        return 0, INSUFFICIENT_STORAGE;
      }
      db.components := db.components + [comp];
      id, status := comp.id, OK;
    }

    /** `CreateCompType`: the side row the type string selects, carrying the
        component's content; an unrecognised type writes nothing and still
        gives 200. Nothing there was is changed. */
    method CreateCompType(compID: int, data: ComponentData) returns (status: int)
      requires WellTyped(data)
      modifies db`labels, db`qrAnchors, db`pdfs, db`saves
      ensures status == OK || status == INSUFFICIENT_STORAGE
      ensures Progress(db.NodeState(), db.saves, status != OK) ==
        SideRowStep(Start(old(db.NodeState()), old(db.saves)), compID, data, db.failing)
      ensures Appended(old(db.NodeState()), db.NodeState())
      ensures status == OK ==>
        && |db.labels| == |old(db.labels)| + (if KindOf(data.componentType) == LabelKind then 1 else 0)
        && |db.qrAnchors| == |old(db.qrAnchors)| + (if KindOf(data.componentType) == QRAnchorKind then 1 else 0)
        && |db.pdfs| == |old(db.pdfs)| + (if KindOf(data.componentType) == PdfKind then 1 else 0)
        && HoldsContent(db.NodeState(), compID, data)
    {
      ghost var t0, s0 := db.NodeState(), db.saves;
      status := CreateSideRow(compID, data);
      SideRowStepFacts(Start(t0, s0), compID, data, db.failing);
    }

    /** The type switch of `CreateCompType`. */
    method CreateSideRow(compID: int, data: ComponentData) returns (status: int)
      requires WellTyped(data)
      modifies db`labels, db`qrAnchors, db`pdfs, db`saves
      ensures status == OK || status == INSUFFICIENT_STORAGE
      ensures Progress(db.NodeState(), db.saves, status != OK) ==
        SideRowStep(Start(old(db.NodeState()), old(db.saves)), compID, data, db.failing)
    {
      match KindOf(data.componentType) {
      case LabelKind =>
        var l := Label(NextId(db.labels, LabelKey), compID, data.payload.description, data.payload.color, data.payload.screenshot);
        var ok := db.SaveChanges();
        if !ok {
          return INSUFFICIENT_STORAGE;
        }
        db.labels := db.labels + [l];
      case QRAnchorKind =>
        var a := QRAnchor(NextId(db.qrAnchors, QRAnchorKey), compID, data.payload.qrAnchorID);
        var ok := db.SaveChanges();
        if !ok {
          return INSUFFICIENT_STORAGE;
        }
        db.qrAnchors := db.qrAnchors + [a];
      case PdfKind =>
        var d := Pdf(NextId(db.pdfs, PdfKey), compID, data.payload.pdfLink, data.payload.title, data.payload.pdfDescription);
        var ok := db.SaveChanges();
        if !ok {
          return INSUFFICIENT_STORAGE;
        }
        db.pdfs := db.pdfs + [d];
      case UnknownKind =>
      }
      status := OK;
    }

    /** `AddComponent`: a component row for node `id`, then its side row.
        The node is not looked up. Consistent tables stay consistent, no row
        there was is changed, and unless a save failed the node has the new
        component with a side row carrying its content. */
    method AddComponent(id: int, data: ComponentData) returns (status: int)
      requires WellTyped(data)
      modifies db`components, db`labels, db`qrAnchors, db`pdfs, db`saves
      ensures status == OK || status == INSUFFICIENT_STORAGE
      ensures Progress(db.NodeState(), db.saves, status != OK) ==
        ComponentStep(Start(old(db.NodeState()), old(db.saves)), id, data, db.failing)
      ensures KindOf(data.componentType) == UnknownKind ==>
        db.labels == old(db.labels) && db.qrAnchors == old(db.qrAnchors) && db.pdfs == old(db.pdfs)
      ensures old(db.NodesValid()) ==> db.NodesValid()
      ensures old(db.NodesValid()) && status == OK ==>
        NodeComponent(NextId(old(db.components), ComponentKey), id, data.componentType) in db.components
      ensures Appended(old(db.NodeState()), db.NodeState())
      ensures status == OK ==>
        && |db.components| == |old(db.components)| + 1
        && HoldsContent(db.NodeState(), NextId(old(db.components), ComponentKey), data)
        && HasComponent(db.NodeState(), id, data)
    {
      ghost var t0, s0 := db.NodeState(), db.saves;
      status := SaveComponent(id, data);
      ComponentStepRows(Start(t0, s0), id, data, db.failing);
      if NodeTablesValid(t0) {
        ComponentStepValid(Start(t0, s0), id, data, db.failing);
      }
    }

    /** The two saves of `AddComponent`: the component row, then its side row. */
    method SaveComponent(id: int, data: ComponentData) returns (status: int)
      requires WellTyped(data)
      modifies db`components, db`labels, db`qrAnchors, db`pdfs, db`saves
      ensures status == OK || status == INSUFFICIENT_STORAGE
      ensures Progress(db.NodeState(), db.saves, status != OK) ==
        ComponentStep(Start(old(db.NodeState()), old(db.saves)), id, data, db.failing)
    {
      var compID;
      compID, status := CreateComp(id, data);
      if status == OK {
        status := CreateCompType(compID, data);
      }
    }

    /** The component loop of `Add`: `AddComponent` for each listed
        component, stopping at the first failing save. */
    method CreateComponents(id: int, comps: seq<ComponentData>) returns (status: int)
      requires AllWellTyped(comps)
      modifies db`components, db`labels, db`qrAnchors, db`pdfs, db`saves
      ensures status == OK || status == INSUFFICIENT_STORAGE
      ensures Progress(db.NodeState(), db.saves, status != OK) ==
        AddComps(Start(old(db.NodeState()), old(db.saves)), id, comps, db.failing)
    {
      ghost var goal := AddComps(Start(db.NodeState(), db.saves), id, comps, db.failing);
      var i := 0;
      while i < |comps|
        invariant 0 <= i <= |comps|
        invariant goal == AddComps(Start(db.NodeState(), db.saves), id, comps[i..], db.failing)
      {
        assert comps[i..][0] == comps[i] && comps[i..][1..] == comps[i + 1..];
        assert WellTyped(comps[i]);
        status := AddComponent(id, comps[i]);
        if status != OK {
          return;
        }
        i := i + 1;
      }
      status := OK;
    }

    /** `Add`: the node with the next node identifier, then a join for each
        listed team, then each listed component; 201 when every save
        commits, 507 at the first that fails (what was saved before stays).
        The identifier handed out is the largest one plus one, or 1. */
    method Add(item: NodeDisplay) returns (id: int, status: int)
      requires item.components.Some? ==> AllWellTyped(item.components.value)
      modifies db`nodes, db`components, db`labels, db`qrAnchors, db`pdfs, db`nodeTeams, db`saves
      ensures id == NextId(old(db.nodes), NodeKey)
      ensures status == CREATED || status == INSUFFICIENT_STORAGE
      ensures Progress(db.NodeState(), db.saves, status != CREATED) ==
        AddSpec(old(db.NodeState()), old(db.saves), item, db.failing)
      ensures old(db.NodesValid()) ==> db.NodesValid()
      ensures old(db.NodesValid()) && status == CREATED ==>
        && FromDisplay(item).(id := id) in db.nodes
        && (item.teams.Some? ==> forall tm :: tm in item.teams.value ==>
              exists j :: j in db.nodeTeams && j.nodeID == id && j.teamID == tm)
      ensures old(db.NodesValid()) ==>
        AddedRows(old(db.NodeState()), Progress(db.NodeState(), db.saves, status != CREATED), id, ListedComponents(item))
    {
      ghost var t0, s0 := db.NodeState(), db.saves;
      id, status := AddRows(item);
      if NodeTablesValid(t0) {
        AddSpecFacts(t0, s0, item, db.failing);
      }
    }

    /** The saves of `Add`, step by step against `AddSpec`. */
    method AddRows(item: NodeDisplay) returns (id: int, status: int)
      requires item.components.Some? ==> AllWellTyped(item.components.value)
      modifies db`nodes, db`components, db`labels, db`qrAnchors, db`pdfs, db`nodeTeams, db`saves
      ensures id == NextId(old(db.nodes), NodeKey)
      ensures status == CREATED || status == INSUFFICIENT_STORAGE
      ensures Progress(db.NodeState(), db.saves, status != CREATED) ==
        AddSpec(old(db.NodeState()), old(db.saves), item, db.failing)
    {
      ghost var t0, s0 := db.NodeState(), db.saves;
      var node := FromDisplay(item).(id := NextId(db.nodes, NodeKey));
      id := node.id;
      ghost var p0 := Save(Start(t0, s0), t0.(nodes := t0.nodes + [node]), db.failing);
      var ok := db.SaveChanges();
      if !ok {
        return id, INSUFFICIENT_STORAGE;
      }
      db.nodes := db.nodes + [node];
      assert p0 == Start(db.NodeState(), db.saves);
      if item.teams.Some? {
        status := CreateTeamJoins(id, item.teams.value, []);
        assert Progress(db.NodeState(), db.saves, status != OK) == WithJoins(p0, AddJoins(Joins(p0), id, item.teams.value, [], db.failing));
        if status != OK {
          return;
        }
      }
      if item.components.Some? {
        status := CreateComponents(id, item.components.value);
        if status != OK {
          return;
        }
      }
      status := CREATED;
    }

    // ----- updating -----

    /** The team part of `Update`: each of the node's joins whose team is
        not listed is deleted with its own save, then a join is created for
        each listed team no remaining join of the node had. */
    method ReconcileTeams(id: int, teams: seq<int>) returns (status: int)
      modifies db`nodeTeams, db`saves
      ensures status == OK || status == INSUFFICIENT_STORAGE
      ensures Progress(db.nodeTeams, db.saves, status != OK) ==
        Reconcile(Progress(old(db.nodeTeams), old(db.saves), false), id, teams, db.failing)
    {
      var mine := Where(db.nodeTeams, JoinNode, id);
      PruneLists(mine, teams);
      var kept;
      kept, status := PruneJoins(mine, teams);
      if status == OK {
        status := CreateTeamJoins(id, teams, kept);
      }
    }

    /** One join deleted and saved (EF's `Remove` then `SaveChanges`). */
    method DeleteJoin(joinID: int) returns (status: int)
      modifies db`nodeTeams, db`saves
      ensures status == OK || status == INSUFFICIENT_STORAGE
      ensures Progress(db.nodeTeams, db.saves, status != OK) ==
        Save(Progress(old(db.nodeTeams), old(db.saves), false), DeleteKey(old(db.nodeTeams), NodeTeamKey, joinID), db.failing)
    {
      var ok := db.SaveChanges();
      if !ok {
        return INSUFFICIENT_STORAGE;
      }
      db.nodeTeams := DeleteKey(db.nodeTeams, NodeTeamKey, joinID);
      status := OK;
    }

    /** The first team loop of `Update`: the joins of `mine` whose team is
        not listed are deleted, one save each; the teams of the others are
        collected. */
    method PruneJoins(mine: seq<NodeTeamJoin>, teams: seq<int>) returns (kept: seq<int>, status: int)
      modifies db`nodeTeams, db`saves
      ensures status == OK || status == INSUFFICIENT_STORAGE
      ensures Progress(db.nodeTeams, db.saves, status != OK) ==
        DeleteEach(Progress(old(db.nodeTeams), old(db.saves), false), NodeTeamKey, Unlisted(mine, teams), db.failing)
      ensures status == OK ==> kept == ListedTeams(mine, teams)
    {
      ghost var goal := DeleteEach(Progress(db.nodeTeams, db.saves, false), NodeTeamKey, Unlisted(mine, teams), db.failing);
      kept := [];
      var i := 0;
      assert mine[i..] == mine;
      while i < |mine|
        invariant 0 <= i <= |mine|
        invariant goal == DeleteEach(Progress(db.nodeTeams, db.saves, false), NodeTeamKey, Unlisted(mine[i..], teams), db.failing)
        invariant ListedTeams(mine, teams) == kept + ListedTeams(mine[i..], teams)
      {
        var join := mine[i];
        PruneStep(Progress(db.nodeTeams, db.saves, false), mine, teams, i, db.failing);
        ListedStep(mine, teams, i, kept);
        if join.teamID !in teams {
          status := DeleteJoin(join.id);
          if status != OK {
            return;
          }
        } else {
          kept := kept + [join.teamID];
        }
        i := i + 1;
      }
      status := OK;
    }

    /** One listed component of `Update`: the side row of a non-zero
        component identifier, if its type is recognised and the row exists,
        gets the present fields written over and is saved. */
    method PatchComponent(comp: ComponentData) returns (status: int)
      requires WellTyped(comp)
      modifies db`labels, db`qrAnchors, db`pdfs, db`saves
      ensures status == OK || status == INSUFFICIENT_STORAGE
      ensures Progress(db.NodeState(), db.saves, status != OK) ==
        PatchStep(Start(old(db.NodeState()), old(db.saves)), comp, db.failing)
    {
      status := OK;
      var key := comp.nodeComponentID;
      if key == 0 {
        return;
      }
      match KindOf(comp.componentType) {
      case LabelKind =>
        status := PatchLabelRow(key, comp.payload);
      case QRAnchorKind =>
        status := PatchQRAnchorRow(key, comp.payload);
      case PdfKind =>
        status := PatchPdfRow(key, comp.payload);
      case UnknownKind =>
      }
    }

    /** The label branch of that switch. */
    method PatchLabelRow(key: int, c: Payload) returns (status: int)
      requires c.LabelPayload?
      modifies db`labels, db`saves
      ensures status == OK || status == INSUFFICIENT_STORAGE
      ensures Progress(db.NodeState(), db.saves, status != OK) ==
        PatchLabelStep(Start(old(db.NodeState()), old(db.saves)), key, c, db.failing)
    {
      status := OK;
      var found := Common.Find(db.labels, LabelComponent, key);
      if found.Some? {
        var ok := db.SaveChanges();
        if !ok {
          return INSUFFICIENT_STORAGE;
        }
        db.labels := db.labels[found.value := PatchLabel(db.labels[found.value], c)];
      }
    }

    /** The QR anchor branch of that switch. */
    method PatchQRAnchorRow(key: int, c: Payload) returns (status: int)
      requires c.QRAnchorPayload?
      modifies db`qrAnchors, db`saves
      ensures status == OK || status == INSUFFICIENT_STORAGE
      ensures Progress(db.NodeState(), db.saves, status != OK) ==
        PatchQRAnchorStep(Start(old(db.NodeState()), old(db.saves)), key, c, db.failing)
    {
      status := OK;
      var found := Common.Find(db.qrAnchors, QRAnchorComponent, key);
      if found.Some? {
        var ok := db.SaveChanges();
        if !ok {
          return INSUFFICIENT_STORAGE;
        }
        db.qrAnchors := db.qrAnchors[found.value := PatchQRAnchor(db.qrAnchors[found.value], c)];
      }
    }

    /** The PDF branch of that switch. */
    method PatchPdfRow(key: int, c: Payload) returns (status: int)
      requires c.PdfPayload?
      modifies db`pdfs, db`saves
      ensures status == OK || status == INSUFFICIENT_STORAGE
      ensures Progress(db.NodeState(), db.saves, status != OK) ==
        PatchPdfStep(Start(old(db.NodeState()), old(db.saves)), key, c, db.failing)
    {
      status := OK;
      var found := Common.Find(db.pdfs, PdfComponent, key);
      if found.Some? {
        var ok := db.SaveChanges();
        if !ok {
          return INSUFFICIENT_STORAGE;
        }
        db.pdfs := db.pdfs[found.value := PatchPdf(db.pdfs[found.value], c)];
      }
    }

    /** The node part of `Update`: the node row, if it exists, with every
        present field of the display written over, then saved. */
    method UpdateNode(id: int, newNode: NodeDisplay) returns (status: int)
      modifies db`nodes, db`saves
      ensures status == OK || status == INSUFFICIENT_STORAGE
      ensures Progress(db.NodeState(), db.saves, status != OK) ==
        NodeStep(Start(old(db.NodeState()), old(db.saves)), id, newNode, db.failing)
    {
      status := OK;
      var found := Common.Find(db.nodes, NodeKey, id);
      if found.Some? {
        var ok := db.SaveChanges();
        if !ok {
          return INSUFFICIENT_STORAGE;
        }
        db.nodes := db.nodes[found.value := PatchNode(db.nodes[found.value], newNode)];
      }
    }

    /** The component loop of `Update`: `PatchComponent` for each listed
        component, stopping at the first failing save. */
    method PatchComponents(comps: seq<ComponentData>) returns (status: int)
      requires AllWellTyped(comps)
      modifies db`labels, db`qrAnchors, db`pdfs, db`saves
      ensures status == OK || status == INSUFFICIENT_STORAGE
      ensures Progress(db.NodeState(), db.saves, status != OK) ==
        PatchComps(Start(old(db.NodeState()), old(db.saves)), comps, db.failing)
    {
      ghost var goal := PatchComps(Start(db.NodeState(), db.saves), comps, db.failing);
      var i := 0;
      while i < |comps|
        invariant 0 <= i <= |comps|
        invariant goal == PatchComps(Start(db.NodeState(), db.saves), comps[i..], db.failing)
      {
        assert comps[i..][0] == comps[i] && comps[i..][1..] == comps[i + 1..];
        assert WellTyped(comps[i]);
        status := PatchComponent(comps[i]);
        if status != OK {
          return;
        }
        i := i + 1;
      }
      status := OK;
    }

    /** `Update`: the node row, then (with a team list) the node's joins
        made to match it, then the side rows of the listed components; 200
        when every save commits, 507 at the first that fails. Consistent
        tables stay consistent, and without a failing save the node holds
        the edit and is visible to exactly the listed teams. */
    method Update(id: int, newNode: NodeDisplay) returns (status: int)
      requires newNode.components.Some? ==> AllWellTyped(newNode.components.value)
      modifies db`nodes, db`labels, db`qrAnchors, db`pdfs, db`nodeTeams, db`saves
      ensures status == OK || status == INSUFFICIENT_STORAGE
      ensures Progress(db.NodeState(), db.saves, status != OK) ==
        UpdateSpec(old(db.NodeState()), old(db.saves), id, newNode, db.failing)
      ensures old(db.NodesValid()) ==> db.NodesValid()
      ensures old(db.NodesValid()) && status == OK ==>
        && (forall n :: n in old(db.nodes) && n.id == id ==> PatchNode(n, newNode) in db.nodes)
        && (newNode.teams.Some? ==> forall tm ::
              (exists j :: j in db.nodeTeams && j.nodeID == id && j.teamID == tm) <==> tm in newNode.teams.value)
        && |db.labels| == |old(db.labels)| && |db.qrAnchors| == |old(db.qrAnchors)| && |db.pdfs| == |old(db.pdfs)|
        && (forall k :: 0 <= k < |db.labels| ==> db.labels[k] == LabelAfter(old(db.labels)[k], ListedComponents(newNode)))
        && (forall k :: 0 <= k < |db.qrAnchors| ==> db.qrAnchors[k] == QRAnchorAfter(old(db.qrAnchors)[k], ListedComponents(newNode)))
        && (forall k :: 0 <= k < |db.pdfs| ==> db.pdfs[k] == PdfAfter(old(db.pdfs)[k], ListedComponents(newNode)))
    {
      ghost var t0, s0 := db.NodeState(), db.saves;
      status := UpdateInOrder(id, newNode);
      UpdateOutcome(t0, s0, id, newNode, db.failing);
    }

    /** The three stages of `Update`, each returning 507 at a failing save. */
    method UpdateInOrder(id: int, newNode: NodeDisplay) returns (status: int)
      requires newNode.components.Some? ==> AllWellTyped(newNode.components.value)
      modifies db`nodes, db`labels, db`qrAnchors, db`pdfs, db`nodeTeams, db`saves
      ensures status == OK || status == INSUFFICIENT_STORAGE
      ensures Progress(db.NodeState(), db.saves, status != OK) ==
        UpdateSpec(old(db.NodeState()), old(db.saves), id, newNode, db.failing)
    {
      ghost var t0, s0 := db.NodeState(), db.saves;
      status := UpdateNode(id, newNode);
      if status != OK {
        return;
      }
      ghost var p1 := NodeStep(Start(t0, s0), id, newNode, db.failing);
      if newNode.teams.Some? {
        status := ReconcileTeams(id, newNode.teams.value);
        if status != OK {
          return;
        }
      }
      assert Start(db.NodeState(), db.saves) == TeamsStep(p1, id, newNode.teams, db.failing);
      if newNode.components.Some? {
        status := PatchComponents(newNode.components.value);
      }
    }

    // ----- dropping -----

    /** The first half of `DropComponentType`: the component's side row, if
        its type selects a side table holding one, deleted and saved. */
    method DropSideRow(comp: NodeComponent) returns (status: int)
      modifies db`labels, db`qrAnchors, db`pdfs, db`saves
      ensures status == OK || status == INSUFFICIENT_STORAGE
      ensures Progress(db.NodeState(), db.saves, status != OK) ==
        DropSide(Start(old(db.NodeState()), old(db.saves)), comp, db.failing)
    {
      status := OK;
      match KindOf(comp.componentType) {
      case LabelKind =>
        status := DropLabelRow(comp.id);
      case QRAnchorKind =>
        status := DropQRAnchorRow(comp.id);
      case PdfKind =>
        status := DropPdfRow(comp.id);
      case UnknownKind =>
      }
    }

    /** The label branch of that switch. */
    method DropLabelRow(compID: int) returns (status: int)
      modifies db`labels, db`saves
      ensures status == OK || status == INSUFFICIENT_STORAGE
      ensures Progress(db.NodeState(), db.saves, status != OK) ==
        DropLabelStep(Start(old(db.NodeState()), old(db.saves)), compID, db.failing)
    {
      status := OK;
      var found := Common.Find(db.labels, LabelComponent, compID);
      if found.Some? {
        var ok := db.SaveChanges();
        if !ok {
          return INSUFFICIENT_STORAGE;
        }
        db.labels := RemoveAt(db.labels, found.value);
      }
    }

    /** The QR anchor branch of that switch. */
    method DropQRAnchorRow(compID: int) returns (status: int)
      modifies db`qrAnchors, db`saves
      ensures status == OK || status == INSUFFICIENT_STORAGE
      ensures Progress(db.NodeState(), db.saves, status != OK) ==
        DropQRAnchorStep(Start(old(db.NodeState()), old(db.saves)), compID, db.failing)
    {
      status := OK;
      var found := Common.Find(db.qrAnchors, QRAnchorComponent, compID);
      if found.Some? {
        var ok := db.SaveChanges();
        if !ok {
          return INSUFFICIENT_STORAGE;
        }
        db.qrAnchors := RemoveAt(db.qrAnchors, found.value);
      }
    }

    /** The PDF branch of that switch. */
    method DropPdfRow(compID: int) returns (status: int)
      modifies db`pdfs, db`saves
      ensures status == OK || status == INSUFFICIENT_STORAGE
      ensures Progress(db.NodeState(), db.saves, status != OK) ==
        DropPdfStep(Start(old(db.NodeState()), old(db.saves)), compID, db.failing)
    {
      status := OK;
      var found := Common.Find(db.pdfs, PdfComponent, compID);
      if found.Some? {
        var ok := db.SaveChanges();
        if !ok {
          return INSUFFICIENT_STORAGE;
        }
        db.pdfs := RemoveAt(db.pdfs, found.value);
      }
    }

    /** `DropComponentType`: the side row, then the component row, each
        with its own save; 200, or 507 at the first failing save. */
    method DropComponentType(comp: NodeComponent) returns (status: int)
      modifies db`components, db`labels, db`qrAnchors, db`pdfs, db`saves
      ensures status == OK || status == INSUFFICIENT_STORAGE
      ensures Progress(db.NodeState(), db.saves, status != OK) ==
        DropStep(Start(old(db.NodeState()), old(db.saves)), comp, db.failing)
    {
      status := DropSideRow(comp);
      if status != OK {
        return;
      }
      var ok := db.SaveChanges();
      if !ok {
        return INSUFFICIENT_STORAGE;
      }
      db.components := DeleteKey(db.components, ComponentKey, comp.id);
    }

    /** `DropComponent`: a component that is not node `nodeID`'s gives 400
        and changes nothing; otherwise it is dropped, side row first, and
        the answer is true and 200, or false and 507 when a save fails. */
    method DropComponent(nodeID: int, compID: int) returns (dropped: bool, status: int)
      modifies db`components, db`labels, db`qrAnchors, db`pdfs, db`saves
      ensures dropped <==> status == OK
      ensures var found := Common.Find(old(db.components), ComponentOfNode, (compID, nodeID));
        if found.None? then
          status == BAD_REQUEST && db.NodeState() == old(db.NodeState()) && db.saves == old(db.saves)
        else
          && (status == OK || status == INSUFFICIENT_STORAGE)
          && Progress(db.NodeState(), db.saves, status != OK) ==
               DropStep(Start(old(db.NodeState()), old(db.saves)), old(db.components)[found.value], db.failing)
      ensures old(db.NodesValid()) ==> db.NodesValid()
      ensures old(db.NodesValid()) && dropped ==>
        && (forall c :: c in db.components ==> c.id != compID)
        && (forall l :: l in db.labels ==> l.nodeComponentID != compID)
        && (forall a :: a in db.qrAnchors ==> a.nodeComponentID != compID)
        && (forall d :: d in db.pdfs ==> d.nodeComponentID != compID)
    {
      ghost var t0, s0 := db.NodeState(), db.saves;
      var found := Common.Find(db.components, ComponentOfNode, (compID, nodeID));
      if found.None? {
        return false, BAD_REQUEST;
      }
      var comp := db.components[found.value];
      if NodeTablesValid(t0) {
        DropStepFacts(Start(t0, s0), comp, db.failing);
        DroppedIsGone(t0, comp);
      }
      status := DropComponentType(comp);
      dropped := status == OK;
    }

    /** The component loop of `Remove`: `DropComponentType` for each listed
        component, stopping at the first failing save. */
    method DropComponents(comps: seq<NodeComponent>) returns (status: int)
      modifies db`components, db`labels, db`qrAnchors, db`pdfs, db`saves
      ensures status == OK || status == INSUFFICIENT_STORAGE
      ensures Progress(db.NodeState(), db.saves, status != OK) ==
        DropAll(Start(old(db.NodeState()), old(db.saves)), comps, db.failing)
    {
      ghost var goal := DropAll(Start(db.NodeState(), db.saves), comps, db.failing);
      var i := 0;
      while i < |comps|
        invariant 0 <= i <= |comps|
        invariant goal == DropAll(Start(db.NodeState(), db.saves), comps[i..], db.failing)
      {
        assert comps[i..][0] == comps[i] && comps[i..][1..] == comps[i + 1..];
        status := DropComponentType(comps[i]);
        if status != OK {
          return;
        }
        i := i + 1;
      }
      status := OK;
    }

    /** `Remove`: a node that does not exist gives 400 and changes nothing;
        otherwise each of its components is dropped (side row first), then
        all its team joins with one save, then the node with another; true
        and 200, or false and 507 at the first failing save. */
    method Remove(id: int) returns (removed: bool, status: int)
      modifies db`nodes, db`components, db`labels, db`qrAnchors, db`pdfs, db`nodeTeams, db`saves
      ensures removed <==> status == OK
      ensures (forall n :: n in old(db.nodes) ==> n.id != id) ==>
        status == BAD_REQUEST && db.NodeState() == old(db.NodeState()) && db.saves == old(db.saves)
      ensures (exists n :: n in old(db.nodes) && n.id == id) ==>
        && (status == OK || status == INSUFFICIENT_STORAGE)
        && Progress(db.NodeState(), db.saves, status != OK) == RemoveSpec(old(db.NodeState()), old(db.saves), id, db.failing)
      ensures old(db.NodesValid()) ==> db.NodesValid()
      ensures old(db.NodesValid()) && removed ==>
        && (forall n :: n in db.nodes ==> n.id != id)
        && (forall c :: c in db.components ==> c.nodeID != id)
        && (forall j :: j in db.nodeTeams ==> j.nodeID != id)
    {
      ghost var t0, s0 := db.NodeState(), db.saves;
      var found := Common.Find(db.nodes, NodeKey, id);
      if found.None? {
        return false, BAD_REQUEST;
      }
      assert db.nodes[found.value] in db.nodes;
      RemoveValid(t0, s0, id, db.failing);
      status := DropComponents(Where(db.components, ComponentNode, id));
      if status == OK {
        status := RemoveJoinsAndNode(id);
      }
      removed := status == OK;
    }

    /** The end of `Remove`: every join of the node with one save, then the
        node row with another. */
    method RemoveJoinsAndNode(id: int) returns (status: int)
      modifies db`nodes, db`nodeTeams, db`saves
      ensures status == OK || status == INSUFFICIENT_STORAGE
      ensures Progress(db.NodeState(), db.saves, status != OK) ==
        RemoveTail(Start(old(db.NodeState()), old(db.saves)), id, db.failing)
    {
      var ok := db.SaveChanges();
      if !ok {
        return INSUFFICIENT_STORAGE;
      }
      db.nodeTeams := Without(db.nodeTeams, JoinNode, id);
      ok := db.SaveChanges();
      if !ok {
        return INSUFFICIENT_STORAGE;
      }
      db.nodes := DeleteKey(db.nodes, NodeKey, id);
      status := OK;
    }
  }
}
