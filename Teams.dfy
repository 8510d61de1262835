/** TeamsRepository: team lookups and displays with their members, team
    create/rename/delete, and a member's team role. */
module Teams {
  import opened Common
  import opened Models
  import opened Tables
  import opened Users

  /** Deleting the join rows of team `teamID` one save at a time, starting
      from `rows` after `saves` earlier saves. */
  function DropTeamJoins(rows: seq<UserTeamJoin>, saves: nat, teamID: int, failing: set<nat>): Progress<seq<UserTeamJoin>>
  {
    DeleteEach(Progress(rows, saves, false), UserTeamKey, Where(rows, UserTeamTeam, teamID), failing)
  }

  /** Deleting a team's joins removes exactly the joins of that team once
      every save succeeds, and never removes anything else or breaks the
      uniqueness of join identifiers. */
  lemma TeamJoinsCascade(rows: seq<UserTeamJoin>, saves: nat, teamID: int, failing: set<nat>)
    requires UniqueKeys(rows, UserTeamKey)
    ensures var p := DropTeamJoins(rows, saves, teamID, failing);
      && UniqueKeys(p.state, UserTeamKey)
      && (forall j :: j in p.state ==> j in rows)
      && (forall j :: j in rows && j.teamID != teamID ==> j in p.state)
      && (!p.failed ==> forall j :: j in p.state <==> j in rows && j.teamID != teamID)
  {
    WhereKeepsUnique(rows, UserTeamTeam, teamID, UserTeamKey);
    DeleteEachRemoves(Progress(rows, saves, false), UserTeamKey, Where(rows, UserTeamTeam, teamID), failing);
  }

  class TeamsRepository {
    const db: Store

    constructor (db: Store)
      ensures this.db == db
    {
      this.db := db;
    }

    function TeamExists(busID: int, teamID: int): (r: bool)
      reads db
      ensures r <==> exists t :: t in db.teams && t.teamID == teamID && t.businessID == busID
    {
      Common.Find(db.teams, TeamPair, (teamID, busID)).Some?
    }

    /** The team with that identifier exists and belongs to the business;
        both failures answer 400. */
    function IsTeamOnBusiness(busID: int, teamID: int): (c: Check)
      reads db
      requires UniqueKeys(db.teams, TeamKey)
      ensures c.allowed <==> exists t :: t in db.teams && t.teamID == teamID && t.businessID == busID
      ensures c.status == if c.allowed then OK else BAD_REQUEST
    {
      FindUniqueAll(db.teams, TeamKey, teamID);
      match Common.Find(db.teams, TeamKey, teamID)
      case None => Check(false, BAD_REQUEST)
      case Some(i) =>
        if db.teams[i].businessID != busID then Check(false, BAD_REQUEST) else Check(true, OK)
    }

    /** The user belongs to the business and to the team. */
    function UserIsMember(busID: int, teamID: int, userID: int): (r: bool)
      reads db
      ensures r <==>
        && (exists j :: j in db.businessUsers && j.businessID == busID && j.userID == userID)
        && (exists t :: t in db.userTeams && t.userID == userID && t.teamID == teamID)
    {
      db.MembershipOf(userID, busID).Some? && db.TeamJoinOf(userID, teamID).Some?
    }

    /** The member displays for the join rows `joins` of a team; a join whose
        user row is gone is skipped, and a user without the business
        membership throws. */
    function MemberDisplays(joins: seq<UserTeamJoin>, busID: int, teamID: int): (r: Fallible<seq<UserDisplay>>)
      reads db
      ensures r.Thrown? ==> r.exception == NullReference
      ensures r.Ok? ==> |r.value| <= |joins|
    {
      if |joins| == 0 then Ok([])
      else
        var last := joins[|joins| - 1];
        match MemberDisplays(joins[..|joins| - 1], busID, teamID)
        case Thrown(e) => Thrown(e)
        case Ok(list) =>
          match db.UserById(last.userID)
          case None => Ok(list)
          case Some(u) =>
            match TeamMemberDisplay(db, busID, teamID, u)
            case Thrown(e) => Thrown(e)
            case Ok(d) => Ok(list + [d])
    }

    /** The join row's user exists but cannot be displayed. */
    predicate Broken(j: UserTeamJoin, busID: int, teamID: int)
      reads db
    {
      db.UserById(j.userID).Some? && TeamMemberDisplay(db, busID, teamID, db.UserById(j.userID).value).Thrown?
    }

    /** The member list throws exactly when one of the joins is broken. */
    lemma {:induction false} MemberDisplaysThrow(joins: seq<UserTeamJoin>, busID: int, teamID: int)
      ensures MemberDisplays(joins, busID, teamID).Thrown? <==> exists j :: j in joins && Broken(j, busID, teamID)
    {
      if |joins| > 0 {
        var front := joins[..|joins| - 1];
        var last := joins[|joins| - 1];
        MemberDisplaysThrow(front, busID, teamID);
        assert forall j :: j in joins <==> j in front || j == last;
        if Broken(last, busID, teamID) {
          assert MemberDisplays(front, busID, teamID).Thrown? || MemberDisplays(joins, busID, teamID).Thrown?;
        }
      }
    }

    /** When nothing throws, the list holds exactly the displays of the
        joins whose user exists. */
    lemma {:induction false} MemberDisplaysExact(joins: seq<UserTeamJoin>, busID: int, teamID: int, d: UserDisplay)
      requires MemberDisplays(joins, busID, teamID).Ok?
      ensures d in MemberDisplays(joins, busID, teamID).value <==>
        exists j :: j in joins && db.UserById(j.userID).Some? &&
                    TeamMemberDisplay(db, busID, teamID, db.UserById(j.userID).value) == Ok(d)
    {
      if |joins| > 0 {
        var front := joins[..|joins| - 1];
        MemberDisplaysExact(front, busID, teamID, d);
        assert forall j :: j in joins <==> j in front || j == joins[|joins| - 1];
      }
    }

    /** One more join row extends the member list by that row's display. */
    lemma MemberDisplaysStep(joins: seq<UserTeamJoin>, i: int, busID: int, teamID: int, users: seq<UserDisplay>)
      requires 0 <= i < |joins|
      requires MemberDisplays(joins[..i], busID, teamID) == Ok(users)
      ensures db.UserById(joins[i].userID).None? ==> MemberDisplays(joins[..i + 1], busID, teamID) == Ok(users)
      ensures db.UserById(joins[i].userID).Some? ==>
        var disp := TeamMemberDisplay(db, busID, teamID, db.UserById(joins[i].userID).value);
        disp.Ok? ==> MemberDisplays(joins[..i + 1], busID, teamID) == Ok(users + [disp.value])
    {
      assert joins[..i + 1][..i] == joins[..i];
    }

    /** A broken join row makes the whole member list throw. */
    lemma MemberDisplaysBroken(joins: seq<UserTeamJoin>, i: int, busID: int, teamID: int)
      requires 0 <= i < |joins|
      requires Broken(joins[i], busID, teamID)
      ensures MemberDisplays(joins, busID, teamID) == Thrown(NullReference)
    {
      assert joins[i] in joins;
      MemberDisplaysThrow(joins, busID, teamID);
    }

    /** The display of a team with all its members. */
    function TeamDisplayOf(t: Team): (r: Fallible<TeamDisplay>)
      reads db
      ensures r.Thrown? ==> r.exception == NullReference
      ensures r.Ok? ==> r.value.(users := []) == TeamToDisplay(t, [])
    {
      match MemberDisplays(Where(db.userTeams, UserTeamTeam, t.teamID), t.businessID, t.teamID)
      case Thrown(e) => Thrown(e)
      case Ok(users) => Ok(TeamToDisplay(t, users))
    }

    /** `CreateDisplay`: walk the team's join rows, adding the display of
        every member whose user row exists. */
    method CreateDisplay(t: Team) returns (r: Fallible<TeamDisplay>)
      ensures r == TeamDisplayOf(t)
    {
      var joins := Where(db.userTeams, UserTeamTeam, t.teamID);
      var users := [];
      var i := 0;
      while i < |joins|
        invariant 0 <= i <= |joins|
        invariant MemberDisplays(joins[..i], t.businessID, t.teamID) == Ok(users)
      {
        MemberDisplaysStep(joins, i, t.businessID, t.teamID, users);
        var user := db.UserById(joins[i].userID);
        if user.Some? {
          var disp := TeamMemberDisplay(db, t.businessID, t.teamID, user.value);
          if disp.Thrown? {
            MemberDisplaysBroken(joins, i, t.businessID, t.teamID);
            return Thrown(disp.exception);
          }
          users := users + [disp.value];
        }
        i := i + 1;
      }
      assert joins[..i] == joins;
      r := Ok(TeamToDisplay(t, users));
    }

    /** The team is listed: every team when no member is given, otherwise
        the teams the member has a join row for. */
    predicate Listed(t: Team, member: Option<int>)
      reads db
    {
      member.None? || db.TeamJoinOf(member.value, t.teamID).Some?
    }

    /** The displays of the listed teams among `ts`, in order. */
    function TeamDisplays(ts: seq<Team>, member: Option<int>): (r: Fallible<seq<TeamDisplay>>)
      reads db
      ensures r.Thrown? ==> r.exception == NullReference
      ensures r.Ok? ==> |r.value| <= |ts|
    {
      if |ts| == 0 then Ok([])
      else
        var last := ts[|ts| - 1];
        match TeamDisplays(ts[..|ts| - 1], member)
        case Thrown(e) => Thrown(e)
        case Ok(list) =>
          if !Listed(last, member) then Ok(list)
          else
            match TeamDisplayOf(last)
            case Thrown(e) => Thrown(e)
            case Ok(d) => Ok(list + [d])
    }

    /** The team list throws exactly when a listed team's display throws. */
    lemma {:induction false} TeamDisplaysThrow(ts: seq<Team>, member: Option<int>)
      ensures TeamDisplays(ts, member).Thrown? <==>
        exists t :: t in ts && Listed(t, member) && TeamDisplayOf(t).Thrown?
    {
      if |ts| > 0 {
        var front := ts[..|ts| - 1];
        TeamDisplaysThrow(front, member);
        assert forall t :: t in ts <==> t in front || t == ts[|ts| - 1];
      }
    }

    /** When nothing throws, the list holds exactly the displays of the
        listed teams. */
    lemma {:induction false} TeamDisplaysExact(ts: seq<Team>, member: Option<int>, d: TeamDisplay)
      requires TeamDisplays(ts, member).Ok?
      ensures d in TeamDisplays(ts, member).value <==>
        exists t :: t in ts && Listed(t, member) && TeamDisplayOf(t) == Ok(d)
    {
      if |ts| > 0 {
        var front := ts[..|ts| - 1];
        TeamDisplaysExact(front, member, d);
        assert forall t :: t in ts <==> t in front || t == ts[|ts| - 1];
      }
    }

    /** One more team extends the list by its display when it is listed. */
    lemma TeamDisplaysStep(ts: seq<Team>, i: int, member: Option<int>, list: seq<TeamDisplay>)
      requires 0 <= i < |ts|
      requires TeamDisplays(ts[..i], member) == Ok(list)
      ensures !Listed(ts[i], member) ==> TeamDisplays(ts[..i + 1], member) == Ok(list)
      ensures Listed(ts[i], member) && TeamDisplayOf(ts[i]).Ok? ==>
        TeamDisplays(ts[..i + 1], member) == Ok(list + [TeamDisplayOf(ts[i]).value])
    {
      assert ts[..i + 1][..i] == ts[..i];
    }

    /** A listed team whose display throws makes the whole list throw. */
    lemma TeamDisplaysBroken(ts: seq<Team>, i: int, member: Option<int>)
      requires 0 <= i < |ts|
      requires Listed(ts[i], member) && TeamDisplayOf(ts[i]).Thrown?
      ensures TeamDisplays(ts, member) == Thrown(NullReference)
    {
      assert ts[i] in ts;
      TeamDisplaysThrow(ts, member);
    }

    /** The loop shared by `GetUserTeams` and `GetByBusiness`. */
    method DisplayAll(ts: seq<Team>, member: Option<int>) returns (r: Fallible<seq<TeamDisplay>>)
      ensures r == TeamDisplays(ts, member)
    {
      var list := [];
      var i := 0;
      while i < |ts|
        invariant 0 <= i <= |ts|
        invariant TeamDisplays(ts[..i], member) == Ok(list)
      {
        TeamDisplaysStep(ts, i, member, list);
        if member.None? || db.TeamJoinOf(member.value, ts[i].teamID).Some? {
          var disp := CreateDisplay(ts[i]);
          if disp.Thrown? {
            TeamDisplaysBroken(ts, i, member);
            return Thrown(disp.exception);
          }
          list := list + [disp.value];
        }
        i := i + 1;
      }
      assert ts[..i] == ts;
      r := Ok(list);
    }

    /** `GetUserTeams`: the business's teams that the user has joined. */
    method GetUserTeams(busID: int, userID: int) returns (r: Fallible<seq<TeamDisplay>>)
      ensures r == TeamDisplays(Where(db.teams, TeamBusiness, busID), Some(userID))
    {
      r := DisplayAll(Where(db.teams, TeamBusiness, busID), Some(userID));
    }

    /** `GetByBusiness`: all of the business's teams. */
    method GetByBusiness(id: int) returns (r: Fallible<seq<TeamDisplay>>)
      ensures r == TeamDisplays(Where(db.teams, TeamBusiness, id), None)
    {
      r := DisplayAll(Where(db.teams, TeamBusiness, id), None);
    }

    /** `AddByBusiness`: a team of the business created by `userID`, with
        the next team identifier. */
    method AddByBusiness(busID: int, userID: int, item: TeamDisplay) returns (added: bool, status: int)
      requires db.Valid()
      modifies db`teams, db`saves
      ensures db.Valid()
      ensures added <==> status == CREATED
      ensures db.saves == old(db.saves) + 1
      ensures db.saves in db.failing ==> status == INSUFFICIENT_STORAGE && db.teams == old(db.teams)
      ensures db.saves !in db.failing ==>
        status == CREATED &&
        db.teams == old(db.teams) + [Team(NextId(old(db.teams), TeamKey), busID, userID, item.teamName)]
    {
      var team := Team(NextId(db.teams, TeamKey), busID, userID, item.teamName);
      var ok := db.SaveChanges();
      if !ok {
        return false, INSUFFICIENT_STORAGE;
      }
      AppendKeepsUnique(db.teams, TeamKey, team);
      db.teams := db.teams + [team];
      return true, CREATED;
    }

    /** `Update`: rename the team of that business when a name is given; the
        save is not guarded, so a storage failure escapes as an exception. */
    method Update(teamID: int, busID: int, item: Team) returns (r: Fallible<int>)
      requires db.Valid()
      modifies db`teams, db`saves
      ensures db.Valid()
      ensures Common.Find(old(db.teams), TeamPair, (teamID, busID)).None? ==>
        r == Ok(BAD_REQUEST) && db.saves == old(db.saves) && db.teams == old(db.teams)
      ensures Common.Find(old(db.teams), TeamPair, (teamID, busID)).Some? ==>
        var i := Common.Find(old(db.teams), TeamPair, (teamID, busID)).value;
        db.saves == old(db.saves) + 1 &&
        (db.saves in db.failing ==> r == Thrown(DbUpdate) && db.teams == old(db.teams)) &&
        (db.saves !in db.failing ==>
           r == Ok(OK) &&
           db.teams == old(db.teams)[i := old(db.teams)[i].(teamName := Overwrite(old(db.teams)[i].teamName, item.teamName))])
    {
      match Common.Find(db.teams, TeamPair, (teamID, busID))
      case None =>
        r := Ok(BAD_REQUEST);
      case Some(i) =>
        var renamed := db.teams[i].(teamName := Overwrite(db.teams[i].teamName, item.teamName));
        var ok := db.SaveChanges();
        if !ok {
          return Thrown(DbUpdate);
        }
        ReplaceKeepsUnique(db.teams, TeamKey, i, renamed);
        db.teams := db.teams[i := renamed];
        r := Ok(OK);
    }

    /** The role `EditRole` assigns: a non-zero role identifier as given
        (whether or not the roles table knows it), otherwise the role of the
        first roles-table row with that name, otherwise none. */
    function ResolvedRole(item: TeamRole): (r: Option<int>)
      reads db
      ensures item.roleID != 0 ==> r == Some(item.roleID)
      ensures item.roleID == 0 ==>
        (r.Some? <==> item.roleName.Some? && exists role :: role in db.teamRoles && role.roleName == item.roleName)
      ensures item.roleID == 0 && r.Some? ==>
        exists role :: role in db.teamRoles && role.roleName == item.roleName && role.roleID == r.value
    {
      if item.roleID != 0 then Some(item.roleID)
      else if item.roleName.None? then None
      else
        match Common.Find(db.teamRoles, TeamRoleName, item.roleName)
        case None => None
        case Some(i) => Some(db.teamRoles[i].roleID)
    }

    /** `EditRole`: set the role on the user's join row for the team; a
        missing join row or an unresolvable role answers 400. */
    method EditRole(teamID: int, userID: int, item: TeamRole) returns (edited: bool, status: int)
      requires db.Valid()
      modifies db`userTeams, db`saves
      ensures db.Valid()
      ensures edited <==> status == OK
      ensures old(db.TeamJoinOf(userID, teamID)).None? || old(ResolvedRole(item)).None? ==>
        status == BAD_REQUEST && db.saves == old(db.saves) && db.userTeams == old(db.userTeams)
      ensures old(db.TeamJoinOf(userID, teamID)).Some? && old(ResolvedRole(item)).Some? ==>
        var k := Common.Find(old(db.userTeams), UserTeamPair, (userID, teamID)).value;
        db.saves == old(db.saves) + 1 &&
        (db.saves in db.failing ==> status == INSUFFICIENT_STORAGE && db.userTeams == old(db.userTeams)) &&
        (db.saves !in db.failing ==>
           status == OK &&
           db.userTeams == old(db.userTeams)[k := old(db.userTeams)[k].(roleID := old(ResolvedRole(item)).value)])
    {
      var k := Common.Find(db.userTeams, UserTeamPair, (userID, teamID));
      var role := ResolvedRole(item);
      if k.None? || role.None? {
        return false, BAD_REQUEST;
      }
      var join := db.userTeams[k.value].(roleID := role.value);
      var ok := db.SaveChanges();
      if !ok {
        return false, INSUFFICIENT_STORAGE;
      }
      ReplaceKeepsUnique(db.userTeams, UserTeamKey, k.value, join);
      db.userTeams := db.userTeams[k.value := join];
      return true, OK;
    }

    /** The `foreach` of `RemoveByBusiness`: remove each listed join row and
        save, stopping at the first failing save. */
    method DropJoins(joins: seq<UserTeamJoin>) returns (ok: bool)
      modifies db`userTeams, db`saves
      ensures Progress(db.userTeams, db.saves, !ok) ==
        DeleteEach(Progress(old(db.userTeams), old(db.saves), false), UserTeamKey, joins, db.failing)
    {
      ghost var goal := DeleteEach(Progress(db.userTeams, db.saves, false), UserTeamKey, joins, db.failing);
      var n := 0;
      while n < |joins|
        invariant 0 <= n <= |joins|
        invariant goal == DeleteEach(Progress(db.userTeams, db.saves, false), UserTeamKey, joins[n..], db.failing)
      {
        assert joins[n..][0] == joins[n] && joins[n..][1..] == joins[n + 1..];
        var next := DeleteKey(db.userTeams, UserTeamKey, joins[n].id);
        ok := db.SaveChanges();
        if !ok {
          return false;
        }
        db.userTeams := next;
        n := n + 1;
      }
      return true;
    }

    /** `RemoveByBusiness`: delete every join row of the team, each with its
        own save, then the team; node visibility rows are not touched. */
    method RemoveByBusiness(busID: int, teamID: int) returns (removed: bool, status: int)
      requires db.Valid()
      modifies db`teams, db`userTeams, db`saves
      ensures db.Valid()
      ensures removed <==> status == OK
      ensures Common.Find(old(db.teams), TeamPair, (teamID, busID)).None? ==>
        status == BAD_REQUEST && db.saves == old(db.saves) &&
        db.teams == old(db.teams) && db.userTeams == old(db.userTeams)
      ensures Common.Find(old(db.teams), TeamPair, (teamID, busID)).Some? ==>
        var p := DropTeamJoins(old(db.userTeams), old(db.saves), teamID, db.failing);
        db.userTeams == p.state &&
        (p.failed ==> status == INSUFFICIENT_STORAGE && db.saves == p.saves && db.teams == old(db.teams)) &&
        (!p.failed ==>
           db.saves == p.saves + 1 &&
           (db.saves in db.failing ==> status == INSUFFICIENT_STORAGE && db.teams == old(db.teams)) &&
           (db.saves !in db.failing ==>
              status == OK && forall t :: t in db.teams <==> t in old(db.teams) && t.teamID != teamID))
    {
      var found := Common.Find(db.teams, TeamPair, (teamID, busID));
      if found.None? {
        return false, BAD_REQUEST;
      }
      var i := found.value;
      TeamJoinsCascade(db.userTeams, db.saves, teamID, db.failing);
      var dropped := DropJoins(Where(db.userTeams, UserTeamTeam, teamID));
      if !dropped {
        return false, INSUFFICIENT_STORAGE;
      }
      var ok := db.SaveChanges();
      if !ok {
        return false, INSUFFICIENT_STORAGE;
      }
      RemoveAtKeepsUnique(db.teams, TeamKey, i);
      RemoveAtElements(db.teams, i);
      db.teams := RemoveAt(db.teams, i);
      return true, OK;
    }
  }
}
