/** UsersRepository: user lookups and displays, adding a user to a business
    or a team, profile updates, and removal from a business or a team. */
module Users {
  import opened Common
  import opened Models
  import opened Tables

  /** A user can be shown as a member of team `teamID` in business `busID`:
      the user row exists and both membership rows are there. */
  ghost predicate Displayable(db: Store, busID: int, teamID: int, userID: int)
    reads db
  {
    && (exists u :: u in db.users && u.userID == userID)
    && (exists j :: j in db.businessUsers && j.userID == userID && j.businessID == busID)
    && (exists t :: t in db.userTeams && t.userID == userID && t.teamID == teamID)
  }

  /** The display of a user as a member of a team, with both roles. A missing
      business or team membership row is dereferenced anyway and throws.
      (TeamsRepository.CreateUserDisplay is the same code.) */
  function TeamMemberDisplay(db: Store, busID: int, teamID: int, user: User): (r: Fallible<UserDisplay>)
    reads db
    ensures r.Ok? <==>
      && (exists j :: j in db.businessUsers && j.userID == user.userID && j.businessID == busID)
      && (exists t :: t in db.userTeams && t.userID == user.userID && t.teamID == teamID)
    ensures r.Thrown? ==> r.exception == NullReference
    ensures r.Ok? ==>
      && r.value.(businessID := 0, businessRoleID := 0, teamRoleID := 0) == UserToDisplay(user)
      && r.value.businessID == busID
      && (exists j :: j in db.businessUsers && j.userID == user.userID && j.businessID == busID &&
                      j.roleID == r.value.businessRoleID)
      && (exists t :: t in db.userTeams && t.userID == user.userID && t.teamID == teamID &&
                      t.roleID == r.value.teamRoleID)
  {
    match (db.MembershipOf(user.userID, busID), db.TeamJoinOf(user.userID, teamID))
    case (Some(j), Some(t)) => Ok(TeamMemberToDisplay(user, j, t))
    case _ => Thrown(NullReference)
  }

  /** The profile fields of `item` that are set replace the stored ones, and
      the modification time is always stamped. */
  function PatchUser(u: User, item: UserDisplay, now: string): (r: User)
  {
    u.(firstName := Overwrite(u.firstName, item.firstName),
       lastName := Overwrite(u.lastName, item.lastName),
       email := Overwrite(u.email, item.email),
       phoneNumber := Overwrite(u.phoneNumber, item.phoneNumber),
       userPhoto := Overwrite(u.userPhoto, item.userPhoto),
       company := Overwrite(u.company, item.company),
       industry := OverwriteNonZero(u.industry, item.industry),
       lastModified := Some(now))
  }

  /** An update request with no field set. */
  const BlankUpdate := UserDisplay(0, 0, 0, 0, None, None, None, None, 0, None, None, None, 0)

  /** The patch keeps the identity and the Ario flag, takes every field the
      request sets, keeps every field it leaves null or 0, and stamps the time. */
  lemma PatchUserFields(u: User, item: UserDisplay, now: string)
    ensures var r := PatchUser(u, item, now);
      && r.userID == u.userID && r.isArio == u.isArio
      && r.lastModified == Some(now)
      && r.firstName == (if item.firstName.Some? then item.firstName else u.firstName)
      && r.lastName == (if item.lastName.Some? then item.lastName else u.lastName)
      && r.email == (if item.email.Some? then item.email else u.email)
      && r.phoneNumber == (if item.phoneNumber.Some? then item.phoneNumber else u.phoneNumber)
      && r.userPhoto == (if item.userPhoto.Some? then item.userPhoto else u.userPhoto)
      && r.company == (if item.company.Some? then item.company else u.company)
      && r.industry == (if item.industry != 0 then item.industry else u.industry)
  {
  }

  /** Applying the same update twice is the same as applying it once. */
  lemma PatchUserIdempotent(u: User, item: UserDisplay, now: string)
    ensures PatchUser(PatchUser(u, item, now), item, now) == PatchUser(u, item, now)
  {
  }

  /** A request that sets nothing only stamps the modification time. */
  lemma PatchUserBlank(u: User, now: string)
    ensures PatchUser(u, BlankUpdate, now) == u.(lastModified := Some(now))
  {
  }

  /** The user a create request describes, inside business `b`, with the
      next user identifier. */
  function NewUser(rows: seq<User>, item: UserDisplay, b: Business, now: string): (u: User)
    ensures forall r :: r in rows ==> r.userID < u.userID
    ensures u.userID == NextId(rows, UserKey)
    ensures u.industry == b.industry && u.company == b.businessName && u.lastModified == Some(now)
    ensures u.email == item.email && u.firstName == item.firstName && u.lastName == item.lastName
    ensures u.phoneNumber == item.phoneNumber && u.userPhoto == item.userPhoto && u.isArio == item.isArio
  {
    UserForBusiness(item, b, now).(userID := NextId(rows, UserKey))
  }

  class UsersRepository {
    const db: Store

    constructor (db: Store)
      ensures this.db == db
    {
      this.db := db;
    }

    /** `UserExists`: only the user table is consulted; `busID` plays no part. */
    function UserExists(userID: int, busID: int): (r: bool)
      reads db
      ensures r <==> exists u :: u in db.users && u.userID == userID
    {
      Common.Find(db.users, UserKey, userID).Some?
    }

    /** `CreateDisplay(user, out status)`: the business fields come from the
        user's first membership in any business; without one the status is 400. */
    function CreateDisplay(user: User): (r: (UserDisplay, int))
      reads db
      ensures r.1 == OK || r.1 == BAD_REQUEST
      ensures r.1 == OK <==> exists j :: j in db.businessUsers && j.userID == user.userID
      ensures r.1 == BAD_REQUEST ==> r.0 == UserToDisplay(user)
      ensures r.1 == OK ==> exists j :: j in db.businessUsers && j.userID == user.userID && r.0 == MemberToDisplay(user, j)
    {
      match Common.Find(db.businessUsers, MembershipUser, user.userID)
      case Some(i) => (MemberToDisplay(user, db.businessUsers[i]), OK)
      case None => (UserToDisplay(user), BAD_REQUEST)
    }

    /** The displays of the members in `joins` whose user row exists, in order. */
    function MemberDisplays(joins: seq<BusinessUserJoin>): (r: seq<UserDisplay>)
      reads db
      ensures |r| <= |joins|
    {
      if |joins| == 0 then []
      else
        var j := joins[|joins| - 1];
        MemberDisplays(joins[..|joins| - 1]) +
          match db.UserById(j.userID)
          case None => []
          case Some(u) => [MemberToDisplay(u, j)]
    }

    /** A display is listed exactly when it shows an existing user through
        one of the listed memberships. */
    lemma MemberDisplaysExact(joins: seq<BusinessUserJoin>, d: UserDisplay)
      requires UniqueKeys(db.users, UserKey)
      ensures d in MemberDisplays(joins) <==>
        exists j, u :: j in joins && u in db.users && u.userID == j.userID && d == MemberToDisplay(u, j)
    {
      MemberDisplaysListed(joins, d);
      if exists j, u :: j in joins && u in db.users && u.userID == j.userID && d == MemberToDisplay(u, j) {
        var j, u :| j in joins && u in db.users && u.userID == j.userID && d == MemberToDisplay(u, j);
        var i :| 0 <= i < |db.users| && db.users[i] == u;
        FindUnique(db.users, UserKey, j.userID, i);
      }
    }

    /** The same, through the lookup of each membership's user row. */
    lemma {:induction false} MemberDisplaysListed(joins: seq<BusinessUserJoin>, d: UserDisplay)
      ensures d in MemberDisplays(joins) <==>
        exists j :: j in joins && db.UserById(j.userID).Some? && d == MemberToDisplay(db.UserById(j.userID).value, j)
    {
      if |joins| > 0 {
        var front := joins[..|joins| - 1];
        MemberDisplaysListed(front, d);
        assert forall j :: j in joins <==> j in front || j == joins[|joins| - 1];
      }
    }

    /** One more membership extends the list by its display when the user
        row exists. */
    lemma MemberDisplaysStep(joins: seq<BusinessUserJoin>, i: nat)
      requires i < |joins|
      ensures MemberDisplays(joins[..i + 1]) == MemberDisplays(joins[..i]) +
        match db.UserById(joins[i].userID)
        case None => []
        case Some(u) => [MemberToDisplay(u, joins[i])]
    {
      assert joins[..i + 1][..i] == joins[..i];
    }

    /** `GetByBusiness`: every member of the business whose user row exists. */
    method GetByBusiness(id: int) returns (list: seq<UserDisplay>)
      ensures list == MemberDisplays(Where(db.businessUsers, MembershipBusiness, id))
    {
      var joins := Where(db.businessUsers, MembershipBusiness, id);
      list := ListMembers(joins);
    }

    /** The listing loop of `GetByBusiness` over the memberships `joins`. */
    method ListMembers(joins: seq<BusinessUserJoin>) returns (list: seq<UserDisplay>)
      ensures list == MemberDisplays(joins)
    {
      list := [];
      var i := 0;
      while i < |joins|
        invariant 0 <= i <= |joins|
        invariant list == MemberDisplays(joins[..i])
      {
        MemberDisplaysStep(joins, i);
        var user := db.UserById(joins[i].userID);
        if user.Some? {
          list := list + [MemberToDisplay(user.value, joins[i])];
        }
        i := i + 1;
      }
      assert joins[..i] == joins;
    }

    /** The displays of the team members in `joins`; a join whose user row is
        gone passes a null user on and throws. */
    function TeamMembers(joins: seq<UserTeamJoin>, busID: int, teamID: int): (r: Fallible<seq<UserDisplay>>)
      reads db
    {
      Collect(MemberResults(joins, busID, teamID))
    }

    /** The display of each joined user, or the exception it raises. */
    function MemberResults(joins: seq<UserTeamJoin>, busID: int, teamID: int): (r: seq<Fallible<UserDisplay>>)
      reads db
      ensures |r| == |joins|
      ensures forall i :: 0 <= i < |joins| ==> r[i] == MemberOf(busID, teamID, joins[i].userID)
    {
      if |joins| == 0 then []
      else
        var front := joins[..|joins| - 1];
        assert forall i :: 0 <= i < |front| ==> front[i] == joins[i];
        MemberResults(front, busID, teamID) + [MemberOf(busID, teamID, joins[|joins| - 1].userID)]
    }

    /** The display of one joined user: a missing user is dereferenced and
        throws, and so does a missing membership. */
    function MemberOf(busID: int, teamID: int, userID: int): (r: Fallible<UserDisplay>)
      reads db
      ensures r.Thrown? ==> r.exception == NullReference
      ensures r.Ok? <==> Displayable(db, busID, teamID, userID)
      ensures r.Ok? ==> r.value.userID == userID && r.value.businessID == busID
    {
      match db.UserById(userID)
      case None => Thrown(NullReference)
      case Some(u) =>
        var d := TeamMemberDisplay(db, busID, teamID, u);
        assert d.Ok? ==> d.value.userID == UserToDisplay(u).userID;
        d
    }

    /** The list is produced exactly when every join's user exists and belongs
        to both the business and the team; it then holds one display per join,
        in order, for that join's user and the business. Otherwise a null
        reference is thrown. */
    lemma TeamMembersFacts(joins: seq<UserTeamJoin>, busID: int, teamID: int)
      ensures var r := TeamMembers(joins, busID, teamID);
        && (r.Ok? <==> forall i :: 0 <= i < |joins| ==> Displayable(db, busID, teamID, joins[i].userID))
        && (r.Ok? ==> |r.value| == |joins|)
        && (r.Ok? ==> forall i :: 0 <= i < |joins| ==>
              r.value[i].userID == joins[i].userID && r.value[i].businessID == busID)
        && (r.Thrown? ==> r.exception == NullReference)
    {
      var xs := MemberResults(joins, busID, teamID);
      CollectFacts(xs);
      if Collect(xs).Thrown? {
        var i :| 0 <= i < |xs| && xs[i] == Thrown(Collect(xs).exception);
      }
    }

    /** The list for one more join of `joins`. */
    lemma TeamMembersStep(joins: seq<UserTeamJoin>, i: nat, busID: int, teamID: int)
      requires i < |joins|
      ensures TeamMembers(joins[..i + 1], busID, teamID) ==
        match TeamMembers(joins[..i], busID, teamID)
        case Thrown(e) => Thrown(e)
        case Ok(list) =>
          (match MemberOf(busID, teamID, joins[i].userID)
           case Thrown(e) => Thrown(e)
           case Ok(d) => Ok(list + [d]))
    {
      var prefix := joins[..i + 1];
      assert prefix[..i] == joins[..i];
      assert MemberResults(prefix, busID, teamID) ==
        MemberResults(joins[..i], busID, teamID) + [MemberOf(busID, teamID, joins[i].userID)];
      CollectSnoc(MemberResults(joins[..i], busID, teamID), MemberOf(busID, teamID, joins[i].userID));
    }

    /** `GetUsersOnTeam`: a display for every join of the team, or the
        exception the first unusable join raises. */
    method GetUsersOnTeam(busID: int, teamID: int) returns (r: Fallible<seq<UserDisplay>>)
      ensures r == TeamMembers(Where(db.userTeams, UserTeamTeam, teamID), busID, teamID)
    {
      var joins := Where(db.userTeams, UserTeamTeam, teamID);
      var list := [];
      var i := 0;
      while i < |joins|
        invariant 0 <= i <= |joins|
        invariant TeamMembers(joins[..i], busID, teamID) == Ok(list)
      {
        TeamMembersStep(joins, i, busID, teamID);
        var disp := MemberOf(busID, teamID, joins[i].userID);
        if disp.Thrown? {
          TeamMembersFacts(joins, busID, teamID);
          return Thrown(disp.exception);
        }
        list := list + [disp.value];
        i := i + 1;
      }
      assert joins[..i] == joins;
      r := Ok(list);
    }

    /** `AddByBusiness`: 409 when a user with that email exists, 400 when the
        business does not; otherwise the user row (next user identifier) and
        then a membership with role 5 (next membership identifier), each its
        own save. */
    method AddByBusiness(id: int, item: UserDisplay, now: string) returns (added: bool, status: int)
      requires db.Valid()
      modifies db`users, db`businessUsers, db`saves
      ensures db.Valid()
      ensures added <==> status == CREATED
      ensures (exists u :: u in old(db.users) && u.email == item.email) ==>
        status == CONFLICT && db.saves == old(db.saves) &&
        db.users == old(db.users) && db.businessUsers == old(db.businessUsers)
      ensures (forall u :: u in old(db.users) ==> u.email != item.email) && old(db.BusinessById(id)).None? ==>
        status == BAD_REQUEST && db.saves == old(db.saves) &&
        db.users == old(db.users) && db.businessUsers == old(db.businessUsers)
      ensures (forall u :: u in old(db.users) ==> u.email != item.email) && old(db.BusinessById(id)).Some? ==>
        var user := NewUser(old(db.users), item, old(db.BusinessById(id)).value, now);
        if old(db.saves) + 1 in db.failing then
          status == INSUFFICIENT_STORAGE && db.saves == old(db.saves) + 1 &&
          db.users == old(db.users) && db.businessUsers == old(db.businessUsers)
        else
          db.users == old(db.users) + [user] && db.saves == old(db.saves) + 2 &&
          (db.saves in db.failing ==> status == INSUFFICIENT_STORAGE && db.businessUsers == old(db.businessUsers)) &&
          (db.saves !in db.failing ==>
             status == CREATED &&
             db.businessUsers == old(db.businessUsers) +
               [BusinessUserJoin(NextId(old(db.businessUsers), MembershipKey), id, user.userID, 5)])
    {
      var existing := Common.Find(db.users, UserEmail, item.email);
      if existing.Some? {
        return false, CONFLICT;
      }
      var bus := db.BusinessById(id);
      if bus.None? {
        return false, BAD_REQUEST;
      }
      var user := NewUser(db.users, item, bus.value, now);
      added, status := SaveMember(id, user);
    }

    /** The two saves of `AddByBusiness`: the new user row, then its
        membership with role 5 under the next membership identifier. */
    method SaveMember(id: int, user: User) returns (added: bool, status: int)
      requires db.Valid()
      requires user.userID == NextId(db.users, UserKey)
      modifies db`users, db`businessUsers, db`saves
      ensures db.Valid()
      ensures added <==> status == CREATED
      ensures if old(db.saves) + 1 in db.failing then
          status == INSUFFICIENT_STORAGE && db.saves == old(db.saves) + 1 &&
          db.users == old(db.users) && db.businessUsers == old(db.businessUsers)
        else
          db.users == old(db.users) + [user] && db.saves == old(db.saves) + 2 &&
          (db.saves in db.failing ==> status == INSUFFICIENT_STORAGE && db.businessUsers == old(db.businessUsers)) &&
          (db.saves !in db.failing ==>
             status == CREATED &&
             db.businessUsers == old(db.businessUsers) +
               [BusinessUserJoin(NextId(old(db.businessUsers), MembershipKey), id, user.userID, 5)])
    {
      var ok := db.SaveChanges();
      if !ok {
        return false, INSUFFICIENT_STORAGE;
      }
      AppendKeepsUnique(db.users, UserKey, user);
      db.users := db.users + [user];
      var join := BusinessUserJoin(NextId(db.businessUsers, MembershipKey), id, user.userID, 5);
      ok := db.SaveChanges();
      if !ok {
        return false, INSUFFICIENT_STORAGE;
      }
      AppendKeepsUnique(db.businessUsers, MembershipKey, join);
      db.businessUsers := db.businessUsers + [join];
      return true, CREATED;
    }

    /** `AddUserToTeam`: a member of the business joins the team with role 3
        under the next join identifier; neither the team nor an existing join
        is checked. */
    method AddUserToTeam(busID: int, teamID: int, userID: int) returns (added: bool, status: int)
      requires db.Valid()
      modifies db`userTeams, db`saves
      ensures db.Valid()
      ensures added <==> status == CREATED
      ensures old(db.MembershipOf(userID, busID)).None? ==>
        status == BAD_REQUEST && db.saves == old(db.saves) && db.userTeams == old(db.userTeams)
      ensures old(db.MembershipOf(userID, busID)).Some? ==>
        db.saves == old(db.saves) + 1 &&
        (db.saves in db.failing ==> status == INSUFFICIENT_STORAGE && db.userTeams == old(db.userTeams)) &&
        (db.saves !in db.failing ==>
           status == CREATED &&
           db.userTeams == old(db.userTeams) + [UserTeamJoin(NextId(old(db.userTeams), UserTeamKey), userID, teamID, 3)])
    {
      if db.MembershipOf(userID, busID).None? {
        return false, BAD_REQUEST;
      }
      var join := UserTeamJoin(NextId(db.userTeams, UserTeamKey), userID, teamID, 3);
      var ok := db.SaveChanges();
      if !ok {
        return false, INSUFFICIENT_STORAGE;
      }
      AppendKeepsUnique(db.userTeams, UserTeamKey, join);
      db.userTeams := db.userTeams + [join];
      return true, CREATED;
    }

    /** `Update`: needs a membership of the user in the business (else 400);
        a missing user is not an error. A non-zero business role is saved
        first, then the patched profile. */
    method Update(userID: int, busID: int, item: UserDisplay, now: string) returns (status: int)
      requires db.Valid()
      modifies db`users, db`businessUsers, db`saves
      ensures db.Valid()
      ensures old(db.MembershipOf(userID, busID)).None? ==>
        status == BAD_REQUEST && db.saves == old(db.saves) &&
        db.users == old(db.users) && db.businessUsers == old(db.businessUsers)
      ensures old(db.MembershipOf(userID, busID)).Some? && old(db.UserById(userID)).None? ==>
        status == OK && db.saves == old(db.saves) &&
        db.users == old(db.users) && db.businessUsers == old(db.businessUsers)
      ensures old(db.MembershipOf(userID, busID)).Some? && old(db.UserById(userID)).Some? ==>
        var i := Common.Find(old(db.users), UserKey, userID).value;
        var k := Common.Find(old(db.businessUsers), MembershipPair, (userID, busID)).value;
        var roleSaves := if item.businessRoleID != 0 then 1 else 0;
        if roleSaves == 1 && old(db.saves) + 1 in db.failing then
          status == INSUFFICIENT_STORAGE && db.saves == old(db.saves) + 1 &&
          db.users == old(db.users) && db.businessUsers == old(db.businessUsers)
        else
          db.saves == old(db.saves) + roleSaves + 1 &&
          db.businessUsers ==
            (if roleSaves == 1 then old(db.businessUsers)[k := old(db.businessUsers)[k].(roleID := item.businessRoleID)]
             else old(db.businessUsers)) &&
          (db.saves in db.failing ==> status == INSUFFICIENT_STORAGE && db.users == old(db.users)) &&
          (db.saves !in db.failing ==>
             status == OK && db.users == old(db.users)[i := PatchUser(old(db.users)[i], item, now)])
    {
      var k := Common.Find(db.businessUsers, MembershipPair, (userID, busID));
      if k.None? {
        return BAD_REQUEST;
      }
      var i := Common.Find(db.users, UserKey, userID);
      if i.None? {
        return OK;
      }
      status := SaveUpdate(i.value, k.value, item, now);
    }

    /** The saves of `Update`: the membership's new role when one is given,
        then the patched user row. */
    method SaveUpdate(i: nat, k: nat, item: UserDisplay, now: string) returns (status: int)
      requires db.Valid()
      requires i < |db.users| && k < |db.businessUsers|
      modifies db`users, db`businessUsers, db`saves
      ensures db.Valid()
      ensures
        var roleSaves := if item.businessRoleID != 0 then 1 else 0;
        if roleSaves == 1 && old(db.saves) + 1 in db.failing then
          status == INSUFFICIENT_STORAGE && db.saves == old(db.saves) + 1 &&
          db.users == old(db.users) && db.businessUsers == old(db.businessUsers)
        else
          db.saves == old(db.saves) + roleSaves + 1 &&
          db.businessUsers ==
            (if roleSaves == 1 then old(db.businessUsers)[k := old(db.businessUsers)[k].(roleID := item.businessRoleID)]
             else old(db.businessUsers)) &&
          (db.saves in db.failing ==> status == INSUFFICIENT_STORAGE && db.users == old(db.users)) &&
          (db.saves !in db.failing ==>
             status == OK && db.users == old(db.users)[i := PatchUser(old(db.users)[i], item, now)])
    {
      var ok;
      if item.businessRoleID != 0 {
        var join := db.businessUsers[k].(roleID := item.businessRoleID);
        ok := db.SaveChanges();
        if !ok {
          return INSUFFICIENT_STORAGE;
        }
        ReplaceKeepsUnique(db.businessUsers, MembershipKey, k, join);
        db.businessUsers := db.businessUsers[k := join];
      }
      var patched := PatchUser(db.users[i], item, now);
      ok := db.SaveChanges();
      if !ok {
        return INSUFFICIENT_STORAGE;
      }
      ReplaceKeepsUnique(db.users, UserKey, i, patched);
      db.users := db.users[i := patched];
      status := OK;
    }

    /** `RemoveByBusiness`: the user's membership of the business goes first,
        then the user row itself; memberships in other businesses and team
        joins are left behind. */
    method RemoveByBusiness(busID: int, userID: int) returns (removed: bool, status: int)
      requires db.Valid()
      modifies db`users, db`businessUsers, db`saves
      ensures db.Valid()
      ensures removed <==> status == OK
      ensures old(db.UserById(userID)).None? || old(db.MembershipOf(userID, busID)).None? ==>
        status == BAD_REQUEST && db.saves == old(db.saves) &&
        db.users == old(db.users) && db.businessUsers == old(db.businessUsers)
      ensures old(db.UserById(userID)).Some? && old(db.MembershipOf(userID, busID)).Some? ==>
        var gone := old(db.MembershipOf(userID, busID)).value;
        if old(db.saves) + 1 in db.failing then
          status == INSUFFICIENT_STORAGE && db.saves == old(db.saves) + 1 &&
          db.users == old(db.users) && db.businessUsers == old(db.businessUsers)
        else
          db.saves == old(db.saves) + 2 &&
          (forall j :: j in db.businessUsers <==> j in old(db.businessUsers) && j.id != gone.id) &&
          (db.saves in db.failing ==> status == INSUFFICIENT_STORAGE && db.users == old(db.users)) &&
          (db.saves !in db.failing ==>
             status == OK && (forall u :: u in db.users <==> u in old(db.users) && u.userID != userID))
    {
      var i := Common.Find(db.users, UserKey, userID);
      var k := Common.Find(db.businessUsers, MembershipPair, (userID, busID));
      if i.None? || k.None? {
        return false, BAD_REQUEST;
      }
      var ok := db.SaveChanges();
      if !ok {
        return false, INSUFFICIENT_STORAGE;
      }
      RemoveAtKeepsUnique(db.businessUsers, MembershipKey, k.value);
      RemoveAtElements(db.businessUsers, k.value);
      db.businessUsers := RemoveAt(db.businessUsers, k.value);
      ok := db.SaveChanges();
      if !ok {
        return false, INSUFFICIENT_STORAGE;
      }
      RemoveAtKeepsUnique(db.users, UserKey, i.value);
      RemoveAtElements(db.users, i.value);
      db.users := RemoveAt(db.users, i.value);
      return true, OK;
    }

    /** `RemoveUserFromTeam`: delete the user's join row for the team. */
    method RemoveUserFromTeam(teamID: int, userID: int) returns (removed: bool, status: int)
      requires db.Valid()
      modifies db`userTeams, db`saves
      ensures db.Valid()
      ensures removed <==> status == OK
      ensures old(db.TeamJoinOf(userID, teamID)).None? ==>
        status == BAD_REQUEST && db.saves == old(db.saves) && db.userTeams == old(db.userTeams)
      ensures old(db.TeamJoinOf(userID, teamID)).Some? ==>
        var gone := old(db.TeamJoinOf(userID, teamID)).value;
        db.saves == old(db.saves) + 1 &&
        (db.saves in db.failing ==> status == INSUFFICIENT_STORAGE && db.userTeams == old(db.userTeams)) &&
        (db.saves !in db.failing ==>
           status == OK && (forall j :: j in db.userTeams <==> j in old(db.userTeams) && j.id != gone.id))
    {
      var k := Common.Find(db.userTeams, UserTeamPair, (userID, teamID));
      if k.None? {
        return false, BAD_REQUEST;
      }
      var ok := db.SaveChanges();
      if !ok {
        return false, INSUFFICIENT_STORAGE;
      }
      RemoveAtKeepsUnique(db.userTeams, UserTeamKey, k.value);
      RemoveAtElements(db.userTeams, k.value);
      db.userTeams := RemoveAt(db.userTeams, k.value);
      return true, OK;
    }
  }
}
