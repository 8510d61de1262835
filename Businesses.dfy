/** BusinessesRepository: the permission checks every controller runs, the
    business lookups and filter, and business create/update/delete. */
module Businesses {
  import opened Common
  import opened Models
  import opened Tables
  import opened Filter

  /** The public properties of `BusinessesDisplay` in declaration order; none
      of them carries the `BlackListed` attribute. */
  function BusinessFields(q: BusinessDisplay, d: BusinessDisplay): seq<Field>
  {
    [ Field(Num(q.businessID), Num(d.businessID), false),
      Field(Num(q.industry), Num(d.industry), false),
      Field(TextValue(q.businessName), TextValue(d.businessName), false),
      Field(TextValue(q.address), TextValue(d.address), false),
      Field(TextValue(q.phoneNumber), TextValue(d.phoneNumber), false),
      Field(TextValue(q.website), TextValue(d.website), false),
      Field(ObjValue(q.owner), ObjValue(d.owner), false) ]
  }

  /** `new BusinessesDisplay()`: a non-null query with every property at its default. */
  const BlankQuery := BusinessDisplay(0, 0, None, None, None, None, None)

  /** The exact condition a business display must meet to be selected:
      every non-zero number and every string other than "0" must be equal,
      and a query that names an owner selects nothing. */
  lemma BusinessMatch(q: BusinessDisplay, d: BusinessDisplay)
    ensures Accepts(BusinessFields(q, d)) <==>
      && (q.businessID == 0 || d.businessID == q.businessID)
      && (q.industry == 0 || d.industry == q.industry)
      && TextAgrees(q.businessName, d.businessName)
      && TextAgrees(q.address, d.address)
      && TextAgrees(q.phoneNumber, d.phoneNumber)
      && TextAgrees(q.website, d.website)
      && q.owner.None?
  {
    var fs := BusinessFields(q, d);
    if forall i :: 0 <= i < 7 ==> FieldAccepts(fs[i]) {
      assert FieldAccepts(fs[0]) && FieldAccepts(fs[1]) && FieldAccepts(fs[2]) && FieldAccepts(fs[3]);
      assert FieldAccepts(fs[4]) && FieldAccepts(fs[5]) && FieldAccepts(fs[6]);
    }
    NumField(q.businessID, d.businessID);
    NumField(q.industry, d.industry);
    TextField(q.businessName, d.businessName);
    TextField(q.address, d.address);
    TextField(q.phoneNumber, d.phoneNumber);
    TextField(q.website, d.website);
    ObjField(q.owner, d.owner);
  }

  /** The displays of `ds` that the query accepts, in order. */
  function Matching(ds: seq<BusinessDisplay>, q: BusinessDisplay): (r: seq<BusinessDisplay>)
    ensures |r| <= |ds|
  {
    if |ds| == 0 then []
    else
      var d := ds[|ds| - 1];
      Matching(ds[..|ds| - 1], q) + if Accepts(BusinessFields(q, d)) then [d] else []
  }

  /** A display is kept exactly when it is listed and accepted. */
  lemma {:induction false} MatchingMembers(ds: seq<BusinessDisplay>, q: BusinessDisplay, d: BusinessDisplay)
    ensures d in Matching(ds, q) <==> d in ds && Accepts(BusinessFields(q, d))
  {
    if |ds| > 0 {
      var front := ds[..|ds| - 1];
      MatchingMembers(front, q, d);
      assert d in ds <==> d in front || d == ds[|ds| - 1];
    }
  }

  /** The query with every property at its default accepts every display. */
  lemma {:induction false} BlankMatchesAll(ds: seq<BusinessDisplay>)
    ensures Matching(ds, BlankQuery) == ds
  {
    if |ds| > 0 {
      BlankMatchesAll(ds[..|ds| - 1]);
      BusinessMatch(BlankQuery, ds[|ds| - 1]);
    }
  }

  /** Filtering one more display extends the result by it when accepted. */
  lemma MatchingSnoc(ds: seq<BusinessDisplay>, q: BusinessDisplay, d: BusinessDisplay)
    ensures Matching(ds + [d], q) == Matching(ds, q) + if Accepts(BusinessFields(q, d)) then [d] else []
  {
    assert (ds + [d])[..|ds|] == ds;
  }

  /** The business a create request describes, with the next identifier. */
  function NewBusiness(rows: seq<Business>, item: BusinessDisplay): (b: Business)
    ensures b.businessID == NextId(rows, BusinessKey)
    ensures forall r :: r in rows ==> r.businessID < b.businessID
    ensures BusinessToDisplay(b) == item.(businessID := b.businessID, owner := None)
  {
    BusinessFromDisplay(item).(businessID := NextId(rows, BusinessKey))
  }

  /** The owner a create request carries, as it is stored: the next user
      identifier and the time of the request as `lastModified`. */
  function NewOwner(rows: seq<User>, owner: User, now: string): (u: User)
    ensures u.userID == NextId(rows, UserKey)
    ensures forall r :: r in rows ==> r.userID < u.userID
    ensures u == owner.(userID := u.userID, lastModified := Some(now))
  {
    owner.(userID := NextId(rows, UserKey), lastModified := Some(now))
  }

  /** The business after `Update`: non-null strings and a non-zero industry
      replace the stored ones. */
  function PatchBusiness(b: Business, item: Business): (r: Business)
    ensures r.businessID == b.businessID
    ensures
      && item.industry == 0 && item.businessName.None? && item.address.None?
      && item.phoneNumber.None? && item.website.None?
      ==> r == b
    ensures r.businessName == if item.businessName.Some? then item.businessName else b.businessName
    ensures r.address == if item.address.Some? then item.address else b.address
    ensures r.phoneNumber == if item.phoneNumber.Some? then item.phoneNumber else b.phoneNumber
    ensures r.website == if item.website.Some? then item.website else b.website
    ensures r.industry == if item.industry != 0 then item.industry else b.industry
  {
    b.(businessName := Overwrite(b.businessName, item.businessName),
       address := Overwrite(b.address, item.address),
       phoneNumber := Overwrite(b.phoneNumber, item.phoneNumber),
       industry := OverwriteNonZero(b.industry, item.industry),
       website := Overwrite(b.website, item.website))
  }

  /** Applying the same update twice is the same as applying it once. */
  lemma PatchIdempotent(b: Business, item: Business)
    ensures PatchBusiness(PatchBusiness(b, item), item) == PatchBusiness(b, item)
  {
  }

  class BusinessesRepository {
    const db: Store

    constructor (db: Store)
      ensures this.db == db
    {
      this.db := db;
    }

    /** An Ario employee passes every check. */
    function IsArio(user: User): (c: Check)
      ensures c.allowed <==> user.isArio == 1
      ensures c.status == if c.allowed then OK else FORBIDDEN
    {
      if user.isArio == 1 then Check(true, OK) else Check(false, FORBIDDEN)
    }

    function IsBusinessOwner(user: User, busID: int): (c: Check)
      reads db
      requires UniqueKeys(db.businessUsers, MembershipPair)
      ensures c.allowed <==>
        user.isArio == 1 || exists j :: j in db.businessUsers && j.userID == user.userID && j.businessID == busID && j.roleID == 2
      ensures c.status == if c.allowed then OK else FORBIDDEN
    {
      db.MembershipIsUnique(user.userID, busID);
      var m := db.MembershipOf(user.userID, busID);
      if m.Some? && m.value.roleID == 2 then Check(true, OK)
      else if user.isArio == 1 then Check(true, OK)
      else Check(false, FORBIDDEN)
    }

    /** Roles 2 (owner) and 3 (admin) administer a business. */
    function IsBusinessAdmin(user: User, busID: int): (c: Check)
      reads db
      requires UniqueKeys(db.businessUsers, MembershipPair)
      ensures c.allowed <==>
        user.isArio == 1 || exists j :: j in db.businessUsers && j.userID == user.userID && j.businessID == busID && 1 < j.roleID <= 3
      ensures c.status == if c.allowed then OK else FORBIDDEN
    {
      db.MembershipIsUnique(user.userID, busID);
      var m := db.MembershipOf(user.userID, busID);
      if m.Some? && m.value.roleID <= 3 && m.value.roleID > 1 then Check(true, OK)
      else if user.isArio == 1 then Check(true, OK)
      else Check(false, FORBIDDEN)
    }

    /** Any membership row, whatever its role, makes a business user. */
    function IsBusinessUser(user: User, busID: int): (c: Check)
      reads db
      requires UniqueKeys(db.businessUsers, MembershipPair)
      ensures c.allowed <==>
        user.isArio == 1 || exists j :: j in db.businessUsers && j.userID == user.userID && j.businessID == busID
      ensures c.status == if c.allowed then OK else FORBIDDEN
    {
      var m := db.MembershipOf(user.userID, busID);
      if m.Some? then Check(true, OK)
      else if user.isArio == 1 then Check(true, OK)
      else Check(false, FORBIDDEN)
    }

    /** Owner implies admin implies user, and an Ario employee passes all three. */
    lemma PrivilegeHierarchy(user: User, busID: int)
      requires UniqueKeys(db.businessUsers, MembershipPair)
      ensures IsBusinessOwner(user, busID).allowed ==> IsBusinessAdmin(user, busID).allowed
      ensures IsBusinessAdmin(user, busID).allowed ==> IsBusinessUser(user, busID).allowed
      ensures IsArio(user).allowed ==>
        IsBusinessOwner(user, busID).allowed && IsBusinessAdmin(user, busID).allowed && IsBusinessUser(user, busID).allowed
    {
    }

    function BusinessExists(id: int): (r: bool)
      reads db
      ensures r <==> exists b :: b in db.businesses && b.businessID == id
    {
      Common.Find(db.businesses, BusinessKey, id).Some?
    }

    /** The display of a business, with its owner: the user of the first
        membership of the business with role 2, when that user exists. */
    function CreateDisplay(b: Business): (d: BusinessDisplay)
      reads db
      ensures d.(owner := None) == BusinessToDisplay(b)
    {
      var disp := BusinessToDisplay(b);
      match Common.Find(db.businessUsers, OwnerKey, (b.businessID, 2))
      case None => disp
      case Some(i) =>
        match Common.Find(db.users, UserKey, db.businessUsers[i].userID)
        case None => disp
        case Some(k) => disp.(owner := Some(db.users[k]))
    }

    /** The owner shown is a user who holds a role-2 membership of the
        business; there is none without such a membership, and there is one
        when such memberships exist and all of their users do. */
    lemma DisplayOwner(b: Business)
      ensures var d := CreateDisplay(b);
        && (d.owner.Some? ==>
              d.owner.value in db.users && exists j :: j in db.businessUsers && j.businessID == b.businessID && j.roleID == 2 && j.userID == d.owner.value.userID)
        && ((forall j :: j in db.businessUsers && j.businessID == b.businessID ==> j.roleID != 2) ==> d.owner.None?)
        && ((exists j :: j in db.businessUsers && j.businessID == b.businessID && j.roleID == 2)
            && (forall j :: j in db.businessUsers && j.businessID == b.businessID && j.roleID == 2 ==>
                  exists u :: u in db.users && u.userID == j.userID)
            ==> d.owner.Some?)
    {
    }

    function Find(id: int): (r: Option<BusinessDisplay>)
      reads db
      ensures r.None? <==> forall b :: b in db.businesses ==> b.businessID != id
      ensures r.Some? ==> exists b :: b in db.businesses && b.businessID == id && r.value == CreateDisplay(b)
    {
      match Common.Find(db.businesses, BusinessKey, id)
      case None => None
      case Some(i) => Some(CreateDisplay(db.businesses[i]))
    }

    /** The displays of `rows` that the query selects, in table order. */
    function Selected(rows: seq<Business>, q: BusinessDisplay): (r: seq<BusinessDisplay>)
      reads db
      ensures |r| <= |rows|
    {
      Matching(AllDisplays(rows), q)
    }

    /** The display of every row, in table order. */
    function AllDisplays(rows: seq<Business>): (r: seq<BusinessDisplay>)
      reads db
      ensures |r| == |rows|
      ensures forall i :: 0 <= i < |rows| ==> r[i] == CreateDisplay(rows[i])
    {
      if |rows| == 0 then [] else AllDisplays(rows[..|rows| - 1]) + [CreateDisplay(rows[|rows| - 1])]
    }

    /** A display is selected exactly when it is the display of some row and
        it passes the filter. */
    lemma SelectedMembers(rows: seq<Business>, q: BusinessDisplay, d: BusinessDisplay)
      ensures d in Selected(rows, q) <==>
        Accepts(BusinessFields(q, d)) && exists i :: 0 <= i < |rows| && d == CreateDisplay(rows[i])
    {
      var ds := AllDisplays(rows);
      MatchingMembers(ds, q, d);
      if d in ds {
        var i :| 0 <= i < |ds| && ds[i] == d;
        assert d == CreateDisplay(rows[i]);
      }
      if exists i :: 0 <= i < |rows| && d == CreateDisplay(rows[i]) {
        var i :| 0 <= i < |rows| && d == CreateDisplay(rows[i]);
        assert ds[i] == d;
      }
    }

    /** An all-default query returns every business. */
    lemma BlankSelectsAll(rows: seq<Business>)
      ensures Selected(rows, BlankQuery) == AllDisplays(rows)
    {
      BlankMatchesAll(AllDisplays(rows));
    }

    lemma SelectedStep(rows: seq<Business>, q: BusinessDisplay, i: nat)
      requires i < |rows|
      ensures Selected(rows[..i + 1], q) == Selected(rows[..i], q) +
        if Accepts(BusinessFields(q, CreateDisplay(rows[i]))) then [CreateDisplay(rows[i])] else []
    {
      assert rows[..i + 1][..i] == rows[..i];
      assert AllDisplays(rows[..i + 1]) == AllDisplays(rows[..i]) + [CreateDisplay(rows[i])];
      MatchingSnoc(AllDisplays(rows[..i]), q, CreateDisplay(rows[i]));
    }

    /** `GetSelect`: no query, no result; otherwise the selected displays. */
    method GetSelect(item: Option<BusinessDisplay>) returns (list: seq<BusinessDisplay>)
      ensures item.None? ==> list == []
      ensures item.Some? ==> list == Selected(db.businesses, item.value)
    {
      list := [];
      if item.Some? {
        list := SelectFrom(db.businesses, item.value);
      }
    }

    /** The filtering loop of `GetSelect` over the rows `rows`. */
    method SelectFrom(rows: seq<Business>, q: BusinessDisplay) returns (list: seq<BusinessDisplay>)
      ensures list == Selected(rows, q)
    {
      list := [];
      var i := 0;
      while i < |rows|
        invariant 0 <= i <= |rows|
        invariant list == Selected(rows[..i], q)
      {
        SelectedStep(rows, q, i);
        var disp := CreateDisplay(rows[i]);
        var matched := MatchFields(BusinessFields(q, disp));
        if matched {
          list := list + [disp];
        }
        i := i + 1;
      }
      assert rows[..i] == rows;
    }

    /** `Add`: store the business, then the owner if there is one, then the
        owner's membership with role 2; each write is its own save and the
        first failing save stops with 507, keeping what was already saved. */
    method Add(item: BusinessDisplay, now: string) returns (status: int)
      requires db.Valid()
      modifies db`businesses, db`users, db`businessUsers, db`saves
      ensures db.Valid()
      ensures old(db.saves) + 1 in db.failing ==>
        status == INSUFFICIENT_STORAGE && db.saves == old(db.saves) + 1 &&
        db.businesses == old(db.businesses) && db.users == old(db.users) && db.businessUsers == old(db.businessUsers)
      ensures old(db.saves) + 1 !in db.failing ==>
        db.businesses == old(db.businesses) + [NewBusiness(old(db.businesses), item)]
      ensures old(db.saves) + 1 !in db.failing && item.owner.None? ==>
        status == CREATED && db.saves == old(db.saves) + 1 &&
        db.users == old(db.users) && db.businessUsers == old(db.businessUsers)
      ensures old(db.saves) + 1 !in db.failing && item.owner.Some? && old(db.saves) + 2 in db.failing ==>
        status == INSUFFICIENT_STORAGE && db.saves == old(db.saves) + 2 &&
        db.users == old(db.users) && db.businessUsers == old(db.businessUsers)
      ensures old(db.saves) + 1 !in db.failing && item.owner.Some? && old(db.saves) + 2 !in db.failing ==>
        var owner := NewOwner(old(db.users), item.owner.value, now);
        db.users == old(db.users) + [owner] && db.saves == old(db.saves) + 3 &&
        (old(db.saves) + 3 in db.failing ==>
           status == INSUFFICIENT_STORAGE && db.businessUsers == old(db.businessUsers)) &&
        (old(db.saves) + 3 !in db.failing ==>
           status == CREATED &&
           db.businessUsers == old(db.businessUsers) +
             [BusinessUserJoin(NextId(old(db.businessUsers), MembershipKey),
                               NextId(old(db.businesses), BusinessKey), owner.userID, 2)])
    {
      var bus := NewBusiness(db.businesses, item);
      var ok := db.SaveChanges();
      if !ok {
        return INSUFFICIENT_STORAGE;
      }
      AppendKeepsUnique(db.businesses, BusinessKey, bus);
      db.businesses := db.businesses + [bus];
      status := CREATED;
      if item.owner.Some? {
        status := AddOwner(bus.businessID, item.owner.value, now);
      }
    }

    /** The owner part of `Add`: the owner as a new user, then the owner's
        membership of business `busID` with role 2, each with its own save. */
    method AddOwner(busID: int, user: User, now: string) returns (status: int)
      requires db.Valid()
      modifies db`users, db`businessUsers, db`saves
      ensures db.Valid()
      ensures old(db.saves) + 1 in db.failing ==>
        status == INSUFFICIENT_STORAGE && db.saves == old(db.saves) + 1 &&
        db.users == old(db.users) && db.businessUsers == old(db.businessUsers)
      ensures old(db.saves) + 1 !in db.failing ==>
        var owner := NewOwner(old(db.users), user, now);
        db.users == old(db.users) + [owner] && db.saves == old(db.saves) + 2 &&
        (old(db.saves) + 2 in db.failing ==>
           status == INSUFFICIENT_STORAGE && db.businessUsers == old(db.businessUsers)) &&
        (old(db.saves) + 2 !in db.failing ==>
           status == CREATED &&
           db.businessUsers == old(db.businessUsers) +
             [BusinessUserJoin(NextId(old(db.businessUsers), MembershipKey), busID, owner.userID, 2)])
    {
      var owner := NewOwner(db.users, user, now);
      var ok := db.SaveChanges();
      if !ok {
        return INSUFFICIENT_STORAGE;
      }
      AppendKeepsUnique(db.users, UserKey, owner);
      db.users := db.users + [owner];
      var join := BusinessUserJoin(NextId(db.businessUsers, MembershipKey), busID, owner.userID, 2);
      ok := db.SaveChanges();
      if !ok {
        return INSUFFICIENT_STORAGE;
      }
      AppendKeepsUnique(db.businessUsers, MembershipKey, join);
      db.businessUsers := db.businessUsers + [join];
      status := CREATED;
    }

    /** `Update`: patch the business with that identifier; a missing
        business is not an error and nothing is written. */
    method Update(item: Business) returns (status: int)
      requires db.Valid()
      modifies db`businesses, db`saves
      ensures db.Valid()
      ensures Common.Find(old(db.businesses), BusinessKey, item.businessID).None? ==>
        status == OK && db.businesses == old(db.businesses) && db.saves == old(db.saves)
      ensures Common.Find(old(db.businesses), BusinessKey, item.businessID).Some? ==>
        var i := Common.Find(old(db.businesses), BusinessKey, item.businessID).value;
        db.saves == old(db.saves) + 1 &&
        (db.saves in db.failing ==> status == INSUFFICIENT_STORAGE && db.businesses == old(db.businesses)) &&
        (db.saves !in db.failing ==>
           status == OK && db.businesses == old(db.businesses)[i := PatchBusiness(old(db.businesses)[i], item)])
    {
      match Common.Find(db.businesses, BusinessKey, item.businessID)
      case None =>
        status := OK;
      case Some(i) =>
        var updated := PatchBusiness(db.businesses[i], item);
        var ok := db.SaveChanges();
        if !ok {
          return INSUFFICIENT_STORAGE;
        }
        ReplaceKeepsUnique(db.businesses, BusinessKey, i, updated);
        db.businesses := db.businesses[i := updated];
        status := OK;
    }

    /** `Remove`: delete the business row only; its memberships, users and
        teams stay where they are. */
    method Remove(id: int) returns (removed: bool, status: int)
      requires db.Valid()
      modifies db`businesses, db`saves
      ensures db.Valid()
      ensures removed <==> status == OK
      ensures (forall b :: b in old(db.businesses) ==> b.businessID != id) ==>
        status == BAD_REQUEST && db.businesses == old(db.businesses) && db.saves == old(db.saves)
      ensures (exists b :: b in old(db.businesses) && b.businessID == id) ==>
        db.saves == old(db.saves) + 1 &&
        (db.saves in db.failing ==> status == INSUFFICIENT_STORAGE && db.businesses == old(db.businesses)) &&
        (db.saves !in db.failing ==>
           status == OK && (forall b :: b in db.businesses <==> b in old(db.businesses) && b.businessID != id))
    {
      match Common.Find(db.businesses, BusinessKey, id)
      case None =>
        return false, BAD_REQUEST;
      case Some(i) =>
        var ok := db.SaveChanges();
        if !ok {
          return false, INSUFFICIENT_STORAGE;
        }
        RemoveAtKeepsUnique(db.businesses, BusinessKey, i);
        RemoveAtElements(db.businesses, i);
        db.businesses := RemoveAt(db.businesses, i);
        return true, OK;
    }
  }
}
