/** Shared vocabulary of the repositories: nullable values, the HTTP-style
    status codes they report, the "max id + 1, or 1 if empty" identifier
    allocation and first-match lookup over a table. */
module Common {

  /** A C# reference or nullable value: `None` is `null`. */
  datatype Option<T> = None | Some(value: T)

  /** A nullable C# string. */
  type Text = Option<string>

  /** What an operation does when the C# code throws instead of returning. */
  datatype Exception = NullReference | DbUpdate
  datatype Fallible<T> = Ok(value: T) | Thrown(exception: Exception)

  /** The `bool` result together with the `out int status` of a check. */
  datatype Check = Check(allowed: bool, status: int)

  const OK: int := 200
  const CREATED: int := 201
  const BAD_REQUEST: int := 400
  const FORBIDDEN: int := 403
  const CONFLICT: int := 409
  const INSUFFICIENT_STORAGE: int := 507

  /** `if (update != null) target = update;` */
  function Overwrite<T>(current: Option<T>, update: Option<T>): (r: Option<T>)
    ensures update.Some? ==> r == update
    ensures update.None? ==> r == current
  {
    if update.Some? then update else current
  }

  /** `if (update != 0) target = update;` */
  function OverwriteNonZero(current: int, update: int): (r: int)
    ensures update != 0 ==> r == update
    ensures update == 0 ==> r == current
  {
    if update != 0 then update else current
  }

  /** The largest key of a non-empty table (`OrderByDescending(key).First()`). */
  function MaxOf<R>(rows: seq<R>, key: R -> int): (m: int)
    requires |rows| > 0
    ensures forall i :: 0 <= i < |rows| ==> key(rows[i]) <= m
    ensures exists i :: 0 <= i < |rows| && key(rows[i]) == m
  {
    if |rows| == 1 then key(rows[0])
    else
      var m' := MaxOf(rows[..|rows| - 1], key);
      assert forall i :: 0 <= i < |rows| - 1 ==> rows[..|rows| - 1][i] == rows[i];
      if key(rows[|rows| - 1]) > m' then key(rows[|rows| - 1]) else m'
  }

  /** The identifier every repository gives a new row: the largest existing
      key plus one, or 1 when the table is empty. */
  function NextId<R>(rows: seq<R>, key: R -> int): (id: int)
    ensures forall i :: 0 <= i < |rows| ==> key(rows[i]) < id
    ensures |rows| == 0 ==> id == 1
    ensures |rows| > 0 ==> exists i :: 0 <= i < |rows| && key(rows[i]) == id - 1
  {
    if |rows| == 0 then 1 else MaxOf(rows, key) + 1
  }

  /** Appending the row that received `NextId` moves the next identifier on by one. */
  lemma {:induction false} NextIdAfterAppend<R>(rows: seq<R>, key: R -> int, r: R)
    requires key(r) == NextId(rows, key)
    ensures NextId(rows + [r], key) == key(r) + 1
  {
    var s := rows + [r];
    assert s[|s| - 1] == r;
    var n := NextId(s, key);
    assert key(r) < n;
    forall j | 0 <= j < |s| ensures key(s[j]) <= key(r) {
      if j < |rows| { assert s[j] == rows[j]; }
    }
  }

  /** Keys `1, 2, ..., |rows|` in table order. */
  ghost predicate Consecutive<R>(rows: seq<R>, key: R -> int)
  {
    forall i :: 0 <= i < |rows| ==> key(rows[i]) == i + 1
  }

  /** Serialized creates against an initially empty table yield ids 1..N
      without collisions: each create keeps the keys consecutive. */
  lemma {:induction false} CreatesStayConsecutive<R>(rows: seq<R>, key: R -> int, r: R)
    requires Consecutive(rows, key)
    requires key(r) == NextId(rows, key)
    ensures Consecutive(rows + [r], key)
  {
    if |rows| > 0 {
      var i :| 0 <= i < |rows| && key(rows[i]) == NextId(rows, key) - 1;
      assert key(rows[|rows| - 1]) == |rows|;
      assert NextId(rows, key) == |rows| + 1;
    }
    var s := rows + [r];
    forall i | 0 <= i < |s| ensures key(s[i]) == i + 1 {
      if i < |rows| { assert s[i] == rows[i]; }
    }
  }

  /** No two rows share a key. */
  ghost predicate UniqueKeys<R, K>(rows: seq<R>, key: R -> K)
  {
    forall i, j :: 0 <= i < j < |rows| ==> key(rows[i]) != key(rows[j])
  }

  /** Index of the first row whose key is `k` (`FirstOrDefault`, and
      `SingleOrDefault` when keys are unique). */
  function Find<R, K(==)>(rows: seq<R>, key: R -> K, k: K): (r: Option<nat>)
    ensures r.Some? ==> r.value < |rows| && key(rows[r.value]) == k
    ensures r.Some? ==> forall i :: 0 <= i < r.value ==> key(rows[i]) != k
    ensures r.None? <==> forall i :: 0 <= i < |rows| ==> key(rows[i]) != k
  {
    if |rows| == 0 then None
    else if key(rows[0]) == k then Some(0)
    else
      match Find(rows[1..], key, k)
      case None => None
      case Some(i) => Some(i + 1)
  }

  /** With unique keys the first match is the only match. */
  lemma FindUnique<R, K>(rows: seq<R>, key: R -> K, k: K, i: nat)
    requires UniqueKeys(rows, key)
    requires i < |rows| && key(rows[i]) == k
    ensures Find(rows, key, k) == Some(i)
  {
  }

  /** A row of a prefix is a row of the whole. */
  lemma PrefixMembers<T>(a: seq<T>, b: seq<T>, x: T)
    requires a <= b && x in a
    ensures x in b
  {
    var i :| 0 <= i < |a| && a[i] == x;
    assert b[i] == x;
  }

  /** `f` applied to every element, in order. */
  function MapAll<A, B>(xs: seq<A>, f: A -> B): (r: seq<B>)
    ensures |r| == |xs|
  {
    if |xs| == 0 then [] else MapAll(xs[..|xs| - 1], f) + [f(xs[|xs| - 1])]
  }

  /** Each position holds `f` of the element at that position. */
  lemma {:induction false} MapAllAt<A, B>(xs: seq<A>, f: A -> B)
    ensures forall i :: 0 <= i < |xs| ==> MapAll(xs, f)[i] == f(xs[i])
  {
    if |xs| > 0 {
      var front := xs[..|xs| - 1];
      MapAllAt(front, f);
      assert forall i :: 0 <= i < |front| ==> front[i] == xs[i];
    }
  }

  /** The values listed are exactly `f` of the elements. */
  lemma MapAllMembers<A, B>(xs: seq<A>, f: A -> B)
    ensures forall y :: y in MapAll(xs, f) <==> exists x :: x in xs && y == f(x)
  {
    var list := MapAll(xs, f);
    MapAllAt(xs, f);
    forall y | y in list ensures exists x :: x in xs && y == f(x) {
      var k :| 0 <= k < |list| && list[k] == y;
      assert xs[k] in xs;
    }
    forall x | x in xs ensures f(x) in list {
      var k :| 0 <= k < |xs| && xs[k] == x;
      assert list[k] == f(x);
    }
  }

  lemma MapAllStep<A, B>(xs: seq<A>, f: A -> B, i: nat)
    requires i < |xs|
    ensures MapAll(xs[..i + 1], f) == MapAll(xs[..i], f) + [f(xs[i])]
  {
    assert xs[..i + 1][..i] == xs[..i];
  }

  /** Builds a list from results computed one at a time, stopping at the
      first exception, which it passes on. */
  function Collect<T>(xs: seq<Fallible<T>>): (r: Fallible<seq<T>>)
  {
    if |xs| == 0 then Ok([])
    else
      match Collect(xs[..|xs| - 1])
      case Thrown(e) => Thrown(e)
      case Ok(list) =>
        match xs[|xs| - 1]
        case Thrown(e) => Thrown(e)
        case Ok(x) => Ok(list + [x])
  }

  /** A list comes out exactly when every result is a value, and then it holds
      those values in order; otherwise the exception is one of the results'. */
  lemma {:induction false} CollectFacts<T>(xs: seq<Fallible<T>>)
    ensures Collect(xs).Ok? <==> forall i :: 0 <= i < |xs| ==> xs[i].Ok?
    ensures Collect(xs).Ok? ==> |Collect(xs).value| == |xs|
    ensures Collect(xs).Ok? ==> forall i :: 0 <= i < |xs| ==> Collect(xs).value[i] == xs[i].value
    ensures Collect(xs).Thrown? ==> exists i :: 0 <= i < |xs| && xs[i] == Thrown(Collect(xs).exception)
  {
    if |xs| > 0 {
      var n := |xs| - 1;
      var front := xs[..n];
      CollectFacts(front);
      assert forall i :: 0 <= i < n ==> front[i] == xs[i];
      if Collect(front).Thrown? {
        var i :| 0 <= i < n && front[i] == Thrown(Collect(front).exception);
        assert xs[i] == front[i];
      } else if xs[n].Ok? {
        var list := Collect(front).value;
        assert Collect(xs).value == list + [xs[n].value];
      }
    }
  }

  /** One more result. */
  lemma CollectSnoc<T>(xs: seq<Fallible<T>>, x: Fallible<T>)
    ensures Collect(xs + [x]) ==
      match Collect(xs)
      case Thrown(e) => Thrown(e)
      case Ok(list) => (match x case Thrown(e) => Thrown(e) case Ok(v) => Ok(list + [v]))
  {
    assert (xs + [x])[..|xs|] == xs;
  }

  /** The rows whose key is `k`, in table order (`Where(r => key(r) == k).ToList()`). */
  function Where<R(!new), K(==)>(rows: seq<R>, key: R -> K, k: K): (r: seq<R>)
    ensures |r| <= |rows|
    ensures forall x :: x in r <==> x in rows && key(x) == k
  {
    if |rows| == 0 then []
    else
      assert forall x :: x in rows <==> x == rows[0] || x in rows[1..];
      (if key(rows[0]) == k then [rows[0]] else []) + Where(rows[1..], key, k)
  }

  /** The rows whose key is not `k`: what is left after removing every row with key `k`. */
  function Without<R(!new), K(==)>(rows: seq<R>, key: R -> K, k: K): (r: seq<R>)
    ensures |r| <= |rows|
    ensures forall x :: x in r <==> x in rows && key(x) != k
  {
    if |rows| == 0 then []
    else
      assert forall x :: x in rows <==> x == rows[0] || x in rows[1..];
      (if key(rows[0]) != k then [rows[0]] else []) + Without(rows[1..], key, k)
  }

  /** The table without the first row whose key is `k`, if there is one
      (EF's `Remove` of the entity that `SingleOrDefault` returned). */
  function DeleteKey<R(!new), K(==)>(rows: seq<R>, key: R -> K, k: K): (r: seq<R>)
    ensures forall x :: x in r ==> x in rows
    ensures Find(rows, key, k).None? ==> r == rows
    ensures Find(rows, key, k).Some? ==> r == RemoveAt(rows, Find(rows, key, k).value)
  {
    match Find(rows, key, k)
    case None => rows
    case Some(i) => RemoveAtElements(rows, i); RemoveAt(rows, i)
  }

  /** The table without the row at index `i` (EF's `Remove` of that entity). */
  function RemoveAt<R>(rows: seq<R>, i: nat): (r: seq<R>)
    requires i < |rows|
    ensures |r| == |rows| - 1
    ensures forall j :: 0 <= j < i ==> r[j] == rows[j]
    ensures forall j :: i <= j < |r| ==> r[j] == rows[j + 1]
  {
    rows[..i] + rows[i + 1..]
  }

  lemma {:induction false} RemoveAtKeepsUnique<R, K>(rows: seq<R>, key: R -> K, i: nat)
    requires i < |rows| && UniqueKeys(rows, key)
    ensures UniqueKeys(RemoveAt(rows, i), key)
    ensures forall j :: 0 <= j < |RemoveAt(rows, i)| ==> key(RemoveAt(rows, i)[j]) != key(rows[i])
  {
    var r := RemoveAt(rows, i);
    forall a, b | 0 <= a < b < |r| ensures key(r[a]) != key(r[b]) {
      var a' := if a < i then a else a + 1;
      var b' := if b < i then b else b + 1;
      assert r[a] == rows[a'] && r[b] == rows[b'];
    }
    forall j | 0 <= j < |r| ensures key(r[j]) != key(rows[i]) {
      var j' := if j < i then j else j + 1;
      assert r[j] == rows[j'];
    }
  }

  /** Removing the row at `i` keeps every other row and adds none. */
  lemma {:induction false} RemoveAtElements<R>(rows: seq<R>, i: nat)
    requires i < |rows|
    ensures forall x :: x in RemoveAt(rows, i) ==> x in rows
    ensures forall x :: x in rows && x != rows[i] ==> x in RemoveAt(rows, i)
  {
    var r := RemoveAt(rows, i);
    forall x | x in r ensures x in rows {
      var j :| 0 <= j < |r| && r[j] == x;
      assert rows[if j < i then j else j + 1] == x;
    }
    forall x | x in rows && x != rows[i] ensures x in r {
      var j :| 0 <= j < |rows| && rows[j] == x;
      assert r[if j < i then j else j - 1] == x;
    }
  }

  /** Appending a row whose key is new keeps keys unique. */
  lemma {:induction false} AppendKeepsUnique<R, K>(rows: seq<R>, key: R -> K, r: R)
    requires UniqueKeys(rows, key)
    requires forall i :: 0 <= i < |rows| ==> key(rows[i]) != key(r)
    ensures UniqueKeys(rows + [r], key)
  {
    var s := rows + [r];
    forall a, b | 0 <= a < b < |s| ensures key(s[a]) != key(s[b]) {
      assert s[a] == rows[a];
      if b < |rows| { assert s[b] == rows[b]; }
    }
  }

  /** Replacing a row by one with the same key keeps keys unique. */
  lemma {:induction false} ReplaceKeepsUnique<R, K>(rows: seq<R>, key: R -> K, i: nat, r: R)
    requires i < |rows| && UniqueKeys(rows, key) && key(r) == key(rows[i])
    ensures UniqueKeys(rows[i := r], key)
  {
    var s := rows[i := r];
    forall a, b | 0 <= a < b < |s| ensures key(s[a]) != key(s[b]) {
      assert key(s[a]) == key(rows[a]) && key(s[b]) == key(rows[b]);
    }
  }

  /** A multi-step write in progress: the state reached so far, how many
      `SaveChanges` calls have been made, and whether one of them failed
      (after which every remaining step is skipped). */
  datatype Progress<T> = Progress(state: T, saves: nat, failed: bool)

  /** One `SaveChanges` that commits `next` unless its ordinal is in `failing`. */
  function Save<T>(p: Progress<T>, next: T, failing: set<nat>): (r: Progress<T>)
    ensures p.failed ==> r == p
    ensures !p.failed ==> r.saves == p.saves + 1 && r.failed == (p.saves + 1 in failing)
    ensures !p.failed && !r.failed ==> r.state == next
    ensures r.failed && !p.failed ==> r.state == p.state
  {
    if p.failed then p
    else if p.saves + 1 in failing then Progress(p.state, p.saves + 1, true)
    else Progress(next, p.saves + 1, false)
  }

  /** Deleting the listed rows one at a time, each followed by its own
      `SaveChanges`; after a failing save the remaining rows are left alone. */
  function DeleteEach<R(!new), K(==)>(p: Progress<seq<R>>, key: R -> K, doomed: seq<R>, failing: set<nat>): (r: Progress<seq<R>>)
    ensures p.failed ==> r == p
    ensures !r.failed ==> r.saves == p.saves + |doomed|
    decreases |doomed|
  {
    if |doomed| == 0 then p
    else DeleteEach(Save(p, DeleteKey(p.state, key, key(doomed[0])), failing), key, doomed[1..], failing)
  }

  /** `DeleteEach` on a list with a first element: that row goes first. */
  lemma DeleteEachCons<R(!new), K>(p: Progress<seq<R>>, key: R -> K, x: R, rest: seq<R>, failing: set<nat>)
    ensures DeleteEach(p, key, [x] + rest, failing) ==
      DeleteEach(Save(p, DeleteKey(p.state, key, key(x)), failing), key, rest, failing)
  {
    assert ([x] + rest)[0] == x && ([x] + rest)[1..] == rest;
  }

  /** `Where` on a suffix: the first row of the suffix, then the rest. */
  lemma WhereFrom<R(!new), K>(rows: seq<R>, key: R -> K, k: K, i: nat)
    requires i < |rows|
    ensures Where(rows[i..], key, k) == (if key(rows[i]) == k then [rows[i]] else []) + Where(rows[i + 1..], key, k)
  {
    assert rows[i..][0] == rows[i] && rows[i..][1..] == rows[i + 1..];
  }

  /** When keys are unique and every listed row is in the table, the listed
      rows are exactly the ones that go: nothing else is lost, nothing is
      added, keys stay unique, and if no save failed none of them is left. */
  lemma {:induction false} DeleteEachRemoves<R(!new), K>(p: Progress<seq<R>>, key: R -> K, doomed: seq<R>, failing: set<nat>)
    requires UniqueKeys(p.state, key) && UniqueKeys(doomed, key)
    requires forall d :: d in doomed ==> d in p.state
    ensures var r := DeleteEach(p, key, doomed, failing);
      && UniqueKeys(r.state, key)
      && (forall x :: x in r.state ==> x in p.state)
      && (forall x :: x in p.state && x !in doomed ==> x in r.state)
      && (!r.failed ==> forall x :: x in doomed ==> x !in r.state)
    decreases |doomed|
  {
    if |doomed| > 0 {
      var d := doomed[0];
      assert d in doomed;
      var i :| 0 <= i < |p.state| && p.state[i] == d;
      FindUnique(p.state, key, key(d), i);
      RemoveAtKeepsUnique(p.state, key, i);
      RemoveAtElements(p.state, i);
      var next := DeleteKey(p.state, key, key(d));
      assert d !in next;
      var p1 := Save(p, next, failing);
      var rest := doomed[1..];
      forall e | e in rest ensures e in p1.state {
        var k :| 0 <= k < |rest| && rest[k] == e;
        assert doomed[k + 1] == e;
      }
      assert UniqueKeys(rest, key) by {
        forall a, b | 0 <= a < b < |rest| ensures key(rest[a]) != key(rest[b]) {
          assert rest[a] == doomed[a + 1] && rest[b] == doomed[b + 1];
        }
      }
      DeleteEachRemoves(p1, key, rest, failing);
      assert forall x :: x in doomed <==> x == d || x in rest;
    }
  }

  /** With unique keys, the first match of a key is every match of it. */
  lemma FindUniqueAll<R, K>(rows: seq<R>, key: R -> K, k: K)
    requires UniqueKeys(rows, key)
    ensures forall i :: 0 <= i < |rows| && key(rows[i]) == k ==> Find(rows, key, k) == Some(i)
  {
    forall i | 0 <= i < |rows| && key(rows[i]) == k ensures Find(rows, key, k) == Some(i) {
      FindUnique(rows, key, k, i);
    }
  }

  /** The rows after the first of a table with unique keys have unique
      keys, none of them the first row's. */
  lemma TailKeepsUnique<R, L>(rows: seq<R>, id: R -> L)
    requires |rows| > 0 && UniqueKeys(rows, id)
    ensures UniqueKeys(rows[1..], id)
    ensures forall x :: x in rows[1..] ==> id(x) != id(rows[0])
  {
    var tail := rows[1..];
    forall a, b | 0 <= a < b < |tail| ensures id(tail[a]) != id(tail[b]) {
      assert tail[a] == rows[a + 1] && tail[b] == rows[b + 1];
    }
    forall x | x in tail ensures id(x) != id(rows[0]) {
      var j :| 0 <= j < |tail| && tail[j] == x;
      assert rows[j + 1] == x;
    }
  }

  /** A row put in front of rows with unique keys, none of them its own. */
  lemma ConsKeepsUnique<R, L>(x: R, rest: seq<R>, id: R -> L)
    requires UniqueKeys(rest, id) && forall y :: y in rest ==> id(y) != id(x)
    ensures UniqueKeys([x] + rest, id)
  {
    var s := [x] + rest;
    forall a, b | 0 <= a < b < |s| ensures id(s[a]) != id(s[b]) {
      assert s[b] == rest[b - 1];
      if a > 0 {
        assert s[a] == rest[a - 1];
      } else {
        assert rest[b - 1] in rest;
      }
    }
  }

  /** Keeping the rows with a given key keeps a table's keys unique. */
  lemma {:induction false} WhereKeepsUnique<R(!new), K, L>(rows: seq<R>, key: R -> K, k: K, id: R -> L)
    requires UniqueKeys(rows, id)
    ensures UniqueKeys(Where(rows, key, k), id)
  {
    if |rows| > 0 {
      TailKeepsUnique(rows, id);
      WhereKeepsUnique(rows[1..], key, k, id);
      if key(rows[0]) == k {
        ConsKeepsUnique(rows[0], Where(rows[1..], key, k), id);
      } else {
        assert Where(rows, key, k) == [] + Where(rows[1..], key, k);
      }
    }
  }

  /** Dropping the rows with a given key keeps a table's keys unique. */
  lemma {:induction false} WithoutKeepsUnique<R(!new), K, L>(rows: seq<R>, key: R -> K, k: K, id: R -> L)
    requires UniqueKeys(rows, id)
    ensures UniqueKeys(Without(rows, key, k), id)
  {
    if |rows| > 0 {
      TailKeepsUnique(rows, id);
      WithoutKeepsUnique(rows[1..], key, k, id);
      if key(rows[0]) != k {
        ConsKeepsUnique(rows[0], Without(rows[1..], key, k), id);
      } else {
        assert Without(rows, key, k) == [] + Without(rows[1..], key, k);
      }
    }
  }
}
