/** The query-by-example filter behind every `GetSelect`: a display object
    sent by the client is compared, property by property, with the display
    built for each row. Reflection over the display type is replaced by an
    explicit list of field descriptors, one per public property. */
module Filter {
  import opened Common

  /** A property value as `PropertyInfo.GetValue` returns it. */
  datatype FieldValue =
    | Null              // a null reference
    | Num(n: int)       // a boxed Int64
    | Str(s: string)    // a string
    | Obj               // any other object (a user, a list, a position)

  /** One property: its value on the query, its value on the row's display,
      and whether the property carries the `BlackListed` attribute. */
  datatype Field = Field(query: FieldValue, entity: FieldValue, blacklisted: bool)

  /** A nullable string property. */
  function TextValue(t: Text): (v: FieldValue)
    ensures v == Null <==> t.None?
  {
    match t
    case None => Null
    case Some(s) => Str(s)
  }

  /** A nullable property of a reference type. */
  function ObjValue<T>(o: Option<T>): (v: FieldValue)
    ensures v == Null <==> o.None?
  {
    if o.Some? then Obj else Null
  }

  /** `GetValue(item) != null && !GetValue(item).ToString().Equals("0")`:
      a boxed 0 and the string "0" impose nothing, and an object's
      `ToString` is its type name, never "0". */
  predicate Constrains(q: FieldValue)
  {
    match q
    case Null => false
    case Num(n) => n != 0
    case Str(s) => s != "0"
    case Obj => true
  }

  /** `GetValue(disp).Equals(GetValue(item))` for a non-null row value.
      Objects compare by reference, and the row's objects are never the
      ones the client sent, so they never compare equal. */
  predicate SameValue(e: FieldValue, q: FieldValue)
  {
    match (e, q)
    case (Num(a), Num(b)) => a == b
    case (Str(a), Str(b)) => a == b
    case _ => false
  }

  /** The condition one property places on a row. */
  predicate FieldAccepts(f: Field)
  {
    !Constrains(f.query) || (!f.blacklisted && f.entity != Null && SameValue(f.entity, f.query))
  }

  /** A row matches when every property accepts it. */
  predicate Accepts(fields: seq<Field>)
  {
    forall i :: 0 <= i < |fields| ==> FieldAccepts(fields[i])
  }

  /** The inner `foreach` over the properties, with its `match` flag and
      the `break` at the first property that rejects the row. */
  method MatchFields(fields: seq<Field>) returns (matched: bool)
    ensures matched <==> forall i :: 0 <= i < |fields| && Constrains(fields[i].query) ==>
                           !fields[i].blacklisted && fields[i].entity != Null &&
                           SameValue(fields[i].entity, fields[i].query)
    ensures matched == Accepts(fields)
  {
    matched := true;
    var i := 0;
    while i < |fields|
      invariant 0 <= i <= |fields|
      invariant forall k :: 0 <= k < i ==> FieldAccepts(fields[k])
    {
      var f := fields[i];
      if Constrains(f.query) {
        if f.blacklisted {
          matched := false;
          break;
        }
        if f.entity == Null {
          matched := false;
          break;
        }
        if !SameValue(f.entity, f.query) {
          matched := false;
          break;
        }
      }
      i := i + 1;
    }
  }

  /** A nullable string property of the query imposes its value unless it
      is null or the text "0". */
  predicate TextAgrees(q: Text, e: Text)
  {
    q.None? || q == Some("0") || e == q
  }

  /** The condition a string property places on a row. */
  lemma TextField(q: Text, e: Text)
    ensures FieldAccepts(Field(TextValue(q), TextValue(e), false)) <==> TextAgrees(q, e)
  {
  }

  /** The condition an Int64 property places on a row: a 0 in the query
      imposes nothing. */
  lemma NumField(q: int, e: int)
    ensures FieldAccepts(Field(Num(q), Num(e), false)) <==> q == 0 || e == q
  {
  }

  /** A reference-typed property set in the query rejects every row. */
  lemma ObjField<T>(q: Option<T>, e: Option<T>)
    ensures FieldAccepts(Field(ObjValue(q), ObjValue(e), false)) <==> q.None?
  {
  }

  /** A query none of whose properties constrains matches every row. */
  lemma UnconstrainedAccepts(fields: seq<Field>)
    requires forall i :: 0 <= i < |fields| ==> !Constrains(fields[i].query)
    ensures Accepts(fields)
  {
  }

  /** A constraint on a blacklisted property matches no row at all. */
  lemma BlacklistedRejects(fields: seq<Field>, i: nat)
    requires i < |fields| && Constrains(fields[i].query) && fields[i].blacklisted
    ensures !Accepts(fields)
  {
  }
}
