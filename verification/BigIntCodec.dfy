// The replacer and reviver that carry BigInt values through JSON.
module BigIntCodec {
  import opened Prelude

  datatype Json =
    | Null
    | Bool(b: bool)
    | Num(n: real)
    | Str(s: string)
    | Big(value: int)
    | Arr(items: seq<Json>)
    | Obj(fields: seq<Field>)
  datatype Field = Field(key: string, value: Json)

  const BIGINT_TAG := "__bigint"

  // `show` is `BigInt.prototype.toString`, `parse` is `BigInt` of a string, which
  // throws on some strings and reads others than those that `show` makes.
  datatype BigIntText = BigIntText(show: int -> string, parse: string -> Option<int>)

  ghost predicate Faithful(t: BigIntText) {
    forall n :: t.parse(t.show(n)) == Some(n)
  }

  // `JSON.stringify` with the replacer, up to the text.
  function Encode(j: Json, t: BigIntText): Json {
    match j
    case Big(n) => Obj([Field(BIGINT_TAG, Str(t.show(n)))])
    case Arr(items) => Arr(seq(|items|, i requires 0 <= i < |items| => Encode(items[i], t)))
    case Obj(fields) => Obj(seq(|fields|, i requires 0 <= i < |fields| => Field(fields[i].key, Encode(fields[i].value, t))))
    case _ => j
  }

  // What the reviver makes of a value whose members are revived. `None`: it throws,
  // and the cache entry reads as a miss.
  function ReviveOne(j: Json, t: BigIntText): Option<Json> {
    if j.Obj? && |j.fields| == 1 && j.fields[0].key == BIGINT_TAG && j.fields[0].value.Str? then
      var n := t.parse(j.fields[0].value.s);
      if n.None? then None else Some(Big(n.value))
    else Some(j)
  }

  function Revive(j: Json, t: BigIntText): Option<Json> {
    match j
    case Arr(items) =>
      var revived := seq(|items|, i requires 0 <= i < |items| => Revive(items[i], t));
      if exists i | 0 <= i < |items| :: revived[i].None? then None
      else ReviveOne(Arr(seq(|items|, i requires 0 <= i < |items| => revived[i].value)), t)
    case Obj(fields) =>
      var revived := seq(|fields|, i requires 0 <= i < |fields| => Revive(fields[i].value, t));
      if exists i | 0 <= i < |fields| :: revived[i].None? then None
      else ReviveOne(Obj(seq(|fields|, i requires 0 <= i < |fields| => Field(fields[i].key, revived[i].value))), t)
    case _ => ReviveOne(j, t)
  }

  // An object that looks like an encoded BigInt.
  predicate LooksEncoded(j: Json) {
    j.Obj? && |j.fields| == 1 && j.fields[0].key == BIGINT_TAG && j.fields[0].value.Str?
  }

  predicate Unambiguous(j: Json) {
    match j
    case Arr(items) => forall i | 0 <= i < |items| :: Unambiguous(items[i])
    case Obj(fields) => !LooksEncoded(j) && forall i | 0 <= i < |fields| :: Unambiguous(fields[i].value)
    case _ => true
  }

  // Reading back what was written gives the same tree, exactly when no object in
  // it looks like an encoded BigInt.
  lemma {:induction false} RoundTripExactly(j: Json, t: BigIntText)
    requires Faithful(t)
    ensures Revive(Encode(j, t), t) == Some(j) <==> Unambiguous(j)
    decreases j
  {
    match j
    case Arr(items) =>
      forall i | 0 <= i < |items|
        ensures Revive(Encode(items[i], t), t) == Some(items[i]) <==> Unambiguous(items[i])
      {
        RoundTripExactly(items[i], t);
      }
      ArrayRoundTrip(items, t);
    case Obj(fields) =>
      forall i | 0 <= i < |fields|
        ensures Revive(Encode(fields[i].value, t), t) == Some(fields[i].value) <==> Unambiguous(fields[i].value)
      {
        RoundTripExactly(fields[i].value, t);
      }
      ObjectRoundTrip(fields, t);
    case Big(n) =>
      var e := Encode(j, t);
      assert Revive(e.fields[0].value, t) == Some(Str(t.show(n)));
      RevivedAlone(e, t);
    case _ =>
  }

  lemma RevivedAlone(j: Json, t: BigIntText)
    requires LooksEncoded(j)
    ensures Revive(j, t) == ReviveOne(j, t)
  {
  }

  lemma RevivedItems(items: seq<Json>, t: BigIntText) returns (revived: seq<Json>)
    ensures |revived| == |items|
    ensures (exists i | 0 <= i < |items| :: Revive(items[i], t).None?) ==> Revive(Arr(items), t) == None
    ensures (forall i | 0 <= i < |items| :: Revive(items[i], t).Some?) ==>
      Revive(Arr(items), t) == Some(Arr(revived)) && forall i | 0 <= i < |items| ::
        Revive(items[i], t) == Some(revived[i])
  {
    revived := seq(|items|, i requires 0 <= i < |items| => var r := Revive(items[i], t); if r.Some? then r.value else Null);
    if forall i | 0 <= i < |items| :: Revive(items[i], t).Some? {
      assert Revive(Arr(items), t).value.items == revived;
    } else {
      var i :| 0 <= i < |items| && Revive(items[i], t).None?;
      assert seq(|items|, i requires 0 <= i < |items| => Revive(items[i], t))[i].None?;
    }
  }

  lemma RevivedFields(fields: seq<Field>, t: BigIntText) returns (revived: seq<Field>)
    ensures |revived| == |fields|
    ensures (exists i | 0 <= i < |fields| :: Revive(fields[i].value, t).None?) ==> Revive(Obj(fields), t) == None
    ensures (forall i | 0 <= i < |fields| :: Revive(fields[i].value, t).Some?) ==>
      && Revive(Obj(fields), t) == ReviveOne(Obj(revived), t)
      && forall i | 0 <= i < |fields| ::
           revived[i].key == fields[i].key && Revive(fields[i].value, t) == Some(revived[i].value)
  {
    revived := seq(|fields|, i requires 0 <= i < |fields| =>
      Field(fields[i].key, var r := Revive(fields[i].value, t); if r.Some? then r.value else Null));
    if forall i | 0 <= i < |fields| :: Revive(fields[i].value, t).Some? {
      var results := seq(|fields|, i requires 0 <= i < |fields| => Revive(fields[i].value, t));
      assert revived == seq(|fields|, i requires 0 <= i < |fields| => Field(fields[i].key, results[i].value));
    } else {
      var i :| 0 <= i < |fields| && Revive(fields[i].value, t).None?;
      assert seq(|fields|, i requires 0 <= i < |fields| => Revive(fields[i].value, t))[i].None?;
    }
  }

  // Nothing that JSON cannot carry is left.
  predicate HasBig(j: Json) {
    match j
    case Big(_) => true
    case Arr(items) => exists i | 0 <= i < |items| :: HasBig(items[i])
    case Obj(fields) => exists i | 0 <= i < |fields| :: HasBig(fields[i].value)
    case _ => false
  }

  lemma {:induction false} EncodedHasNoBig(j: Json, t: BigIntText)
    ensures !HasBig(Encode(j, t))
    decreases j
  {
    match j
    case Arr(items) =>
      forall i | 0 <= i < |items|
        ensures !HasBig(Encode(j, t).items[i])
      {
        EncodedHasNoBig(items[i], t);
      }
    case Obj(fields) =>
      forall i | 0 <= i < |fields|
        ensures !HasBig(Encode(j, t).fields[i].value)
      {
        EncodedHasNoBig(fields[i].value, t);
      }
    case _ =>
  }

  // An object of the reserved shape is read as a number, or fails where its text is
  // none.
  lemma ReservedShape(text: string, t: BigIntText)
    ensures Revive(Obj([Field("__bigint", Str(text))]), t) ==
      match t.parse(text) case Some(n) => Some(Big(n)) case None => None
  {
    var revived := RevivedFields([Field("__bigint", Str(text))], t);
    assert Revive(Str(text), t) == Some(Str(text));
    assert revived == [Field("__bigint", Str(text))];
  }

  lemma ArrayRoundTrip(items: seq<Json>, t: BigIntText)
    requires forall i | 0 <= i < |items| :: Revive(Encode(items[i], t), t) == Some(items[i]) <==> Unambiguous(items[i])
    ensures Revive(Encode(Arr(items), t), t) == Some(Arr(items)) <==> Unambiguous(Arr(items))
  {
    var e := Encode(Arr(items), t).items;
    var revived := RevivedItems(e, t);
    if Unambiguous(Arr(items)) {
      assert revived == items;
    } else {
      var i :| 0 <= i < |items| && !Unambiguous(items[i]);
      assert Revive(e[i], t) != Some(items[i]);
    }
  }

  lemma ObjectRoundTrip(fields: seq<Field>, t: BigIntText)
    requires forall i | 0 <= i < |fields| :: Revive(Encode(fields[i].value, t), t) == Some(fields[i].value) <==>
      Unambiguous(fields[i].value)
    ensures Revive(Encode(Obj(fields), t), t) == Some(Obj(fields)) <==> Unambiguous(Obj(fields))
  {
    hide Revive, ReviveOne;
    var e := Encode(Obj(fields), t).fields;
    var revived := RevivedFields(e, t);
    RevivedIsKept(Obj(revived), t);
    if forall i | 0 <= i < |fields| :: Unambiguous(fields[i].value) {
      assert forall i | 0 <= i < |fields| :: revived[i] == fields[i];
      assert revived == fields;
    } else {
      var i :| 0 <= i < |fields| && !Unambiguous(fields[i].value);
      assert Revive(e[i].value, t) != Some(fields[i].value);
    }
  }

  lemma RevivedIsKept(j: Json, t: BigIntText)
    ensures if LooksEncoded(j) then ReviveOne(j, t).Some? ==> ReviveOne(j, t).value.Big? else ReviveOne(j, t) == Some(j)
  {
  }
}
