// Data types and functions shared by the models.
module Prelude {
  datatype Option<+T> = None | Some(value: T)

  function Elems<T>(s: seq<T>): set<T> {
    set x | x in s
  }

  lemma ElemsPush<T>(s: seq<T>, x: T)
    ensures Elems(s + [x]) == Elems(s) + {x}
    ensures x in s ==> Elems(s) == Elems(s) + {x}
  {
  }

  lemma ElemsSnoc<T>(s: seq<T>, i: nat)
    requires i < |s|
    ensures Elems(s[..i + 1]) == Elems(s[..i]) + {s[i]}
  {
  }

  // A `Map` of the source: its entries in the order of first insertion.
  datatype Table<V> = Table(order: seq<string>, at: map<string, V>)

  function Put<V>(t: Table<V>, key: string, value: V): Table<V> {
    Table(if key in t.at then t.order else t.order + [key], t.at[key := value])
  }

  ghost predicate Ordered<V>(t: Table<V>) {
    (forall i, j | 0 <= i < j < |t.order| :: t.order[i] != t.order[j]) && forall k :: k in t.order <==> k in t.at
  }

  lemma PutOrdered<V>(t: Table<V>, key: string, value: V)
    requires Ordered(t)
    ensures Ordered(Put(t, key, value))
  {
  }

  lemma EmptyOrdered<V>()
    ensures var t: Table<V> := Table([], map[]); Ordered(t)
  {
  }
}
