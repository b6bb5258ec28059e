// A JavaScript Map from strings that is only ever added to: entries keep the order in which their keys
// were first seen, and adding under a known key combines the values.
module Accumulate {
  import opened Wrappers

  datatype Slot<V> = Slot(key: string, value: V)

  function AddInto<V>(slots: seq<Slot<V>>, key: string, value: V, plus: (V, V) -> V): seq<Slot<V>> {
    if slots == [] then [Slot(key, value)]
    else if slots[0].key == key then [Slot(key, plus(slots[0].value, value))] + slots[1..]
    else [slots[0]] + AddInto(slots[1..], key, value, plus)
  }

  function At<V>(slots: seq<Slot<V>>, key: string): Option<V> {
    if slots == [] then None
    else if slots[0].key == key then Some(slots[0].value)
    else At(slots[1..], key)
  }

  predicate DistinctKeys<V>(slots: seq<Slot<V>>) {
    forall i, j :: 0 <= i < j < |slots| ==> slots[i].key != slots[j].key
  }

  lemma AddShape<V>(slots: seq<Slot<V>>, key: string, value: V, plus: (V, V) -> V, k: string)
    ensures At(AddInto(slots, key, value, plus), k)
         == if k != key then At(slots, k)
            else if At(slots, k).Some? then Some(plus(At(slots, k).value, value)) else Some(value)
    ensures forall s :: s in AddInto(slots, key, value, plus) ==> s.key == key || s in slots
    ensures DistinctKeys(slots) ==> DistinctKeys(AddInto(slots, key, value, plus))
  {
    hide At, AddInto, DistinctKeys;
    AddAt(slots, key, value, plus, k);
    AddMembers(slots, key, value, plus);
    if DistinctKeys(slots) { AddDistinct(slots, key, value, plus); }
  }

  lemma {:induction false} AddAt<V>(slots: seq<Slot<V>>, key: string, value: V, plus: (V, V) -> V, k: string)
    ensures At(AddInto(slots, key, value, plus), k)
         == if k != key then At(slots, k)
            else if At(slots, k).Some? then Some(plus(At(slots, k).value, value)) else Some(value)
  {
    if slots != [] {
      AddAt(slots[1..], key, value, plus, k);
      if slots[0].key == key {
        assert ([Slot(key, plus(slots[0].value, value))] + slots[1..])[1..] == slots[1..];
      } else {
        var rest := AddInto(slots[1..], key, value, plus);
        assert ([slots[0]] + rest)[1..] == rest;
      }
    }
  }

  lemma {:induction false} AddMembers<V>(slots: seq<Slot<V>>, key: string, value: V, plus: (V, V) -> V)
    ensures forall s :: s in AddInto(slots, key, value, plus) ==> s.key == key || s in slots
  {
    if slots != [] { AddMembers(slots[1..], key, value, plus); }
  }

  lemma {:induction false} AddDistinct<V>(slots: seq<Slot<V>>, key: string, value: V, plus: (V, V) -> V)
    requires DistinctKeys(slots)
    ensures DistinctKeys(AddInto(slots, key, value, plus))
  {
    if slots != [] && slots[0].key != key {
      var rest := AddInto(slots[1..], key, value, plus);
      AddDistinct(slots[1..], key, value, plus);
      AddMembers(slots[1..], key, value, plus);
      forall j | 0 <= j < |rest| ensures rest[j].key != slots[0].key { assert rest[j] in rest; }
    }
  }

  lemma {:induction false} AtIsMember<V>(slots: seq<Slot<V>>, k: nat)
    requires DistinctKeys(slots) && k < |slots|
    ensures At(slots, slots[k].key) == Some(slots[k].value)
  {
    if k > 0 { AtIsMember(slots[1..], k - 1); }
  }

  lemma {:induction false} AtHasSlot<V>(slots: seq<Slot<V>>, key: string)
    requires At(slots, key).Some?
    ensures exists k :: 0 <= k < |slots| && slots[k] == Slot(key, At(slots, key).value)
  {
    if slots[0].key != key {
      AtHasSlot(slots[1..], key);
      var k :| 0 <= k < |slots[1..]| && slots[1..][k] == Slot(key, At(slots, key).value);
      assert slots[k + 1] == Slot(key, At(slots, key).value);
    } else {
      assert slots[0] == Slot(key, At(slots, key).value);
    }
  }

  function AddAll<V>(slots: seq<Slot<V>>, entries: seq<Slot<V>>, plus: (V, V) -> V): seq<Slot<V>>
    decreases |entries|
  {
    if entries == [] then slots else AddAll(AddInto(slots, entries[0].key, entries[0].value, plus), entries[1..], plus)
  }

  // The source's loop: `existing += x` or a new entry at the end.
  method AddLoop<V>(entries: seq<Slot<V>>, plus: (V, V) -> V) returns (slots: seq<Slot<V>>)
    ensures slots == AddAll([], entries, plus)
  {
    slots := [];
    var i := 0;
    while i < |entries|
      invariant 0 <= i <= |entries|
      invariant AddAll(slots, entries[i..], plus) == AddAll([], entries, plus)
    {
      assert entries[i..][0] == entries[i] && entries[i..][1..] == entries[i + 1..];
      slots := AddInto(slots, entries[i].key, entries[i].value, plus);
      i := i + 1;
    }
  }

  function Any(): string -> bool { (k: string) => true }

  function Only(key: string): string -> bool { (k: string) => k == key }

  // The sizes of the entries under the keys `picked`, added up.
  function Amount<V>(entries: seq<Slot<V>>, picked: string -> bool, size: V -> real): real {
    if entries == [] then 0.0
    else (if picked(entries[0].key) then size(entries[0].value) else 0.0) + Amount(entries[1..], picked, size)
  }

  ghost predicate Additive<V(!new)>(plus: (V, V) -> V, size: V -> real) {
    forall a, b :: size(plus(a, b)) == size(a) + size(b)
  }

  lemma {:induction false} AddAmount<V(!new)>(slots: seq<Slot<V>>, key: string, value: V, plus: (V, V) -> V,
                                              size: V -> real, picked: string -> bool)
    requires Additive(plus, size)
    ensures Amount(AddInto(slots, key, value, plus), picked, size)
         == Amount(slots, picked, size) + if picked(key) then size(value) else 0.0
  {
    if slots == [] {
      assert [Slot(key, value)][1..] == [];
    } else if slots[0].key == key {
      assert ([Slot(key, plus(slots[0].value, value))] + slots[1..])[1..] == slots[1..];
    } else {
      AddAmount(slots[1..], key, value, plus, size, picked);
      var rest := AddInto(slots[1..], key, value, plus);
      assert ([slots[0]] + rest)[1..] == rest;
    }
  }

  // Adding up by key loses nothing, in all and key by key, and leaves each key once.
  lemma {:induction false} AddAllConserves<V(!new)>(slots: seq<Slot<V>>, entries: seq<Slot<V>>, plus: (V, V) -> V,
                                                    size: V -> real, picked: string -> bool)
    requires Additive(plus, size) && DistinctKeys(slots)
    ensures DistinctKeys(AddAll(slots, entries, plus))
    ensures Amount(AddAll(slots, entries, plus), picked, size)
         == Amount(slots, picked, size) + Amount(entries, picked, size)
    decreases |entries|
  {
    if entries != [] {
      var e := entries[0];
      AddShape(slots, e.key, e.value, plus, e.key);
      AddAmount(slots, e.key, e.value, plus, size, picked);
      AddAllConserves(AddInto(slots, e.key, e.value, plus), entries[1..], plus, size, picked);
    }
  }

  lemma {:induction false} AddAllKeys<V>(slots: seq<Slot<V>>, entries: seq<Slot<V>>, plus: (V, V) -> V, k: string)
    ensures At(AddAll(slots, entries, plus), k).Some?
       <==> At(slots, k).Some? || exists i :: 0 <= i < |entries| && entries[i].key == k
    decreases |entries|
  {
    if entries != [] {
      AddShape(slots, entries[0].key, entries[0].value, plus, k);
      AddAllKeys(AddInto(slots, entries[0].key, entries[0].value, plus), entries[1..], plus, k);
      if i :| 0 <= i < |entries| && entries[i].key == k {
        assert i > 0 ==> entries[1..][i - 1].key == k;
      }
    }
  }

  lemma {:induction false} AtNone<V>(slots: seq<Slot<V>>, k: string)
    requires forall j :: 0 <= j < |slots| ==> slots[j].key != k
    ensures At(slots, k).None?
  {
    if slots != [] { AtNone(slots[1..], k); }
  }

  lemma {:induction false} AmountAt<V>(slots: seq<Slot<V>>, k: string, size: V -> real)
    requires DistinctKeys(slots)
    ensures Amount(slots, Only(k), size) == if At(slots, k).Some? then size(At(slots, k).value) else 0.0
  {
    if slots != [] {
      AmountAt(slots[1..], k, size);
      if slots[0].key == k { AtNone(slots[1..], k); }
    }
  }

  function Values<V>(slots: seq<Slot<V>>): seq<V> {
    seq(|slots|, k requires 0 <= k < |slots| => slots[k].value)
  }

  lemma {:induction false} AddAllSnoc<V>(slots: seq<Slot<V>>, entries: seq<Slot<V>>, e: Slot<V>, plus: (V, V) -> V)
    ensures AddAll(slots, entries + [e], plus) == AddInto(AddAll(slots, entries, plus), e.key, e.value, plus)
    decreases |entries|
  {
    if entries == [] {
      assert (entries + [e])[1..] == [];
    } else {
      assert (entries + [e])[1..] == entries[1..] + [e];
      AddAllSnoc(AddInto(slots, entries[0].key, entries[0].value, plus), entries[1..], e, plus);
    }
  }

  // ---------- the order of the keys ----------

  // Where a key first stands; |entries| when nowhere.
  function FirstPlace<V>(entries: seq<Slot<V>>, key: string): (p: nat)
    ensures p <= |entries| && (p < |entries| ==> entries[p].key == key)
  {
    if entries == [] || entries[0].key == key then 0 else 1 + FirstPlace(entries[1..], key)
  }

  lemma {:induction false} PlaceSnoc<V>(entries: seq<Slot<V>>, e: Slot<V>, key: string)
    ensures FirstPlace(entries + [e], key)
         == if FirstPlace(entries, key) < |entries| then FirstPlace(entries, key)
            else if e.key == key then |entries| else |entries| + 1
  {
    if entries == [] {
      assert (entries + [e])[1..] == [];
    } else {
      PlaceSnoc(entries[1..], e, key);
      assert (entries + [e])[1..] == entries[1..] + [e];
    }
  }

  // A known key keeps its place and a new one comes last.
  lemma {:induction false} KeysAfter<V>(slots: seq<Slot<V>>, key: string, value: V, plus: (V, V) -> V)
    ensures var r := AddInto(slots, key, value, plus);
      && |r| == |slots| + (if At(slots, key).Some? then 0 else 1)
      && (forall k :: 0 <= k < |slots| ==> r[k].key == slots[k].key)
      && (At(slots, key).None? ==> r[|slots|].key == key)
  {
    if slots != [] { KeysAfter(slots[1..], key, value, plus); }
  }

  lemma {:induction false} SeenSomewhere<V>(entries: seq<Slot<V>>, key: string)
    ensures FirstPlace(entries, key) < |entries| <==> exists i :: 0 <= i < |entries| && entries[i].key == key
  {
    if entries != [] {
      SeenSomewhere(entries[1..], key);
      if i :| 0 <= i < |entries| && entries[i].key == key { assert i > 0 ==> entries[1..][i - 1].key == key; }
    }
  }

  lemma SlotIsSeen<V>(entries: seq<Slot<V>>, plus: (V, V) -> V, key: string)
    ensures At(AddAll([], entries, plus), key).Some? <==> FirstPlace(entries, key) < |entries|
  {
    AddAllKeys([], entries, plus, key);
    SeenSomewhere(entries, key);
  }

  lemma {:induction false} ListedIsAt<V>(slots: seq<Slot<V>>, k: nat)
    requires k < |slots|
    ensures At(slots, slots[k].key).Some?
  {
    if k > 0 { ListedIsAt(slots[1..], k - 1); }
  }

  // The keys come in the order in which they were first seen.
  lemma {:induction false} InFirstSeenOrder<V>(entries: seq<Slot<V>>, plus: (V, V) -> V, i: nat, j: nat)
    requires i < j < |AddAll([], entries, plus)|
    ensures var slots := AddAll([], entries, plus);
      FirstPlace(entries, slots[i].key) < FirstPlace(entries, slots[j].key) < |entries|
    decreases |entries|
  {
    hide AddInto, FirstPlace, At;
    var n := |entries| - 1;
    var front, e := entries[..n], entries[n];
    var before, after := AddAll([], front, plus), AddAll([], entries, plus);
    assert entries == front + [e];
    AddAllSnoc([], front, e, plus);
    KeysAfter(before, e.key, e.value, plus);
    PlaceSnoc(front, e, after[i].key);
    PlaceSnoc(front, e, after[j].key);
    if j < |before| {
      InFirstSeenOrder(front, plus, i, j);
    } else {
      SlotIsSeen(front, plus, e.key);
      ListedIsAt(before, i);
      SlotIsSeen(front, plus, before[i].key);
    }
  }
}
