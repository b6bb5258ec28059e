// Cuts of the attributed-event ledger, one per author and event, accrued per wallet and partitioned
// by a minimum payout. Amounts are integer micro-USDC.
module Batch {
  import opened Wrappers
  import opened Sorting
  import opened Credits
  import opened Accumulate
  import M = MicroSplit

  datatype Event = Event(id: string, totalMicro: int, payees: seq<AuthorShare>)

  datatype Cut = Cut(eventId: string, authorId: string, wallet: string, micro: int)

  // One pass down the order; the counter is decremented at every payee.
  function HandOut(micros: seq<int>, order: seq<nat>, remainder: int): seq<int>
    requires forall k :: 0 <= k < |order| ==> order[k] < |micros|
    decreases |order|
  {
    if order == [] then micros
    else
      var k := order[0];
      HandOut(if remainder > 0 then micros[k := micros[k] + 1] else micros, order[1..], remainder - 1)
  }

  function PartMicros(e: Event): seq<int> {
    var floors := M.Floors(e.totalMicro, e.payees);
    M.OrderIsIndices(floors);
    HandOut(floors, M.Order(floors), e.totalMicro - Sum(floors))
  }

  lemma {:induction false} HandOutLength(micros: seq<int>, order: seq<nat>, remainder: int)
    requires forall k :: 0 <= k < |order| ==> order[k] < |micros|
    ensures |HandOut(micros, order, remainder)| == |micros|
    decreases |order|
  {
    if order != [] {
      var k := order[0];
      HandOutLength(if remainder > 0 then micros[k := micros[k] + 1] else micros, order[1..], remainder - 1);
    }
  }

  function EventCuts(e: Event): (cuts: seq<Cut>)
    ensures |cuts| == |e.payees|
    ensures forall k :: 0 <= k < |cuts| ==> cuts[k].eventId == e.id && cuts[k].wallet == e.payees[k].wallet
  {
    PartsLength(e);
    seq(|e.payees|, k requires 0 <= k < |e.payees| =>
      Cut(e.id, e.payees[k].authorId, e.payees[k].wallet, PartMicros(e)[k]))
  }

  lemma PartsLength(e: Event)
    ensures |PartMicros(e)| == |e.payees|
  {
    var floors := M.Floors(e.totalMicro, e.payees);
    M.OrderIsIndices(floors);
    HandOutLength(floors, M.Order(floors), e.totalMicro - Sum(floors));
  }

  function ExpandCuts(events: seq<Event>): seq<Cut> {
    if events == [] then [] else ExpandCuts(events[..|events| - 1]) + EventCuts(events[|events| - 1])
  }

  // The source's forEach: the sorted references are positions into the array being bumped.
  method PartsLoop(e: Event) returns (micros: array<int>)
    ensures fresh(micros) && micros[..] == PartMicros(e)
  {
    var floors := M.Floors(e.totalMicro, e.payees);
    micros := new int[|e.payees|](k requires 0 <= k < |e.payees| => floors[k]);
    assert micros[..] == floors;
    var order := M.Order(floors);
    M.OrderIsIndices(floors);
    var remainder := e.totalMicro - Sum(floors);
    var p := 0;
    assert order[0..] == order;
    while p < |order|
      invariant 0 <= p <= |order|
      invariant forall k :: 0 <= k < |order| ==> order[k] < micros.Length
      invariant forall k :: 0 <= k < |order[p..]| ==> order[p..][k] < |micros[..]|
      invariant HandOut(micros[..], order[p..], remainder) == PartMicros(e)
    {
      ghost var was := micros[..];
      var k := order[p];
      assert order[p..][0] == k && order[p..][1..] == order[p + 1..];
      if remainder > 0 {
        micros[k] := micros[k] + 1;
        assert micros[..] == was[k := was[k] + 1];
      }
      remainder := remainder - 1;
      p := p + 1;
    }
  }

  method ExpandCutsLoop(events: seq<Event>) returns (cuts: seq<Cut>)
    ensures cuts == ExpandCuts(events)
  {
    cuts := [];
    var n := 0;
    while n < |events|
      invariant 0 <= n <= |events|
      invariant cuts == ExpandCuts(events[..n])
    {
      var e := events[n];
      var micros := PartsLoop(e);
      PartsLength(e);
      ghost var before := cuts;
      var i := 0;
      while i < |e.payees|
        invariant 0 <= i <= |e.payees| == micros.Length
        invariant micros[..] == PartMicros(e)
        invariant cuts == before + EventCuts(e)[..i]
      {
        cuts := cuts + [Cut(e.id, e.payees[i].authorId, e.payees[i].wallet, micros[i])];
        assert EventCuts(e)[..i + 1] == EventCuts(e)[..i] + [EventCuts(e)[i]];
        i := i + 1;
      }
      assert EventCuts(e)[..i] == EventCuts(e);
      assert events[..n + 1][..n] == events[..n];
      n := n + 1;
    }
    assert events[..n] == events;
  }

  // ---------- the cuts are the split ----------

  // One pass hands out at most one micro each, which is all the wrapping loop ever does when fewer
  // micros than payees are left over.
  lemma {:induction false} HandOutIsDeal(micros: seq<int>, order: seq<nat>, i: nat, remainder: int)
    requires order != [] && i <= |order| && remainder <= |order| - i
    requires forall k :: 0 <= k < |order| ==> order[k] < |micros|
    ensures HandOut(micros, order[i..], remainder) == M.Deal(micros, order, i, remainder)
    decreases |order| - i
  {
    if i < |order| {
      assert order[i..][1..] == order[i + 1..];
      assert i % |order| == i;
      var k := order[i];
      HandOutIsDeal(if remainder > 0 then micros[k := micros[k] + 1] else micros, order, i + 1, remainder - 1);
    }
  }

  predicate Whole(e: Event) { e.payees != [] && ShareSum(e.payees) == 1.0 }

  function CutMicros(cuts: seq<Cut>): seq<int> {
    seq(|cuts|, k requires 0 <= k < |cuts| => cuts[k].micro)
  }

  // What the ledger says an author is owed for an event is, to the micro, the split the toll settled.
  lemma CutsAreTheSplit(e: Event)
    requires Whole(e)
    ensures CutMicros(EventCuts(e)) == M.Micros(M.SplitMicro(e.totalMicro, e.payees))
    ensures Sum(CutMicros(EventCuts(e))) == e.totalMicro
  {
    hide M.Deal, HandOut, Sum, M.Order, M.SplitMicro, M.AheadOf;
    var floors := M.Floors(e.totalMicro, e.payees);
    var order := M.Order(floors);
    M.SplitIsExact(e.totalMicro, e.payees);
    M.OrderIsIndices(floors);
    assert order[0..] == order;
    HandOutIsDeal(floors, order, 0, M.LeftOver(e.totalMicro, e.payees));
    M.MicrosOfSplit(e.totalMicro, e.payees);
    PartsLength(e);
    assert CutMicros(EventCuts(e)) == PartMicros(e);
  }

  function Total(events: seq<Event>): int {
    if events == [] then 0 else Total(events[..|events| - 1]) + events[|events| - 1].totalMicro
  }

  predicate AllWhole(events: seq<Event>) {
    forall k :: 0 <= k < |events| ==> Whole(events[k])
  }

  lemma {:induction false} CutsSumToLedger(events: seq<Event>)
    requires AllWhole(events)
    ensures Sum(CutMicros(ExpandCuts(events))) == Total(events)
  {
    if events != [] {
      var n := |events| - 1;
      CutsSumToLedger(events[..n]);
      CutsAreTheSplit(events[n]);
      CutMicrosAppend(ExpandCuts(events[..n]), EventCuts(events[n]));
    } else {
      assert CutMicros(ExpandCuts(events)) == [];
    }
  }

  lemma CutMicrosAppend(a: seq<Cut>, b: seq<Cut>)
    ensures CutMicros(a + b) == CutMicros(a) + CutMicros(b)
    ensures Sum(CutMicros(a + b)) == Sum(CutMicros(a)) + Sum(CutMicros(b))
  {
    assert CutMicros(a + b) == CutMicros(a) + CutMicros(b);
    SumAppend(CutMicros(a), CutMicros(b));
  }

  lemma {:induction false} HandOutSum(micros: seq<int>, order: seq<nat>, remainder: int)
    requires forall k :: 0 <= k < |order| ==> order[k] < |micros|
    ensures Sum(HandOut(micros, order, remainder))
         == Sum(micros) + if remainder <= 0 then 0 else if remainder < |order| then remainder else |order|
    decreases |order|
  {
    if order != [] {
      var k := order[0];
      SumUpdate(micros, k, micros[k] + 1);
      HandOutSum(if remainder > 0 then micros[k := micros[k] + 1] else micros, order[1..], remainder - 1);
    }
  }

  // Whatever its shares, an event's cuts sum to its total exactly when the floors leave over between
  // nothing and one micro for each payee.
  lemma CutsSumExactlyWhen(e: Event)
    ensures Sum(CutMicros(EventCuts(e))) == e.totalMicro <==> 0 <= M.LeftOver(e.totalMicro, e.payees) <= |e.payees|
  {
    hide HandOut, Sum, M.Order;
    var floors := M.Floors(e.totalMicro, e.payees);
    M.OrderIsIndices(floors);
    PartsLength(e);
    HandOutSum(floors, M.Order(floors), M.LeftOver(e.totalMicro, e.payees));
    assert CutMicros(EventCuts(e)) == PartMicros(e);
  }

  // So the total of an event nobody is credited on is lost, unless it is zero.
  lemma UncreditedEvent(e: Event)
    requires e.payees == []
    ensures EventCuts(e) == [] && (Sum(CutMicros(EventCuts(e))) == e.totalMicro <==> e.totalMicro == 0)
  {
    CutsSumExactlyWhen(e);
    assert M.Floors(e.totalMicro, e.payees) == [];
  }

  // ---------- accrual per wallet ----------

  datatype Payout = Payout(authorId: string, wallet: string, micro: int, eventIds: seq<string>)

  datatype BatchResult = BatchResult(payouts: seq<Payout>, deferred: seq<Payout>)

  function Accrue(a: Payout, b: Payout): Payout {
    a.(micro := a.micro + b.micro, eventIds := a.eventIds + b.eventIds)
  }

  function Opening(c: Cut): Payout { Payout(c.authorId, c.wallet, c.micro, [c.eventId]) }

  function Entries(cuts: seq<Cut>): seq<Slot<Payout>> {
    seq(|cuts|, k requires 0 <= k < |cuts| => Slot(cuts[k].wallet, Opening(cuts[k])))
  }

  function Accrued(cuts: seq<Cut>): seq<Slot<Payout>> { AddAll([], Entries(cuts), Accrue) }

  function Select(slots: seq<Slot<Payout>>, min: int, paid: bool): seq<Payout> {
    if slots == [] then []
    else
      var rest := Select(slots[..|slots| - 1], min, paid);
      var p := slots[|slots| - 1].value;
      if (p.micro >= min) == paid then rest + [p] else rest
  }

  function Larger(): (Payout, Payout) -> bool { (a: Payout, b: Payout) => a.micro >= b.micro }

  function BatchCuts(cuts: seq<Cut>, min: int): BatchResult {
    BatchResult(Sort(Select(Accrued(cuts), min, true), Larger()), Select(Accrued(cuts), min, false))
  }

  method BatchLoop(cuts: seq<Cut>, min: int) returns (r: BatchResult)
    ensures r == BatchCuts(cuts, min)
  {
    var slots := AddLoop(Entries(cuts), Accrue);
    var payouts, deferred := [], [];
    var i := 0;
    while i < |slots|
      invariant 0 <= i <= |slots|
      invariant payouts == Select(slots[..i], min, true)
      invariant deferred == Select(slots[..i], min, false)
    {
      var p := slots[i].value;
      assert slots[..i + 1][..i] == slots[..i];
      if p.micro >= min { payouts := payouts + [p]; } else { deferred := deferred + [p]; }
      i := i + 1;
    }
    assert slots[..i] == slots;
    return BatchResult(Sort(payouts, Larger()), deferred);
  }

  // ---------- what a wallet's entry says ----------

  function CutsOf(cuts: seq<Cut>, wallet: string): seq<Cut> {
    if cuts == [] then []
    else if cuts[|cuts| - 1].wallet == wallet then CutsOf(cuts[..|cuts| - 1], wallet) + [cuts[|cuts| - 1]]
    else CutsOf(cuts[..|cuts| - 1], wallet)
  }

  function Ids(cuts: seq<Cut>): seq<string> {
    seq(|cuts|, k requires 0 <= k < |cuts| => cuts[k].eventId)
  }

  // One wallet's statement: its cuts' events in order, and their sum.
  function Statement(cuts: seq<Cut>): Payout
    requires cuts != []
  {
    Payout(cuts[0].authorId, cuts[0].wallet, Sum(CutMicros(cuts)), Ids(cuts))
  }

  lemma StatementSnoc(cuts: seq<Cut>, c: Cut)
    ensures cuts == [] ==> Statement(cuts + [c]) == Opening(c)
    ensures cuts != [] ==> Statement(cuts + [c]) == Accrue(Statement(cuts), Opening(c))
  {
    CutMicrosAppend(cuts, [c]);
    assert CutMicros([c]) == [c.micro] && [c.micro][1..] == [];
    assert Sum([c.micro]) == c.micro + Sum([c.micro][1..]);
    assert Ids(cuts + [c]) == Ids(cuts) + [c.eventId];
    if cuts == [] { assert CutMicros(cuts) == []; }
  }

  // Each wallet with a cut has one entry, and the entry is that wallet's statement.
  lemma {:induction false} AccruedIsStatement(cuts: seq<Cut>, w: string)
    ensures DistinctKeys(Accrued(cuts))
    ensures At(Accrued(cuts), w) == if CutsOf(cuts, w) == [] then None else Some(Statement(CutsOf(cuts, w)))
  {
    if cuts == [] {
      assert Entries(cuts) == [];
    } else {
      var n := |cuts| - 1;
      var c := cuts[n];
      AccruedIsStatement(cuts[..n], w);
      assert Entries(cuts) == Entries(cuts[..n]) + [Slot(c.wallet, Opening(c))];
      AddAllSnoc([], Entries(cuts[..n]), Slot(c.wallet, Opening(c)), Accrue);
      AddShape(Accrued(cuts[..n]), c.wallet, Opening(c), Accrue, w);
      StatementSnoc(CutsOf(cuts[..n], w), c);
    }
  }

  lemma {:induction false} CutsOfWallet(cuts: seq<Cut>, w: string)
    ensures forall k :: 0 <= k < |CutsOf(cuts, w)| ==> CutsOf(cuts, w)[k].wallet == w && CutsOf(cuts, w)[k] in cuts
    ensures forall c :: c in cuts && c.wallet == w ==> c in CutsOf(cuts, w)
  {
    if cuts != [] {
      CutsOfWallet(cuts[..|cuts| - 1], w);
      assert cuts == cuts[..|cuts| - 1] + [cuts[|cuts| - 1]];
    }
  }

  lemma {:induction false} SelectIs(slots: seq<Slot<Payout>>, min: int, paid: bool, p: Payout)
    ensures p in Select(slots, min, paid)
       <==> (p.micro >= min) == paid && exists k :: 0 <= k < |slots| && slots[k].value == p
  {
    if slots != [] {
      var n := |slots| - 1;
      SelectIs(slots[..n], min, paid, p);
      if k :| 0 <= k < |slots| && slots[k].value == p { assert k < n ==> slots[..n][k] == slots[k]; }
    }
  }

  // A payout list is what one wallet each is owed.
  lemma EntryIsStatement(cuts: seq<Cut>, p: Payout)
    ensures (exists k :: 0 <= k < |Accrued(cuts)| && Accrued(cuts)[k].value == p)
       <==> CutsOf(cuts, p.wallet) != [] && p == Statement(CutsOf(cuts, p.wallet))
  {
    hide Statement, AddAll;
    var slots := Accrued(cuts);
    AccruedIsStatement(cuts, p.wallet);
    if k :| 0 <= k < |slots| && slots[k].value == p {
      AtIsMember(slots, k);
      AccruedIsStatement(cuts, slots[k].key);
      StatementWallet(cuts, slots[k].key);
    }
    if CutsOf(cuts, p.wallet) != [] && p == Statement(CutsOf(cuts, p.wallet)) {
      AtHasSlot(slots, p.wallet);
    }
  }

  lemma StatementWallet(cuts: seq<Cut>, w: string)
    requires CutsOf(cuts, w) != []
    ensures Statement(CutsOf(cuts, w)).wallet == w
  {
    CutsOfWallet(cuts, w);
  }

  // The batch, exactly: a wallet is paid now if its pending cuts reach the minimum, carried if they do
  // not, in either case by one payout naming its events and their sum; the largest payout comes first.
  lemma BatchIsExact(cuts: seq<Cut>, min: int, p: Payout)
    ensures p in BatchCuts(cuts, min).payouts
       <==> CutsOf(cuts, p.wallet) != [] && p == Statement(CutsOf(cuts, p.wallet)) && p.micro >= min
    ensures p in BatchCuts(cuts, min).deferred
       <==> CutsOf(cuts, p.wallet) != [] && p == Statement(CutsOf(cuts, p.wallet)) && p.micro < min
    ensures Sorted(BatchCuts(cuts, min).payouts, Larger())
  {
    hide Statement, CutsOf;
    SortKeeps(Select(Accrued(cuts), min, true), Larger());
    SelectIs(Accrued(cuts), min, true, p);
    SelectIs(Accrued(cuts), min, false, p);
    EntryIsStatement(cuts, p);
    assert Preorder(Larger());
    SortSorts(Select(Accrued(cuts), min, true), Larger());
  }

  // ---------- no wallet twice, and no micro lost ----------

  predicate DistinctWallets(payouts: seq<Payout>) {
    forall i, j :: 0 <= i < j < |payouts| ==> payouts[i].wallet != payouts[j].wallet
  }

  predicate Filed(slots: seq<Slot<Payout>>) {
    DistinctKeys(slots) && forall k :: 0 <= k < |slots| ==> slots[k].key == slots[k].value.wallet
  }

  lemma AccruedIsFiled(cuts: seq<Cut>)
    ensures Filed(Accrued(cuts))
  {
    hide Statement, AddAll;
    AccruedIsStatement(cuts, "");
    var slots := Accrued(cuts);
    forall k | 0 <= k < |slots| ensures slots[k].key == slots[k].value.wallet {
      AtIsMember(slots, k);
      AccruedIsStatement(cuts, slots[k].key);
      StatementWallet(cuts, slots[k].key);
    }
  }

  lemma {:induction false} SelectDistinct(slots: seq<Slot<Payout>>, min: int, paid: bool)
    requires Filed(slots)
    ensures DistinctWallets(Select(slots, min, paid))
  {
    if slots != [] {
      var n := |slots| - 1;
      SelectDistinct(slots[..n], min, paid);
      var rest := Select(slots[..n], min, paid);
      forall i | 0 <= i < |rest| ensures rest[i].wallet != slots[n].value.wallet {
        SelectIs(slots[..n], min, paid, rest[i]);
        var k :| 0 <= k < n && slots[..n][k].value == rest[i];
        assert slots[k].key != slots[n].key;
      }
    }
  }

  lemma {:induction false} InsertDistinct(p: Payout, s: seq<Payout>)
    requires DistinctWallets(s) && forall q :: q in s ==> q.wallet != p.wallet
    ensures DistinctWallets(Insert(p, s, Larger()))
  {
    if s != [] && !Larger()(p, s[0]) {
      assert forall q :: q in s[1..] ==> q in s;
      InsertDistinct(p, s[1..]);
      InsertKeeps(p, s[1..], Larger());
      var rest := Insert(p, s[1..], Larger());
      forall j | 0 <= j < |rest| ensures rest[j].wallet != s[0].wallet {
        assert rest[j] in rest;
        if rest[j] == p {
          assert s[0] in s;
        } else {
          var k :| 0 <= k < |s[1..]| && s[1..][k] == rest[j];
        }
      }
    }
  }

  lemma {:induction false} SortDistinct(s: seq<Payout>)
    requires DistinctWallets(s)
    ensures DistinctWallets(Sort(s, Larger()))
  {
    if s != [] {
      SortDistinct(s[1..]);
      SortKeeps(s[1..], Larger());
      forall q | q in Sort(s[1..], Larger()) ensures q.wallet != s[0].wallet {
        var k :| 0 <= k < |s[1..]| && s[1..][k] == q;
      }
      InsertDistinct(s[0], Sort(s[1..], Larger()));
    }
  }

  // One payout per wallet.
  lemma PayoutsAreDistinct(cuts: seq<Cut>, min: int)
    ensures DistinctWallets(BatchCuts(cuts, min).payouts) && DistinctWallets(BatchCuts(cuts, min).deferred)
  {
    hide Sort, Accrued;
    AccruedIsFiled(cuts);
    SelectDistinct(Accrued(cuts), min, true);
    SelectDistinct(Accrued(cuts), min, false);
    SortDistinct(Select(Accrued(cuts), min, true));
  }

  // The worth of the cuts of the picked wallets.
  function Worth(cuts: seq<Cut>, picked: string -> bool): int {
    if cuts == [] then 0
    else
      var n := |cuts| - 1;
      Worth(cuts[..n], picked) + if picked(cuts[n].wallet) then cuts[n].micro else 0
  }

  function PaidOut(payouts: seq<Payout>, picked: string -> bool): int {
    if payouts == [] then 0
    else
      var n := |payouts| - 1;
      PaidOut(payouts[..n], picked) + if picked(payouts[n].wallet) then payouts[n].micro else 0
  }

  // A wallet whose cuts reach the minimum.
  predicate Reaches(cuts: seq<Cut>, min: int, w: string) {
    CutsOf(cuts, w) != [] && Sum(CutMicros(CutsOf(cuts, w))) >= min
  }

  function PickedAndPaid(cuts: seq<Cut>, min: int, picked: string -> bool): string -> bool {
    (w: string) => picked(w) && Reaches(cuts, min, w)
  }

  lemma {:induction false} PaidOutCons(p: Payout, s: seq<Payout>, picked: string -> bool)
    ensures PaidOut([p] + s, picked) == PaidOut(s, picked) + if picked(p.wallet) then p.micro else 0
  {
    if s == [] {
      assert [p] + s == [p] && [p][..0] == [];
      assert PaidOut([p][..0], picked) == 0;
    } else {
      PaidOutCons(p, s[..|s| - 1], picked);
      assert ([p] + s)[..|s|] == [p] + s[..|s| - 1];
    }
  }

  lemma {:induction false} InsertPaysSame(p: Payout, s: seq<Payout>, picked: string -> bool)
    ensures PaidOut(Insert(p, s, Larger()), picked) == PaidOut([p] + s, picked)
  {
    if s != [] && !Larger()(p, s[0]) {
      InsertPaysSame(p, s[1..], picked);
      PaidOutCons(p, s[1..], picked);
      PaidOutCons(s[0], Insert(p, s[1..], Larger()), picked);
      PaidOutCons(s[0], s[1..], picked);
      PaidOutCons(p, s, picked);
      assert s == [s[0]] + s[1..];
    }
  }

  lemma {:induction false} SortPaysSame(s: seq<Payout>, picked: string -> bool)
    ensures PaidOut(Sort(s, Larger()), picked) == PaidOut(s, picked)
  {
    if s != [] {
      SortPaysSame(s[1..], picked);
      InsertPaysSame(s[0], Sort(s[1..], Larger()), picked);
      PaidOutCons(s[0], Sort(s[1..], Larger()), picked);
      PaidOutCons(s[0], s[1..], picked);
      assert s == [s[0]] + s[1..];
    }
  }

  function MicroOf(p: Payout): real { p.micro as real }

  lemma {:induction false} AmountSnoc<V>(slots: seq<Slot<V>>, s: Slot<V>, picked: string -> bool, size: V -> real)
    ensures Amount(slots + [s], picked, size)
         == Amount(slots, picked, size) + if picked(s.key) then size(s.value) else 0.0
  {
    if slots == [] {
      assert (slots + [s])[1..] == [];
    } else {
      AmountSnoc(slots[1..], s, picked, size);
      assert (slots + [s])[1..] == slots[1..] + [s];
    }
  }

  lemma {:induction false} SelectPays(slots: seq<Slot<Payout>>, min: int, picked: string -> bool, due: string -> bool)
    requires Filed(slots)
    requires forall k :: 0 <= k < |slots| ==>
      due(slots[k].key) == (picked(slots[k].key) && slots[k].value.micro >= min)
    ensures PaidOut(Select(slots, min, true), picked) as real == Amount(slots, due, MicroOf)
  {
    if slots != [] {
      var n := |slots| - 1;
      SelectPays(slots[..n], min, picked, due);
      AmountSnoc(slots[..n], slots[n], due, MicroOf);
      assert slots == slots[..n] + [slots[n]];
      var rest, p := Select(slots[..n], min, true), slots[n].value;
      assert (rest + [p])[..|rest|] == rest;
    }
  }

  lemma {:induction false} WorthIsAmount(cuts: seq<Cut>, picked: string -> bool)
    ensures Amount(Entries(cuts), picked, MicroOf) == Worth(cuts, picked) as real
  {
    if cuts == [] {
      assert Entries(cuts) == [];
    } else {
      var n := |cuts| - 1;
      WorthIsAmount(cuts[..n], picked);
      assert Entries(cuts) == Entries(cuts[..n]) + [Slot(cuts[n].wallet, Opening(cuts[n]))];
      AmountSnoc(Entries(cuts[..n]), Slot(cuts[n].wallet, Opening(cuts[n])), picked, MicroOf);
    }
  }

  // What a batch pays the picked wallets is all they are owed, for those that reach the minimum.
  lemma BatchPaysWhatIsOwed(cuts: seq<Cut>, min: int, picked: string -> bool)
    ensures PaidOut(BatchCuts(cuts, min).payouts, picked) == Worth(cuts, PickedAndPaid(cuts, min, picked))
  {
    hide Sort, AddAll, Worth, Amount, Select;
    var slots, due := Accrued(cuts), PickedAndPaid(cuts, min, picked);
    AccruedIsFiled(cuts);
    forall k | 0 <= k < |slots| ensures due(slots[k].key) == (picked(slots[k].key) && slots[k].value.micro >= min) {
      AtIsMember(slots, k);
      AccruedIsStatement(cuts, slots[k].key);
    }
    SelectPays(slots, min, picked, due);
    SortPaysSame(Select(slots, min, true), picked);
    AddAllConserves([], Entries(cuts), Accrue, MicroOf, due);
    WorthIsAmount(cuts, due);
    AmountOfNone(due);
  }

  lemma AmountOfNone(picked: string -> bool)
    ensures Amount([], picked, MicroOf) == 0.0
  {
  }
}
