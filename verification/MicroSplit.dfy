// Splitting an integer amount of micro-USDC by real shares: floors first, then the remainder one
// unit at a time down the payees, largest floor first.
module MicroSplit {
  import opened Sorting
  import opened Credits

  datatype MicroAllocation = MicroAllocation(wallet: string, authorId: string, micro: int)

  function Times(total: int, share: real): real { total as real * share }

  function Floors(total: int, payees: seq<AuthorShare>): seq<int> {
    seq(|payees|, k requires 0 <= k < |payees| => Times(total, payees[k].share).Floor)
  }

  function At(micros: seq<int>, k: nat): int { if k < |micros| then micros[k] else 0 }

  function MoreFirst(micros: seq<int>): (nat, nat) -> bool {
    (i: nat, j: nat) => At(micros, i) >= At(micros, j)
  }

  function Indices(n: nat): seq<nat> { seq(n, k => k) }

  // The payees' positions, largest floor first; the sort is stable.
  function Order(micros: seq<int>): seq<nat> { Sort(Indices(|micros|), MoreFirst(micros)) }

  // order[i], order[i + 1], ... wrapping around, get one more each until the remainder is gone.
  function Deal(micros: seq<int>, order: seq<nat>, i: nat, remainder: int): seq<int>
    requires order != [] && forall k :: 0 <= k < |order| ==> order[k] < |micros|
    decreases remainder
  {
    if remainder <= 0 then micros
    else
      var k := order[i % |order|];
      Deal(micros[k := micros[k] + 1], order, i + 1, remainder - 1)
  }

  lemma OrderIsIndices(micros: seq<int>)
    ensures |Order(micros)| == |micros|
    ensures forall k :: 0 <= k < |micros| ==> Order(micros)[k] < |micros|
  {
    SortKeeps(Indices(|micros|), MoreFirst(micros));
    forall k | 0 <= k < |micros| ensures Order(micros)[k] < |micros| {
      assert Order(micros)[k] in Indices(|micros|);
    }
  }

  function SplitMicros(total: int, payees: seq<AuthorShare>): seq<int> {
    var floors := Floors(total, payees);
    if payees == [] then []
    else
      OrderIsIndices(floors);
      Deal(floors, Order(floors), 0, total - Sum(floors))
  }

  lemma {:induction false} DealLength(micros: seq<int>, order: seq<nat>, i: nat, remainder: int)
    requires order != [] && forall k :: 0 <= k < |order| ==> order[k] < |micros|
    ensures |Deal(micros, order, i, remainder)| == |micros|
    ensures Sum(Deal(micros, order, i, remainder)) == Sum(micros) + if remainder > 0 then remainder else 0
    decreases remainder
  {
    if remainder > 0 {
      var k := order[i % |order|];
      SumUpdate(micros, k, micros[k] + 1);
      DealLength(micros[k := micros[k] + 1], order, i + 1, remainder - 1);
    }
  }

  function SplitMicro(total: int, payees: seq<AuthorShare>): (r: seq<MicroAllocation>)
    ensures |r| == |payees|
    ensures forall k :: 0 <= k < |r| ==> r[k].wallet == payees[k].wallet && r[k].authorId == payees[k].authorId
  {
    var micros := SplitMicros(total, payees);
    SplitLength(total, payees);
    seq(|payees|, k requires 0 <= k < |payees| =>
      MicroAllocation(payees[k].wallet, payees[k].authorId, micros[k]))
  }

  lemma SplitLength(total: int, payees: seq<AuthorShare>)
    ensures |SplitMicros(total, payees)| == |payees|
  {
    if payees != [] {
      var floors := Floors(total, payees);
      OrderIsIndices(floors);
      DealLength(floors, Order(floors), 0, total - Sum(floors));
    }
  }

  // The source's loop, which bumps the allocations in place.
  method SplitMicrosLoop(total: int, payees: seq<AuthorShare>) returns (micros: array<int>)
    ensures fresh(micros) && micros[..] == SplitMicros(total, payees)
  {
    var floors := Floors(total, payees);
    micros := new int[|payees|](k requires 0 <= k < |payees| => floors[k]);
    assert micros[..] == floors;
    var order := Order(floors);
    OrderIsIndices(floors);
    var remainder := total - Sum(floors);
    var i := 0;
    while remainder > 0 && |order| > 0
      invariant |order| == micros.Length == |payees|
      invariant forall k :: 0 <= k < |order| ==> order[k] < micros.Length
      invariant 0 <= i
      invariant payees == [] ==> micros[..] == []
      invariant payees != [] ==> Deal(micros[..], order, i, remainder) == SplitMicros(total, payees)
      decreases remainder
    {
      var k := order[i % |order|];
      ghost var was := micros[..];
      micros[k] := micros[k] + 1;
      assert micros[..] == was[k := was[k] + 1];
      remainder := remainder - 1;
      i := i + 1;
    }
  }

  // ---------- what the floors leave over ----------

  lemma TimesAdds(total: int, a: real, b: real)
    ensures Times(total, a + b) == Times(total, a) + Times(total, b)
    ensures Times(total, 0.0) == 0.0 && Times(total, 1.0) == total as real
  {
  }

  // Less than one micro per payee is left over, and never less than nothing.
  lemma {:induction false} FloorsLeave(total: int, payees: seq<AuthorShare>)
    ensures var left := Times(total, ShareSum(payees)) - Sum(Floors(total, payees)) as real;
            0.0 <= left <= |payees| as real && (payees != [] ==> left < |payees| as real)
  {
    TimesAdds(total, 0.0, 0.0);
    if payees == [] {
      assert Shares(payees) == [] && Floors(total, payees) == [];
    } else {
      FloorsLeave(total, payees[1..]);
      assert Floors(total, payees)[1..] == Floors(total, payees[1..]);
      assert Shares(payees)[1..] == Shares(payees[1..]);
      TimesAdds(total, payees[0].share, ShareSum(payees[1..]));
    }
  }

  // ---------- who gets one more ----------

  // j is served before m: it has the larger floor, or the same and an earlier place.
  predicate Ahead(micros: seq<int>, j: nat, m: nat) {
    j < |micros| && m < |micros| && (micros[j] > micros[m] || (micros[j] == micros[m] && j < m))
  }

  predicate Served(order: seq<nat>, micros: seq<int>) {
    forall a, b :: 0 <= a < b < |order| ==> Ahead(micros, order[a], order[b])
  }

  predicate Ascending(s: seq<nat>) {
    forall a, b :: 0 <= a < b < |s| ==> s[a] < s[b]
  }

  lemma {:induction false} InsertServes(x: nat, s: seq<nat>, micros: seq<int>)
    requires Served(s, micros) && x < |micros| && forall y :: y in s ==> x < y < |micros|
    ensures Served(Insert(x, s, MoreFirst(micros)), micros)
  {
    var le := MoreFirst(micros);
    if s != [] {
      assert s[0] in s;
      if le(x, s[0]) {
        forall b | 0 <= b < |s| ensures Ahead(micros, x, s[b]) {
          assert b == 0 || Ahead(micros, s[0], s[b]);
        }
      } else {
        assert forall y :: y in s[1..] ==> y in s;
        InsertServes(x, s[1..], micros);
        InsertKeeps(x, s[1..], le);
        var rest := Insert(x, s[1..], le);
        forall b | 0 <= b < |rest| ensures Ahead(micros, s[0], rest[b]) {
          assert rest[b] in rest;
          if rest[b] != x { var k :| 0 <= k < |s[1..]| && s[1..][k] == rest[b]; }
        }
      }
    }
  }

  lemma {:induction false} SortServes(s: seq<nat>, micros: seq<int>)
    requires Ascending(s) && forall k :: 0 <= k < |s| ==> s[k] < |micros|
    ensures Served(Sort(s, MoreFirst(micros)), micros)
  {
    if s != [] {
      SortServes(s[1..], micros);
      SortKeeps(s[1..], MoreFirst(micros));
      forall y: nat | y in Sort(s[1..], MoreFirst(micros)) ensures s[0] < y < |micros| {
        var k :| 0 <= k < |s[1..]| && s[1..][k] == y;
      }
      InsertServes(s[0], Sort(s[1..], MoreFirst(micros)), micros);
    }
  }

  function AheadOf(micros: seq<int>, m: nat): set<nat> {
    set j: nat | j < |micros| && Ahead(micros, j, m)
  }

  function Elements(s: seq<nat>): set<nat> { set j | j in s }

  lemma ElementsOfSnoc(s: seq<nat>, x: nat)
    ensures Elements(s + [x]) == Elements(s) + {x}
  {
  }

  lemma {:induction false} SetOfDistinct(s: seq<nat>)
    requires forall a, b :: 0 <= a < b < |s| ==> s[a] != s[b]
    ensures |Elements(s)| == |s|
  {
    if s == [] {
      assert Elements(s) == {};
    } else {
      var n := |s| - 1;
      SetOfDistinct(s[..n]);
      assert s == s[..n] + [s[n]];
      ElementsOfSnoc(s[..n], s[n]);
      assert s[n] !in Elements(s[..n]);
    }
  }

  // A payee's place in the order is the number of payees served before it.
  lemma PlaceIsAheadOf(micros: seq<int>, p: nat)
    requires p < |micros|
    ensures |Order(micros)| == |micros| && Order(micros)[p] < |micros|
    ensures |AheadOf(micros, Order(micros)[p])| == p
  {
    var order := Order(micros);
    OrderIsIndices(micros);
    SortServes(Indices(|micros|), micros);
    SetOfDistinct(order[..p]);
    forall j: nat | j < |micros| ensures Ahead(micros, j, order[p]) <==> j in order[..p] {
      SortKeeps(Indices(|micros|), MoreFirst(micros));
      assert Indices(|micros|)[j] == j;
      assert j in order;
      var q :| 0 <= q < |order| && order[q] == j;
      assert q < p ==> order[..p][q] == j;
    }
    assert AheadOf(micros, order[p]) == Elements(order[..p]);
  }

  lemma {:induction false} DealOnce(micros: seq<int>, order: seq<nat>, i: nat, remainder: nat, p: nat)
    requires order != [] && forall k :: 0 <= k < |order| ==> order[k] < |micros|
    requires forall a, b :: 0 <= a < b < |order| ==> order[a] != order[b]
    requires i + remainder <= |order| && p < |order|
    ensures |Deal(micros, order, i, remainder)| == |micros|
    ensures Deal(micros, order, i, remainder)[order[p]]
         == micros[order[p]] + if i <= p < i + remainder then 1 else 0
    decreases remainder
  {
    if remainder > 0 {
      var k := order[i];
      assert i % |order| == i;
      DealOnce(micros[k := micros[k] + 1], order, i + 1, remainder - 1, p);
    }
  }

  function Micros(allocations: seq<MicroAllocation>): seq<int> {
    seq(|allocations|, k requires 0 <= k < |allocations| => allocations[k].micro)
  }

  lemma MicrosOfSplit(total: int, payees: seq<AuthorShare>)
    ensures |SplitMicros(total, payees)| == |payees|
    ensures Micros(SplitMicro(total, payees)) == SplitMicros(total, payees)
  {
    SplitLength(total, payees);
  }

  function LeftOver(total: int, payees: seq<AuthorShare>): int { total - Sum(Floors(total, payees)) }

  // Nothing is created or lost, and every payee is paid its floor, plus one exactly if fewer payees
  // are ahead of it than micros are left over.
  lemma SplitIsExact(total: int, payees: seq<AuthorShare>)
    requires payees != [] && ShareSum(payees) == 1.0
    ensures Sum(Micros(SplitMicro(total, payees))) == total
    ensures 0 <= LeftOver(total, payees) < |payees|
    ensures forall m :: 0 <= m < |payees| ==>
      SplitMicro(total, payees)[m].micro == Times(total, payees[m].share).Floor
        + if |AheadOf(Floors(total, payees), m)| < LeftOver(total, payees) then 1 else 0
  {
    var floors := Floors(total, payees);
    var order := Order(floors);
    var left := LeftOver(total, payees);
    FloorsLeave(total, payees);
    TimesAdds(total, 0.0, 0.0);
    OrderIsIndices(floors);
    DealLength(floors, order, 0, left);
    MicrosOfSplit(total, payees);
    forall m | 0 <= m < |payees|
      ensures SplitMicro(total, payees)[m].micro == floors[m] + if |AheadOf(floors, m)| < left then 1 else 0
    {
      Payee(total, payees, m);
    }
  }

  lemma Payee(total: int, payees: seq<AuthorShare>, m: nat)
    requires m < |payees| && 0 <= LeftOver(total, payees) < |payees|
    ensures SplitMicro(total, payees)[m].micro == Floors(total, payees)[m]
          + if |AheadOf(Floors(total, payees), m)| < LeftOver(total, payees) then 1 else 0
  {
    hide Sort, Insert, Deal, Sum;
    var floors := Floors(total, payees);
    var order := Order(floors);
    OrderIsIndices(floors);
    SortKeeps(Indices(|floors|), MoreFirst(floors));
    assert Indices(|floors|)[m] == m;
    assert m in order;
    var p :| 0 <= p < |order| && order[p] == m;
    PlaceIsAheadOf(floors, p);
    SortServes(Indices(|floors|), floors);
    DealOnce(floors, order, 0, LeftOver(total, payees), p);
    MicrosOfSplit(total, payees);
    assert Micros(SplitMicro(total, payees))[m] == SplitMicros(total, payees)[m];
  }

  // ---------- when a larger share is paid less ----------

  lemma {:induction false} SubsetIsSmaller(a: set<nat>, b: set<nat>)
    requires a <= b
    ensures |a| <= |b|
  {
    if a != {} {
      var x :| x in a;
      SubsetIsSmaller(a - {x}, b - {x});
    }
  }

  lemma TimesGrows(total: int, a: real, b: real)
    requires 0 <= total && a <= b
    ensures Times(total, a) <= Times(total, b) && Times(total, a).Floor <= Times(total, b).Floor
  {
    assert total as real * (b - a) >= 0.0;
  }

  // The remainder follows the floors and then the order of the credits, so a larger share is paid less, by
  // one, exactly when its floor is the same, its place later, and the left-over ends between the two.
  lemma LargerShareIsPaidLessWhen(total: int, payees: seq<AuthorShare>, j: nat, m: nat)
    requires 0 <= total && ShareSum(payees) == 1.0 && j < |payees| && m < |payees|
    requires payees[j].share < payees[m].share
    ensures var split, floors, left := SplitMicro(total, payees), Floors(total, payees), LeftOver(total, payees);
      && (split[m].micro < split[j].micro
          <==> floors[j] == floors[m] && j < m && |AheadOf(floors, j)| < left <= |AheadOf(floors, m)|)
      && split[j].micro - 1 <= split[m].micro
  {
    hide Sort, Insert, Deal, Sum, SplitMicro;
    var floors := Floors(total, payees);
    SplitIsExact(total, payees);
    TimesGrows(total, payees[j].share, payees[m].share);
    if floors[j] == floors[m] && m < j {
      SubsetIsSmaller(AheadOf(floors, m), AheadOf(floors, j));
    }
  }

  // At 3 micros, 40% credited first is paid 2 and 60% credited second is paid 1.
  lemma LargerShareIsPaidLess(x: string, y: string, wx: string, wy: string)
    ensures Micros(SplitMicro(3, [AuthorShare(x, wx, 0.4), AuthorShare(y, wy, 0.6)])) == [2, 1]
  {
    hide Sort, Insert, Deal, SplitMicro;
    var payees := [AuthorShare(x, wx, 0.4), AuthorShare(y, wy, 0.6)];
    assert Shares(payees) == [0.4, 0.6] && [0.4, 0.6][1..] == [0.6] && [0.6][1..] == [];
    assert ShareSum(payees) == 1.0;
    var floors := Floors(3, payees);
    assert Times(3, 0.4).Floor == 1 && Times(3, 0.6).Floor == 1;
    assert floors == [1, 1];
    assert Sum(floors) == 2 by { assert floors[1..] == [1] && [1][1..] == []; }
    assert AheadOf(floors, 0) == {};
    assert AheadOf(floors, 1) == {0};
    SplitIsExact(3, payees);
  }
}
