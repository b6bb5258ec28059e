// From shares to the transfers a buyer signs: the primary recipient, the amount per wallet, and the
// legs of the 402 challenge.
module Legs {
  import opened Wrappers
  import opened Sorting
  import opened Text
  import opened Accumulate
  import opened Credits
  import M = MicroSplit
  import P = CrawlerPrice

  datatype TieBreak = ByWallet | ByInput

  datatype LegsError = NoPayees

  function WalletShares(payees: seq<AuthorShare>): seq<Slot<real>> {
    seq(|payees|, k requires 0 <= k < |payees| => Slot(payees[k].wallet, payees[k].share))
  }

  function AddReal(a: real, b: real): real { a + b }

  function SameReal(a: real): real { a }

  // One entry per address, in first-seen order.
  function WalletTotals(payees: seq<AuthorShare>): seq<Slot<real>> {
    AddAll([], WalletShares(payees), AddReal)
  }

  predicate Stronger(tie: TieBreak, a: Slot<real>, b: Slot<real>) {
    if a.value != b.value then a.value > b.value
    else tie == ByInput || AtMost(a.key, b.key)
  }

  function First(tie: TieBreak): (Slot<real>, Slot<real>) -> bool {
    (a: Slot<real>, b: Slot<real>) => Stronger(tie, a, b)
  }

  function PrimaryPayee(payees: seq<AuthorShare>, tie: TieBreak): Result<string, LegsError> {
    if payees == [] then Err(NoPayees)
    else
      TotalsNonEmpty(payees);
      SortKeeps(WalletTotals(payees), First(tie));
      Ok(Sort(WalletTotals(payees), First(tie))[0].key)
  }

  predicate Named(payees: seq<AuthorShare>, wallet: string) {
    exists k :: 0 <= k < |payees| && payees[k].wallet == wallet
  }

  // What one address holds, over all the authors behind it.
  function Stake(payees: seq<AuthorShare>, wallet: string): real {
    Amount(WalletShares(payees), Only(wallet), SameReal)
  }

  lemma TotalsAre(payees: seq<AuthorShare>, wallet: string)
    ensures DistinctKeys(WalletTotals(payees))
    ensures At(WalletTotals(payees), wallet)
         == if Named(payees, wallet) then Some(Stake(payees, wallet)) else None
  {
    AddAllConserves([], WalletShares(payees), AddReal, SameReal, Only(wallet));
    AddAllKeys([], WalletShares(payees), AddReal, wallet);
    AmountAt(WalletTotals(payees), wallet, SameReal);
    forall k | 0 <= k < |payees| ensures WalletShares(payees)[k].key == payees[k].wallet {}
  }

  lemma TotalsNonEmpty(payees: seq<AuthorShare>)
    requires payees != []
    ensures WalletTotals(payees) != []
  {
    assert Named(payees, payees[0].wallet);
    TotalsAre(payees, payees[0].wallet);
  }

  lemma StrongerIsPreorder(tie: TieBreak)
    ensures Preorder(First(tie))
  {
    StringsAreOrdered();
    forall a, b, c | First(tie)(a, b) && First(tie)(b, c) ensures First(tie)(a, c) {}
    forall a, b ensures First(tie)(a, b) || First(tie)(b, a) {}
  }

  // A stable sort puts first the earliest of the elements nothing is stronger than.
  lemma {:induction false} HeadIsEarliest<T(!new)>(s: seq<T>, le: (T, T) -> bool) returns (i: nat)
    requires s != []
    ensures i < |s| && Sort(s, le) != [] && Sort(s, le)[0] == s[i]
    ensures forall j :: 0 <= j < i ==> !le(s[j], s[i])
  {
    SortKeeps(s, le);
    SortKeeps(s[1..], le);
    if |s| == 1 || le(s[0], Sort(s[1..], le)[0]) {
      i := 0;
    } else {
      var i' := HeadIsEarliest(s[1..], le);
      i := i' + 1;
      forall j | 0 <= j < i ensures !le(s[j], s[i]) {
        assert j > 0 ==> s[j] == s[1..][j - 1];
      }
    }
  }

  lemma SortedHead<T(!new)>(s: seq<T>, le: (T, T) -> bool, x: T)
    requires Preorder(le) && x in s
    ensures Sort(s, le) != [] && le(Sort(s, le)[0], x)
  {
    SortKeeps(s, le);
    SortSorts(s, le);
    var k :| 0 <= k < |Sort(s, le)| && Sort(s, le)[k] == x;
    assert k == 0 || le(Sort(s, le)[0], Sort(s, le)[k]);
  }

  // The primary recipient is a credited wallet no other credited wallet beats; ties go to the least
  // address, or to the address credited first.
  lemma PrimaryIsLargest(payees: seq<AuthorShare>, tie: TieBreak) returns (i: nat)
    requires payees != []
    ensures PrimaryPayee(payees, tie).Ok?
    ensures var w := PrimaryPayee(payees, tie).value;
      && Named(payees, w)
      && (forall v :: Named(payees, v) && v != w ==>
            Stake(payees, v) < Stake(payees, w)
            || (Stake(payees, v) == Stake(payees, w) && (tie == ByWallet ==> Less(w, v))))
      && i < |WalletTotals(payees)| && WalletTotals(payees)[i].key == w
      && (tie == ByInput ==> forall j :: 0 <= j < i ==> WalletTotals(payees)[j].value < Stake(payees, w))
  {
    var totals := WalletTotals(payees);
    TotalsNonEmpty(payees);
    StrongerIsPreorder(tie);
    i := HeadIsEarliest(totals, First(tie));
    var top := totals[i];
    TotalsAre(payees, top.key);
    AtIsMember(totals, i);
    forall v | Named(payees, v) && v != top.key
      ensures Stake(payees, v) < Stake(payees, top.key)
           || (Stake(payees, v) == Stake(payees, top.key) && (tie == ByWallet ==> Less(top.key, v)))
    {
      TotalsAre(payees, v);
      AtHasSlot(totals, v);
      var k :| 0 <= k < |totals| && totals[k] == Slot(v, Stake(payees, v));
      SortedHead(totals, First(tie), totals[k]);
      LessTotal(top.key, v);
    }
  }

  // ---------- the primary does not depend on the order of the credits ----------

  lemma {:induction false} StakeAppend(a: seq<AuthorShare>, b: seq<AuthorShare>, w: string)
    ensures Stake(a + b, w) == Stake(a, w) + Stake(b, w)
  {
    if a == [] {
      assert a + b == b;
    } else {
      StakeAppend(a[1..], b, w);
      assert WalletShares(a + b)[1..] == WalletShares((a + b)[1..]);
      assert (a + b)[1..] == a[1..] + b;
      assert WalletShares(a)[1..] == WalletShares(a[1..]);
    }
  }

  lemma StakeAround(b: seq<AuthorShare>, i: nat, w: string)
    requires i < |b|
    ensures Stake(b, w) == Stake([b[i]], w) + Stake(b[..i] + b[i + 1..], w)
  {
    hide Stake;
    assert b == b[..i] + ([b[i]] + b[i + 1..]);
    StakeAppend(b[..i], [b[i]] + b[i + 1..], w);
    StakeAppend([b[i]], b[i + 1..], w);
    StakeAppend(b[..i], b[i + 1..], w);
  }

  lemma {:induction false} StakePermutes(a: seq<AuthorShare>, b: seq<AuthorShare>, w: string)
    requires multiset(a) == multiset(b)
    ensures Stake(a, w) == Stake(b, w)
  {
    hide *;
    SameLength(a, b);
    if a == [] {
      assert a == b;
    } else {
      var i := TakeOut(a, b);
      StakePermutes(a[1..], b[..i] + b[i + 1..], w);
      StakeAround(b, i, w);
      StakeAppend([a[0]], a[1..], w);
      assert [a[0]] + a[1..] == a;
    }
  }

  lemma NamedPermutes(a: seq<AuthorShare>, b: seq<AuthorShare>, w: string)
    requires multiset(a) == multiset(b) && Named(a, w)
    ensures Named(b, w)
  {
    var k :| 0 <= k < |a| && a[k].wallet == w;
    assert a[k] in multiset(b);
    var j :| 0 <= j < |b| && b[j] == a[k];
  }

  lemma PrimaryIsOrderFree(a: seq<AuthorShare>, b: seq<AuthorShare>)
    requires multiset(a) == multiset(b)
    ensures PrimaryPayee(a, ByWallet) == PrimaryPayee(b, ByWallet)
  {
    SameLength(a, b);
    if a != [] {
      var _ := PrimaryIsLargest(a, ByWallet);
      var _ := PrimaryIsLargest(b, ByWallet);
      var v, w := PrimaryPayee(a, ByWallet).value, PrimaryPayee(b, ByWallet).value;
      NamedPermutes(a, b, v);
      NamedPermutes(b, a, w);
      StakePermutes(a, b, v);
      StakePermutes(a, b, w);
      LessTotal(v, w);
    }
  }

  // ---------- micro-USDC per wallet ----------

  function AddInt(a: int, b: int): int { a + b }

  function AsReal(a: int): real { a as real }

  function WalletMicros(allocations: seq<M.MicroAllocation>): seq<Slot<int>> {
    seq(|allocations|, k requires 0 <= k < |allocations| => Slot(allocations[k].wallet, allocations[k].micro))
  }

  function FoldMicroByWallet(allocations: seq<M.MicroAllocation>): seq<Slot<int>> {
    AddAll([], WalletMicros(allocations), AddInt)
  }

  // The allocations of one wallet, added up.
  function Owed(allocations: seq<M.MicroAllocation>, wallet: string): int {
    if allocations == [] then 0
    else (if allocations[0].wallet == wallet then allocations[0].micro else 0) + Owed(allocations[1..], wallet)
  }

  lemma {:induction false} OwedIsAmount(allocations: seq<M.MicroAllocation>, wallet: string)
    ensures Amount(WalletMicros(allocations), Only(wallet), AsReal) == Owed(allocations, wallet) as real
    ensures Amount(WalletMicros(allocations), Any(), AsReal) == Sum(M.Micros(allocations)) as real
  {
    if allocations != [] {
      OwedIsAmount(allocations[1..], wallet);
      assert WalletMicros(allocations)[1..] == WalletMicros(allocations[1..]);
      assert M.Micros(allocations)[1..] == M.Micros(allocations[1..]);
    }
  }

  function SlotTotal(slots: seq<Slot<int>>): int {
    if slots == [] then 0 else slots[0].value + SlotTotal(slots[1..])
  }

  lemma {:induction false} SlotTotalIsAmount(slots: seq<Slot<int>>)
    ensures Amount(slots, Any(), AsReal) == SlotTotal(slots) as real
  {
    if slots != [] { SlotTotalIsAmount(slots[1..]); }
  }

  predicate HasWallet(allocations: seq<M.MicroAllocation>, wallet: string) {
    exists k :: 0 <= k < |allocations| && allocations[k].wallet == wallet
  }

  lemma FoldIsOwed(allocations: seq<M.MicroAllocation>, wallet: string)
    ensures DistinctKeys(FoldMicroByWallet(allocations))
    ensures At(FoldMicroByWallet(allocations), wallet)
         == if HasWallet(allocations, wallet) then Some(Owed(allocations, wallet)) else None
    ensures SlotTotal(FoldMicroByWallet(allocations)) == Sum(M.Micros(allocations))
  {
    var entries, folded := WalletMicros(allocations), FoldMicroByWallet(allocations);
    AddAllConserves([], entries, AddInt, AsReal, Only(wallet));
    AddAllConserves([], entries, AddInt, AsReal, Any());
    AddAllKeys([], entries, AddInt, wallet);
    AmountAt(folded, wallet, AsReal);
    OwedIsAmount(allocations, wallet);
    SlotTotalIsAmount(folded);
    forall k | 0 <= k < |allocations| ensures entries[k].key == allocations[k].wallet {}
  }

  // ---------- the legs ----------

  datatype Leg = Leg(role: string, payTo: string, amount: string)

  datatype AuthorLegSplit = AuthorLegSplit(primaryPayTo: string, primaryAmount: string, coauthorLegs: seq<Leg>)

  function CoauthorLegs(slots: seq<Slot<int>>, primary: string): seq<Leg> {
    if slots == [] then []
    else if slots[0].key != primary && slots[0].value > 0 then
      [Leg("coauthor", slots[0].key, Decimal(slots[0].value))] + CoauthorLegs(slots[1..], primary)
    else CoauthorLegs(slots[1..], primary)
  }

  function AmountFor(slots: seq<Slot<int>>, wallet: string): int {
    var micro := At(slots, wallet);
    if micro.Some? then micro.value else 0
  }

  function SplitAuthorLegs(payees: seq<AuthorShare>, price: int, tie: TieBreak): Result<AuthorLegSplit, LegsError> {
    var primary := PrimaryPayee(payees, tie);
    if primary.Err? then Err(primary.error)
    else
      var perWallet := FoldMicroByWallet(M.SplitMicro(price, payees));
      Ok(AuthorLegSplit(primary.value, Decimal(AmountFor(perWallet, primary.value)),
                        CoauthorLegs(perWallet, primary.value)))
  }

  lemma {:induction false} CoauthorLegsSnoc(slots: seq<Slot<int>>, s: Slot<int>, primary: string)
    ensures CoauthorLegs(slots + [s], primary)
         == CoauthorLegs(slots, primary)
          + if s.key != primary && s.value > 0 then [Leg("coauthor", s.key, Decimal(s.value))] else []
  {
    if slots != [] {
      CoauthorLegsSnoc(slots[1..], s, primary);
      assert (slots + [s])[1..] == slots[1..] + [s];
    } else {
      assert (slots + [s])[1..] == [];
    }
  }

  // The source's loop over the folded map.
  method SplitLegsLoop(payees: seq<AuthorShare>, price: int, tie: TieBreak)
    returns (r: Result<AuthorLegSplit, LegsError>)
    ensures r == SplitAuthorLegs(payees, price, tie)
  {
    var found := PrimaryPayee(payees, tie);
    if found.Err? { return Err(found.error); }
    var primary := found.value;
    var perWallet := FoldMicroByWallet(M.SplitMicro(price, payees));
    FoldIsOwed(M.SplitMicro(price, payees), primary);
    var amount, legs := "0", [];
    var i := 0;
    NoSlots(primary);
    hide Decimal, CoauthorLegs, AmountFor, AddAll, FoldMicroByWallet, At, M.SplitMicro;
    while i < |perWallet|
      invariant 0 <= i <= |perWallet|
      invariant amount == Decimal(AmountFor(perWallet[..i], primary))
      invariant legs == CoauthorLegs(perWallet[..i], primary)
    {
      var s := perWallet[i];
      assert perWallet[..i + 1] == perWallet[..i] + [s];
      CoauthorLegsSnoc(perWallet[..i], s, primary);
      AmountSnoc(perWallet[..i], s, primary);
      if s.key == primary {
        amount := Decimal(s.value);
      } else if s.value > 0 {
        legs := legs + [Leg("coauthor", s.key, Decimal(s.value))];
      }
      i := i + 1;
    }
    assert perWallet[..i] == perWallet;
    return Ok(AuthorLegSplit(primary, amount, legs));
  }

  lemma NoSlots(primary: string)
    ensures AmountFor([], primary) == 0 && CoauthorLegs([], primary) == [] && Decimal(0) == "0"
  {
  }

  lemma AmountSnoc(slots: seq<Slot<int>>, s: Slot<int>, key: string)
    requires forall k :: 0 <= k < |slots| ==> slots[k].key != s.key
    ensures AmountFor(slots + [s], key) == if s.key == key then s.value else AmountFor(slots, key)
  {
    AtSnoc(slots, s, key);
  }

  lemma {:induction false} AtSnoc(slots: seq<Slot<int>>, s: Slot<int>, key: string)
    requires forall k :: 0 <= k < |slots| ==> slots[k].key != s.key
    ensures At(slots + [s], key) == if s.key == key then Some(s.value) else At(slots, key)
  {
    if slots != [] {
      AtSnoc(slots[1..], s, key);
      assert (slots + [s])[1..] == slots[1..] + [s];
    }
  }

  // ---------- what the legs charge ----------

  function TotalCharged(legs: seq<Leg>): Result<nat, P.PriceError> {
    if legs == [] then Ok(0) else PlusAmount(P.ToMicro(legs[0].amount), TotalCharged(legs[1..]))
  }

  function Amounts(legs: seq<Leg>): seq<Result<nat, P.PriceError>> {
    seq(|legs|, k requires 0 <= k < |legs| => P.ToMicro(legs[k].amount))
  }

  function AddUp(amounts: seq<Result<nat, P.PriceError>>): Result<nat, P.PriceError> {
    if amounts == [] then Ok(0) else PlusAmount(amounts[0], AddUp(amounts[1..]))
  }

  lemma {:induction false} TotalIsAddUp(legs: seq<Leg>)
    ensures TotalCharged(legs) == AddUp(Amounts(legs))
  {
    hide P.ToMicro;
    if legs != [] {
      TotalIsAddUp(legs[1..]);
      assert Amounts(legs)[1..] == Amounts(legs[1..]);
    }
  }

  function PlusAmount(a: Result<nat, P.PriceError>, b: Result<nat, P.PriceError>): Result<nat, P.PriceError> {
    if a.Err? then a else if b.Err? then b else Ok(a.value + b.value)
  }

  lemma {:induction false} TotalChargedAppend(a: seq<Leg>, b: seq<Leg>)
    ensures TotalCharged(a + b) == PlusAmount(TotalCharged(a), TotalCharged(b))
  {
    hide P.ToMicro;
    if a == [] {
      assert a + b == b;
    } else {
      TotalChargedAppend(a[1..], b);
      assert (a + b)[1..] == a[1..] + b;
    }
  }

  lemma DecimalCharges(n: nat)
    ensures P.ToMicro(Decimal(n)) == Ok(n)
  {
    P.ToMicroReadsPrint(n);
  }

  lemma {:induction false} CoauthorTotal(slots: seq<Slot<int>>, primary: string)
    requires DistinctKeys(slots) && forall k :: 0 <= k < |slots| ==> slots[k].value >= 0
    ensures AmountFor(slots, primary) >= 0
    ensures TotalCharged(CoauthorLegs(slots, primary)) == Ok(SlotTotal(slots) - AmountFor(slots, primary))
  {
    hide Decimal, P.ToMicro;
    if slots != [] {
      CoauthorTotal(slots[1..], primary);
      if slots[0].key == primary {
        AtNone(slots[1..], primary);
      } else if slots[0].value > 0 {
        DecimalCharges(slots[0].value);
        var rest := CoauthorLegs(slots[1..], primary);
        assert ([Leg("coauthor", slots[0].key, Decimal(slots[0].value))] + rest)[1..] == rest;
      }
    }
  }

  datatype Quote = Quote(price: nat, payees: seq<AuthorShare>, coauthorSplit: bool, extraLegs: seq<Leg>)

  // The author leg and, when the price is split, the co-author legs.
  function AuthorLegs(q: Quote, tie: TieBreak): Result<seq<Leg>, LegsError> {
    var primary := PrimaryPayee(q.payees, tie);
    if primary.Err? then Err(primary.error)
    else if q.coauthorSplit && |WalletTotals(q.payees)| > 1 then
      var split := SplitAuthorLegs(q.payees, q.price, tie).value;
      Ok([Leg("author", split.primaryPayTo, split.primaryAmount)] + split.coauthorLegs)
    else
      Ok([Leg("author", primary.value, Decimal(q.price))])
  }

  function AllLegs(q: Quote, tie: TieBreak): Result<seq<Leg>, LegsError> {
    var legs := AuthorLegs(q, tie);
    if legs.Err? then legs else Ok(legs.value + q.extraLegs)
  }

  predicate SharesWhole(payees: seq<AuthorShare>) {
    && payees != [] && ShareSum(payees) == 1.0
    && forall k :: 0 <= k < |payees| ==> payees[k].share >= 0.0
  }

  lemma FloorIsNonNegative(price: nat, share: real)
    requires share >= 0.0
    ensures M.Times(price, share).Floor >= 0
  {
  }

  lemma {:induction false} OwedNonNegative(allocations: seq<M.MicroAllocation>, wallet: string)
    requires forall k :: 0 <= k < |allocations| ==> allocations[k].micro >= 0
    ensures Owed(allocations, wallet) >= 0
  {
    if allocations != [] { OwedNonNegative(allocations[1..], wallet); }
  }

  // The folded amounts: one slot per credited wallet, none negative, the price in all.
  lemma PerWallet(price: nat, payees: seq<AuthorShare>, w: string)
    requires SharesWhole(payees)
    ensures var a := M.SplitMicro(price, payees); var slots := FoldMicroByWallet(a);
      && DistinctKeys(slots)
      && (forall k :: 0 <= k < |slots| ==> slots[k].value >= 0)
      && SlotTotal(slots) == price
      && At(slots, w) == if Named(payees, w) then Some(Owed(a, w)) else None
  {
    var a := M.SplitMicro(price, payees);
    var slots := FoldMicroByWallet(a);
    M.SplitIsExact(price, payees);
    FoldIsOwed(a, w);
    forall k | 0 <= k < |a| ensures a[k].micro >= 0 { FloorIsNonNegative(price, payees[k].share); }
    forall k | 0 <= k < |slots| ensures slots[k].value >= 0 {
      AtIsMember(slots, k);
      FoldIsOwed(a, slots[k].key);
      OwedNonNegative(a, slots[k].key);
    }
  }

  // Splitting the price among the authors never changes what the buyer pays in all.
  lemma TotalIsPricePlusExtras(q: Quote, tie: TieBreak)
    requires SharesWhole(q.payees)
    ensures AuthorLegs(q, tie).Ok? && TotalCharged(AuthorLegs(q, tie).value) == Ok(q.price)
    ensures AllLegs(q, tie).Ok?
    ensures TotalCharged(AllLegs(q, tie).value) == PlusAmount(Ok(q.price), TotalCharged(q.extraLegs))
  {
    hide Decimal, P.ToMicro, CoauthorLegs, FoldMicroByWallet, WalletTotals, SlotTotal;
    var _ := PrimaryIsLargest(q.payees, tie);
    var primary := PrimaryPayee(q.payees, tie).value;
    var legs := AuthorLegs(q, tie).value;
    assert legs == [legs[0]] + legs[1..];
    if q.coauthorSplit && |WalletTotals(q.payees)| > 1 {
      var slots := FoldMicroByWallet(M.SplitMicro(q.price, q.payees));
      PerWallet(q.price, q.payees, primary);
      CoauthorTotal(slots, primary);
      DecimalCharges(AmountFor(slots, primary));
      assert legs[1..] == CoauthorLegs(slots, primary);
    } else {
      DecimalCharges(q.price);
      assert legs[1..] == [];
    }
    TotalChargedAppend(legs, q.extraLegs);
  }

  predicate PaysTo(legs: seq<Leg>, wallet: string) {
    exists k :: 0 <= k < |legs| && legs[k].payTo == wallet
  }

  predicate DistinctPayees(legs: seq<Leg>) {
    forall j, k :: 0 <= j < k < |legs| ==> legs[j].payTo != legs[k].payTo
  }

  lemma PaysToCons(head: Leg, rest: seq<Leg>, w: string)
    ensures PaysTo([head] + rest, w) <==> head.payTo == w || PaysTo(rest, w)
    ensures !PaysTo(rest, head.payTo) && DistinctPayees(rest) ==> DistinctPayees([head] + rest)
  {
    var legs := [head] + rest;
    assert legs[0] == head;
    if k :| 0 <= k < |rest| && rest[k].payTo == w { assert legs[k + 1] == rest[k]; }
    if k :| 0 <= k < |legs| && legs[k].payTo == w { assert k > 0 ==> legs[k] == rest[k - 1]; }
    if !PaysTo(rest, head.payTo) && DistinctPayees(rest) {
      forall j, k | 0 <= j < k < |legs| ensures legs[j].payTo != legs[k].payTo {
        assert legs[k] == rest[k - 1];
        assert j > 0 ==> legs[j] == rest[j - 1];
      }
    }
  }

  // Exactly the other wallets owed something get a leg.
  lemma {:induction false} CoauthorLegsPay(slots: seq<Slot<int>>, primary: string, w: string)
    requires DistinctKeys(slots)
    ensures PaysTo(CoauthorLegs(slots, primary), w) <==> w != primary && AmountFor(slots, w) > 0
  {
    hide Decimal;
    if slots != [] {
      var rest := CoauthorLegs(slots[1..], primary);
      CoauthorLegsPay(slots[1..], primary, w);
      if slots[0].key == w { AtNone(slots[1..], w); }
      if slots[0].key != primary && slots[0].value > 0 {
        PaysToCons(Leg("coauthor", slots[0].key, Decimal(slots[0].value)), rest, w);
      }
    }
  }

  lemma {:induction false} CoauthorLegsDistinct(slots: seq<Slot<int>>, primary: string)
    requires DistinctKeys(slots)
    ensures DistinctPayees(CoauthorLegs(slots, primary))
  {
    hide Decimal, AmountFor;
    if slots != [] {
      var rest := CoauthorLegs(slots[1..], primary);
      CoauthorLegsDistinct(slots[1..], primary);
      if slots[0].key != primary && slots[0].value > 0 {
        NoSecondLeg(slots, primary);
        PaysToCons(Leg("coauthor", slots[0].key, Decimal(slots[0].value)), rest, slots[0].key);
      }
    }
  }

  lemma NoSecondLeg(slots: seq<Slot<int>>, primary: string)
    requires slots != [] && DistinctKeys(slots)
    ensures !PaysTo(CoauthorLegs(slots[1..], primary), slots[0].key)
  {
    hide CoauthorLegs, PaysTo;
    CoauthorLegsPay(slots[1..], primary, slots[0].key);
    AtNone(slots[1..], slots[0].key);
  }

  lemma {:induction false} CoauthorLegAmounts(slots: seq<Slot<int>>, primary: string, k: nat)
    requires DistinctKeys(slots) && k < |CoauthorLegs(slots, primary)|
    ensures var leg := CoauthorLegs(slots, primary)[k];
            leg.role == "coauthor" && leg.amount == Decimal(AmountFor(slots, leg.payTo))
  {
    hide Decimal;
    if slots[0].key != primary && slots[0].value > 0 {
      if k > 0 { CoauthorLegAmounts(slots[1..], primary, k - 1); CoauthorElsewhere(slots, primary, k - 1); }
    } else {
      CoauthorLegAmounts(slots[1..], primary, k);
      CoauthorElsewhere(slots, primary, k);
    }
  }

  lemma CoauthorElsewhere(slots: seq<Slot<int>>, primary: string, k: nat)
    requires slots != [] && DistinctKeys(slots) && k < |CoauthorLegs(slots[1..], primary)|
    ensures slots[0].key != CoauthorLegs(slots[1..], primary)[k].payTo
  {
    hide CoauthorLegs;
    NoSecondLeg(slots, primary);
  }

  // When the price is split: no address is paid twice; the addresses with a leg are the primary and
  // those owed at least one micro, and each leg is for what its address is owed.
  lemma OneLegPerWallet(q: Quote, tie: TieBreak, w: string)
    requires SharesWhole(q.payees) && q.coauthorSplit && |WalletTotals(q.payees)| > 1
    ensures var a := M.SplitMicro(q.price, q.payees); var legs := AuthorLegs(q, tie).value;
      && AuthorLegs(q, tie).Ok? && legs != []
      && Ok(legs[0].payTo) == PrimaryPayee(q.payees, tie)
      && DistinctPayees(legs)
      && (PaysTo(legs, w) <==> w == legs[0].payTo || Owed(a, w) > 0)
      && (forall k :: 0 <= k < |legs| ==> legs[k].amount == Decimal(Owed(a, legs[k].payTo)))
  {
    hide Decimal, SharesWhole, CoauthorLegs, FoldMicroByWallet;
    var a := M.SplitMicro(q.price, q.payees);
    var slots := FoldMicroByWallet(a);
    var primary := PrimaryPayee(q.payees, tie).value;
    var rest := CoauthorLegs(slots, primary);
    var head := Leg("author", primary, Decimal(AmountFor(slots, primary)));
    assert AuthorLegs(q, tie).value == [head] + rest;
    AmountIsOwed(a, w);
    AmountIsOwed(a, primary);
    CoauthorLegsPay(slots, primary, w);
    CoauthorLegsPay(slots, primary, primary);
    CoauthorLegsDistinct(slots, primary);
    PaysToCons(head, rest, w);
    forall k | 0 <= k < |rest| ensures rest[k].amount == Decimal(Owed(a, rest[k].payTo)) {
      CoauthorLegAmounts(slots, primary, k);
      AmountIsOwed(a, rest[k].payTo);
    }
  }

  lemma {:induction false} NothingOwed(allocations: seq<M.MicroAllocation>, w: string)
    requires !HasWallet(allocations, w)
    ensures Owed(allocations, w) == 0
  {
    if allocations != [] {
      assert allocations[0].wallet != w;
      NothingOwed(allocations[1..], w);
    }
  }

  lemma AmountIsOwed(allocations: seq<M.MicroAllocation>, w: string)
    ensures DistinctKeys(FoldMicroByWallet(allocations))
    ensures AmountFor(FoldMicroByWallet(allocations), w) == Owed(allocations, w)
  {
    FoldIsOwed(allocations, w);
    if !HasWallet(allocations, w) { NothingOwed(allocations, w); }
  }
}
