// Assembling the 402 challenge: requirement objects mutated in place, one per leg, each with its own
// nonce in mock mode; when a leg is worth nothing; and what was settled of what was asked.
module Build402 {
  import opened Wrappers
  import opened Sorting
  import opened Text
  import opened Accumulate
  import opened Credits
  import opened Legs

  // The HMAC is taken over everything in the nonce, so a nonce is the facts it binds.
  datatype Nonce = Nonce(expMs: int, rand: string, amount: string, payTo: string, network: string)

  class Requirements {
    var amount: string
    var payTo: string
    var nonce: Option<Nonce>
    const network: string

    constructor (amount: string, payTo: string, network: string)
      ensures this.amount == amount && this.payTo == payTo && this.network == network && nonce == None
    {
      this.amount, this.payTo, this.network, nonce := amount, payTo, network, None;
    }

    function Bound(expMs: int, rand: string): Nonce
      reads this
    {
      Nonce(expMs, rand, amount, payTo, network)
    }
  }

  datatype LegReq = LegReq(role: string, requirements: Requirements)

  function Objects(legs: seq<LegReq>): set<Requirements> {
    set k | 0 <= k < |legs| :: legs[k].requirements
  }

  function View(legs: seq<LegReq>): seq<Leg>
    reads Objects(legs)
  {
    seq(|legs|, k requires 0 <= k < |legs| reads Objects(legs) =>
      Leg(legs[k].role, legs[k].requirements.payTo, legs[k].requirements.amount))
  }

  ghost predicate Separate(legs: seq<LegReq>) {
    forall j, k :: 0 <= j < k < |legs| ==> legs[j].requirements != legs[k].requirements
  }

  ghost predicate Blank(legs: seq<LegReq>, network: string)
    reads Objects(legs)
  {
    forall k :: 0 <= k < |legs| ==> legs[k].requirements.nonce == None && legs[k].requirements.network == network
  }

  datatype Challenge = Challenge(requirements: Requirements, legs: seq<LegReq>)

  method Append(legs: seq<LegReq>, more: seq<Leg>, network: string) returns (all: seq<LegReq>)
    requires Separate(legs) && Blank(legs, network)
    ensures Separate(all) && Blank(all, network)
    ensures |all| == |legs| + |more| && all[..|legs|] == legs
    ensures forall k :: |legs| <= k < |all| ==> fresh(all[k].requirements)
    ensures View(all) == View(legs) + more
  {
    all := legs;
    var i := 0;
    while i < |more|
      invariant 0 <= i <= |more|
      invariant |all| == |legs| + i && all[..|legs|] == legs
      invariant forall k :: |legs| <= k < |all| ==> fresh(all[k].requirements)
      invariant Separate(all) && Blank(all, network)
      invariant View(all) == View(legs) + more[..i]
    {
      var was := all;
      ghost var before := View(was);
      ghost var first := View(legs);
      var r := new Requirements(more[i].amount, more[i].payTo, network);
      assert View(was) == before && View(legs) == first;
      assert forall k :: 0 <= k < |all| ==> all[k].requirements != r;
      all := was + [LegReq(more[i].role, r)];
      assert View(all) == View(was) + [more[i]];
      assert more[..i + 1] == more[..i] + [more[i]];
      i := i + 1;
    }
  }

  // The primary's leg starts at the full price and is cut down to its own share when the price is split.
  method AuthorLegsLoop(q: Quote, tie: TieBreak) returns (r: Result<seq<Leg>, LegsError>)
    ensures r == AuthorLegs(q, tie)
    ensures r.Ok? ==> r.value != [] && r.value[0].role == "author"
  {
    hide M.SplitMicro, FoldMicroByWallet, CoauthorLegs, Decimal;
    var primary := PrimaryPayee(q.payees, tie);
    if primary.Err? { return Err(primary.error); }
    var author := Leg("author", primary.value, Decimal(q.price));
    var coauthors := [];
    if q.coauthorSplit && |WalletTotals(q.payees)| > 1 {
      var split := SplitLegsLoop(q.payees, q.price, tie);
      author := author.(payTo := split.value.primaryPayTo, amount := split.value.primaryAmount);
      coauthors := split.value.coauthorLegs;
    }
    assert [author] + [] == [author];
    return Ok([author] + coauthors);
  }

  // The challenge holds the specified legs, in order; the returned requirements are leg 0's own
  // object; and in mock mode each leg carries a nonce bound to its final amount and recipient.
  method Assemble(q: Quote, network: string, tie: TieBreak, mock: bool, expMs: int, rand: nat -> string)
    returns (r: Result<Challenge, LegsError>)
    ensures r.Ok? == AllLegs(q, tie).Ok?
    ensures r.Err? ==> r.error == AllLegs(q, tie).error
    ensures r.Ok? ==>
      && r.value.legs != [] && r.value.legs[0].requirements == r.value.requirements
      && Separate(r.value.legs) && (forall x :: x in Objects(r.value.legs) ==> fresh(x))
      && View(r.value.legs) == AllLegs(q, tie).value
      && forall k :: 0 <= k < |r.value.legs| ==>
           var req := r.value.legs[k].requirements;
           req.network == network && req.nonce == if mock then Some(req.Bound(expMs, rand(k))) else None
  {
    hide AuthorLegs, Legs.PrimaryPayee;
    var author := AuthorLegsLoop(q, tie);
    if author.Err? { return Err(author.error); }
    var requirements := new Requirements(author.value[0].amount, author.value[0].payTo, network);
    var legs := [LegReq("author", requirements)];
    assert View(legs) == author.value[..1];
    legs := Append(legs, author.value[1..] + q.extraLegs, network);
    assert View(legs) == author.value + q.extraLegs;
    assert legs[0].requirements == requirements;
    if mock { IssueNonces(legs, network, expMs, rand); }
    return Ok(Challenge(requirements, legs));
  }

  method IssueNonces(legs: seq<LegReq>, network: string, expMs: int, rand: nat -> string)
    requires Separate(legs) && Blank(legs, network)
    modifies Objects(legs)
    ensures View(legs) == old(View(legs))
    ensures forall k :: 0 <= k < |legs| ==>
      legs[k].requirements.nonce == Some(legs[k].requirements.Bound(expMs, rand(k)))
  {
    ghost var was := View(legs);
    var i := 0;
    while i < |legs|
      invariant 0 <= i <= |legs|
      invariant View(legs) == was
      invariant forall k :: 0 <= k < i ==>
        legs[k].requirements.nonce == Some(legs[k].requirements.Bound(expMs, rand(k)))
    {
      var r := legs[i].requirements;
      r.nonce := Some(r.Bound(expMs, rand(i)));
      i := i + 1;
    }
  }

  // ---------- legs worth nothing ----------

  lemma {:induction false} OwedIsZero(a: seq<M.MicroAllocation>, w: string)
    requires forall k :: 0 <= k < |a| ==> a[k].micro >= 0
    ensures Owed(a, w) == 0 <==> forall k :: 0 <= k < |a| && a[k].wallet == w ==> a[k].micro == 0
  {
    if a != [] {
      OwedIsZero(a[1..], w);
      OwedNonNegative(a[1..], w);
      assert forall k :: 1 <= k < |a| ==> a[k] == a[1..][k - 1];
      assert forall k :: 0 <= k < |a[1..]| ==> a[1..][k] == a[k + 1];
    }
  }

  // A payee's cut is empty: it floors to nothing and the left-over micros run out before its turn.
  predicate Unpaid(price: nat, payees: seq<AuthorShare>, m: nat)
    requires m < |payees|
  {
    && M.Times(price, payees[m].share).Floor == 0
    && M.LeftOver(price, payees) <= |M.AheadOf(M.Floors(price, payees), m)|
  }

  lemma OwedNothing(price: nat, payees: seq<AuthorShare>, w: string)
    requires SharesWhole(payees)
    ensures Owed(M.SplitMicro(price, payees), w) >= 0
    ensures Owed(M.SplitMicro(price, payees), w) == 0
       <==> forall m :: 0 <= m < |payees| && payees[m].wallet == w ==> Unpaid(price, payees, m)
  {
    var a := M.SplitMicro(price, payees);
    M.SplitIsExact(price, payees);
    forall m | 0 <= m < |payees| ensures a[m].micro >= 0 && (a[m].micro == 0 <==> Unpaid(price, payees, m)) {
      FloorIsNonNegative(price, payees[m].share);
    }
    OwedIsZero(a, w);
    OwedNonNegative(a, w);
  }

  lemma DecimalZero(n: nat)
    ensures Decimal(n) == "0" <==> n == 0
  {
    DecimalCharges(n);
    DecimalCharges(0);
    assert Decimal(0) == "0";
  }

  // The content-gating leg is for nothing exactly when every author behind it goes unpaid.
  lemma PrimaryLegIsEmptyWhen(q: Quote, tie: TieBreak)
    requires SharesWhole(q.payees) && q.coauthorSplit && |WalletTotals(q.payees)| > 1
    ensures var legs := AuthorLegs(q, tie).value;
      && AuthorLegs(q, tie).Ok? && legs != []
      && (legs[0].amount == "0"
          <==> forall m :: 0 <= m < |q.payees| && Ok(q.payees[m].wallet) == PrimaryPayee(q.payees, tie)
                 ==> Unpaid(q.price, q.payees, m))
  {
    hide Decimal, M.SplitMicro, Owed;
    var w := PrimaryPayee(q.payees, tie).value;
    OneLegPerWallet(q, tie, w);
    OwedNothing(q.price, q.payees, w);
    DecimalZero(Owed(M.SplitMicro(q.price, q.payees), w));
  }

  // Every other credited wallet has its own leg except those left unpaid.
  lemma WalletHasLegWhen(q: Quote, tie: TieBreak, w: string)
    requires SharesWhole(q.payees) && q.coauthorSplit && |WalletTotals(q.payees)| > 1
    requires Ok(w) != PrimaryPayee(q.payees, tie)
    ensures AuthorLegs(q, tie).Ok?
    ensures PaysTo(AuthorLegs(q, tie).value, w)
       <==> exists m :: 0 <= m < |q.payees| && q.payees[m].wallet == w && !Unpaid(q.price, q.payees, m)
  {
    hide Decimal, M.SplitMicro, Owed;
    OneLegPerWallet(q, tie, w);
    OwedNothing(q.price, q.payees, w);
  }

  // The remainder follows the floors, not the shares: at one micro-USDC a 60% author credited second
  // is the primary recipient, and its leg is for nothing.
  lemma LargestShareMayGetNothing(x: string, y: string, wx: string, wy: string, tie: TieBreak)
    requires wx != wy
    ensures var q := Quote(1, [AuthorShare(x, wx, 0.4), AuthorShare(y, wy, 0.6)], true, []);
      && PrimaryPayee(q.payees, tie) == Ok(wy)
      && AuthorLegs(q, tie).Ok? && AuthorLegs(q, tie).value != []
      && AuthorLegs(q, tie).value[0].amount == "0"
      && PaysTo(AuthorLegs(q, tie).value, wx)
  {
    var payees := [AuthorShare(x, wx, 0.4), AuthorShare(y, wy, 0.6)];
    var q := Quote(1, payees, true, []);
    TwoShares(payees);
    TwoWallets(payees);
    var _ := PrimaryIsLargest(payees, tie);
    var floors := M.Floors(1, payees);
    assert M.Times(1, 0.4).Floor == 0 && M.Times(1, 0.6).Floor == 0;
    assert floors == [0, 0];
    assert Sum(floors) == 0 by { assert floors[1..] == [0] && [0][1..] == []; }
    assert M.AheadOf(floors, 0) == {};
    assert M.AheadOf(floors, 1) == {0};
    assert Unpaid(1, payees, 1) && !Unpaid(1, payees, 0);
    PrimaryLegIsEmptyWhen(q, tie);
    WalletHasLegWhen(q, tie, wx);
  }

  lemma StakeOfOne(p: AuthorShare, w: string)
    ensures Stake([p], w) == if p.wallet == w then p.share else 0.0
  {
    var e := WalletShares([p]);
    assert e == [Slot(p.wallet, p.share)];
    assert Amount(e[1..], Only(w), SameReal) == 0.0;
    assert Amount(e, Only(w), SameReal)
        == (if e[0].key == w then SameReal(e[0].value) else 0.0) + Amount(e[1..], Only(w), SameReal);
  }

  lemma TwoShares(payees: seq<AuthorShare>)
    requires |payees| == 2
    ensures ShareSum(payees) == payees[0].share + payees[1].share
    ensures payees[0].wallet != payees[1].wallet ==>
      Stake(payees, payees[0].wallet) == payees[0].share && Stake(payees, payees[1].wallet) == payees[1].share
  {
    hide *;
    var a, b := [payees[0]], [payees[1]];
    assert payees == a + b;
    ShareSumAppend(a, b);
    ShareOfOne(payees[0]);
    ShareOfOne(payees[1]);
    forall k | 0 <= k < 2
      ensures Stake(payees, payees[k].wallet) == Stake(a, payees[k].wallet) + Stake(b, payees[k].wallet)
    {
      StakeAppend(a, b, payees[k].wallet);
    }
    StakeOfOne(payees[0], payees[0].wallet);
    StakeOfOne(payees[1], payees[0].wallet);
    StakeOfOne(payees[0], payees[1].wallet);
    StakeOfOne(payees[1], payees[1].wallet);
  }

  lemma TwoWallets(payees: seq<AuthorShare>)
    requires |payees| == 2 && payees[0].wallet != payees[1].wallet
    ensures |WalletTotals(payees)| > 1
  {
    assert Named(payees, payees[0].wallet) && Named(payees, payees[1].wallet);
    TotalsAre(payees, payees[0].wallet);
    TotalsAre(payees, payees[1].wallet);
    AtHasSlot(WalletTotals(payees), payees[0].wallet);
    AtHasSlot(WalletTotals(payees), payees[1].wallet);
  }

  // ---------- from the credits tree to the wire ----------

  // Whatever the tree, whoever shares a wallet and whether or not the price is split on chain, the
  // author and co-author legs of a resolvable article charge its price exactly.
  lemma CreditsToWire(contributors: seq<Contributor>, price: nat, coauthorSplit: bool, extra: seq<Leg>, tie: TieBreak)
    requires WeightsPositive(contributors) && WalletsNamed(contributors) && AnyPayable(contributors)
    ensures ResolvePayees(contributors).Ok?
    ensures var q := Quote(price, ResolvePayees(contributors).value, coauthorSplit, extra);
      && SharesWhole(q.payees) && AllLegs(q, tie).Ok?
      && TotalCharged(AllLegs(q, tie).value) == PlusAmount(Ok(price), TotalCharged(extra))
  {
    hide AllLegs, TotalCharged;
    PayeesSumToOne(contributors);
    TotalIsPricePlusExtras(Quote(price, ResolvePayees(contributors).value, coauthorSplit, extra), tie);
  }

  // ---------- what was settled of what was asked ----------

  function SettledCharged(legs: seq<Leg>, forgone: seq<Leg>): Result<nat, P.PriceError> {
    var f, t := TotalCharged(forgone), TotalCharged(legs);
    if f.Err? then f else if t.Err? then t else Ok(if t.value > f.value then t.value - f.value else 0)
  }

  function Kept<T>(items: seq<T>, keep: seq<bool>): seq<T>
    requires |keep| == |items|
    decreases |items|
  {
    if items == [] then []
    else if keep[0] then [items[0]] + Kept(items[1..], keep[1..])
    else Kept(items[1..], keep[1..])
  }

  function Not(keep: seq<bool>): seq<bool> { seq(|keep|, k requires 0 <= k < |keep| => !keep[k]) }

  lemma {:induction false} KeptAddUp(amounts: seq<Result<nat, P.PriceError>>, keep: seq<bool>)
    requires |keep| == |amounts| && AddUp(amounts).Ok?
    ensures AddUp(Kept(amounts, keep)).Ok? && AddUp(Kept(amounts, Not(keep))).Ok?
    ensures AddUp(amounts).value == AddUp(Kept(amounts, keep)).value + AddUp(Kept(amounts, Not(keep))).value
    decreases |amounts|
  {
    if amounts != [] {
      KeptAddUp(amounts[1..], keep[1..]);
      assert Not(keep)[1..] == Not(keep[1..]);
      var a, b := Kept(amounts[1..], keep[1..]), Kept(amounts[1..], Not(keep[1..]));
      assert ([amounts[0]] + a)[1..] == a && ([amounts[0]] + b)[1..] == b;
    }
  }

  lemma {:induction false} AmountsKept(legs: seq<Leg>, keep: seq<bool>)
    requires |keep| == |legs|
    ensures Amounts(Kept(legs, keep)) == Kept(Amounts(legs), keep)
    decreases |legs|
  {
    hide P.ToMicro;
    if legs != [] {
      AmountsKept(legs[1..], keep[1..]);
      assert Amounts(legs)[1..] == Amounts(legs[1..]);
      assert Amounts([legs[0]] + Kept(legs[1..], keep[1..]))
          == [Amounts(legs)[0]] + Amounts(Kept(legs[1..], keep[1..]));
    }
  }

  // When the forgone legs are some of the legs asked for, what was settled is exactly the others.
  lemma SettledIsTheRest(legs: seq<Leg>, keep: seq<bool>)
    requires |keep| == |legs| && TotalCharged(legs).Ok?
    ensures SettledCharged(legs, Kept(legs, Not(keep))) == TotalCharged(Kept(legs, keep))
  {
    hide TotalCharged, AddUp, Kept, Amounts;
    TotalIsAddUp(legs);
    TotalIsAddUp(Kept(legs, keep));
    TotalIsAddUp(Kept(legs, Not(keep)));
    AmountsKept(legs, keep);
    AmountsKept(legs, Not(keep));
    AmountsLength(legs);
    KeptAddUp(Amounts(legs), keep);
  }

  lemma AmountsLength(legs: seq<Leg>)
    ensures |Amounts(legs)| == |legs|
  {
  }
}
