// From a credits tree to shares: unpayable contributors are dropped, their weight redistributed, and
// what one author earns through several branches is added up. Shares are exact reals.
module Credits {
  import opened Wrappers
  import opened Sorting
  import opened Accumulate

  datatype Contributor = Contributor(
    authorId: string, weight: Option<real>, wallet: Option<string>, members: seq<Contributor>)

  datatype AuthorShare = AuthorShare(authorId: string, wallet: string, share: real)

  datatype CreditsError = ZeroWeights | SharesMiss

  function Weight(c: Contributor): real { if c.weight.Some? then c.weight.value else 1.0 }

  // A leaf is payable if it names a wallet, a composite if any member is.
  predicate IsPayable(c: Contributor)
    decreases c, 0
  {
    if c.members != [] then AnyPayable(c.members) else c.wallet.Some?
  }

  predicate AnyPayable(cs: seq<Contributor>)
    decreases cs, 1
  {
    cs != [] && (IsPayable(cs[0]) || AnyPayable(cs[1..]))
  }

  function PayableWeight(cs: seq<Contributor>): real {
    if cs == [] then 0.0
    else (if IsPayable(cs[0]) then Weight(cs[0]) else 0.0) + PayableWeight(cs[1..])
  }

  function Portion(weight: real, total: real, parent: real): real
    requires total > 0.0
  {
    weight / total * parent
  }

  function ResolveContributors(cs: seq<Contributor>, parent: real): Result<seq<AuthorShare>, CreditsError>
    decreases cs, 1
  {
    if !AnyPayable(cs) then Ok([])
    else if PayableWeight(cs) <= 0.0 then Err(ZeroWeights)
    else ResolveEach(cs, PayableWeight(cs), parent)
  }

  // One contributor's entries, for its slice of the parent's share.
  function ResolveOne(c: Contributor, slice: real): Result<seq<AuthorShare>, CreditsError>
    decreases c, 2
  {
    if c.members != [] then ResolveContributors(c.members, slice)
    else if c.wallet.Some? && c.wallet.value != "" then Ok([AuthorShare(c.authorId, c.wallet.value, slice)])
    else Ok([])
  }

  function ResolveEach(cs: seq<Contributor>, total: real, parent: real): Result<seq<AuthorShare>, CreditsError>
    requires total > 0.0
    decreases cs, 0
  {
    if cs == [] then Ok([])
    else if !IsPayable(cs[0]) then ResolveEach(cs[1..], total, parent)
    else
      match ResolveOne(cs[0], Portion(Weight(cs[0]), total, parent))
      case Err(e) => Err(e)
      case Ok(first) =>
        match ResolveEach(cs[1..], total, parent)
        case Err(e) => Err(e)
        case Ok(rest) => Ok(first + rest)
  }

  function Shares(payees: seq<AuthorShare>): seq<real> {
    seq(|payees|, k requires 0 <= k < |payees| => payees[k].share)
  }

  function ShareSum(payees: seq<AuthorShare>): real { SumReal(Shares(payees)) }

  lemma ShareSumAppend(a: seq<AuthorShare>, b: seq<AuthorShare>)
    ensures ShareSum(a + b) == ShareSum(a) + ShareSum(b)
  {
    assert Shares(a + b) == Shares(a) + Shares(b);
    SumRealAppend(Shares(a), Shares(b));
  }

  lemma ShareOfOne(p: AuthorShare)
    ensures ShareSum([p]) == p.share
  {
    var s := Shares([p]);
    assert s == [p.share];
    assert SumReal(s[1..]) == 0.0;
    assert SumReal(s) == s[0] + SumReal(s[1..]);
  }

  // No payable leaf carries an empty string for a wallet.
  predicate WalletsNamed(cs: seq<Contributor>)
    decreases cs, 1
  {
    cs != [] ==> WalletNamed(cs[0]) && WalletsNamed(cs[1..])
  }

  predicate WalletNamed(c: Contributor)
    decreases c, 0
  {
    if c.members != [] then WalletsNamed(c.members) else c.wallet != Some("")
  }

  predicate WeightsPositive(cs: seq<Contributor>)
    decreases cs, 1
  {
    cs != [] ==> WeightPositive(cs[0]) && WeightsPositive(cs[1..])
  }

  predicate WeightPositive(c: Contributor)
    decreases c, 0
  {
    Weight(c) > 0.0 && WeightsPositive(c.members)
  }

  lemma PortionAdds(a: real, b: real, total: real, parent: real)
    requires total > 0.0
    ensures Portion(a + b, total, parent) == Portion(a, total, parent) + Portion(b, total, parent)
    ensures Portion(total, total, parent) == parent
    ensures Portion(0.0, total, parent) == 0.0
    ensures a > 0.0 && parent > 0.0 ==> Portion(a, total, parent) > 0.0
  {
    var x, y := a / total, b / total;
    assert (a + b) / total == x + y;
    assert total / total == 1.0;
    assert a > 0.0 ==> x > 0.0;
  }

  // Dropping the unpayable first, what is paid out of a subtree is all that flowed into it.
  lemma {:induction false} ResolveConserves(cs: seq<Contributor>, parent: real)
    requires WalletsNamed(cs) && AnyPayable(cs) && ResolveContributors(cs, parent).Ok?
    ensures ShareSum(ResolveContributors(cs, parent).value) == parent
    decreases cs, 1
  {
    var total := PayableWeight(cs);
    EachConserves(cs, total, parent);
    PortionAdds(0.0, 0.0, total, parent);
  }

  lemma {:induction false} EachConserves(cs: seq<Contributor>, total: real, parent: real)
    requires total > 0.0 && WalletsNamed(cs) && ResolveEach(cs, total, parent).Ok?
    ensures ShareSum(ResolveEach(cs, total, parent).value) == Portion(PayableWeight(cs), total, parent)
    decreases cs, 0
  {
    PortionAdds(0.0, 0.0, total, parent);
    if cs != [] {
      EachConserves(cs[1..], total, parent);
      PortionAdds(Weight(cs[0]), PayableWeight(cs[1..]), total, parent);
      if IsPayable(cs[0]) {
        var slice := Portion(Weight(cs[0]), total, parent);
        OneConserves(cs[0], slice);
        ShareSumAppend(ResolveOne(cs[0], slice).value, ResolveEach(cs[1..], total, parent).value);
      }
    } else {
      assert Shares(ResolveEach(cs, total, parent).value) == [];
    }
  }

  lemma {:induction false} OneConserves(c: Contributor, slice: real)
    requires WalletNamed(c) && IsPayable(c) && ResolveOne(c, slice).Ok?
    ensures ShareSum(ResolveOne(c, slice).value) == slice
    decreases c, 2
  {
    if c.members != [] {
      ResolveConserves(c.members, slice);
    } else {
      ShareOfOne(AuthorShare(c.authorId, c.wallet.value, slice));
    }
  }

  lemma {:induction false} PositiveWeight(cs: seq<Contributor>)
    requires WeightsPositive(cs)
    ensures PayableWeight(cs) >= 0.0 && (AnyPayable(cs) ==> PayableWeight(cs) > 0.0)
  {
    if cs != [] { PositiveWeight(cs[1..]); }
  }

  predicate AllPositive(payees: seq<AuthorShare>) {
    forall k :: 0 <= k < |payees| ==> payees[k].share > 0.0
  }

  // With positive weights nothing is refused, and every share is positive.
  lemma {:induction false} ResolveSucceeds(cs: seq<Contributor>, parent: real)
    requires WeightsPositive(cs) && parent > 0.0
    ensures ResolveContributors(cs, parent).Ok? && AllPositive(ResolveContributors(cs, parent).value)
    decreases cs, 1
  {
    PositiveWeight(cs);
    if AnyPayable(cs) { EachSucceeds(cs, PayableWeight(cs), parent); }
  }

  lemma {:induction false} EachSucceeds(cs: seq<Contributor>, total: real, parent: real)
    requires total > 0.0 && WeightsPositive(cs) && parent > 0.0
    ensures ResolveEach(cs, total, parent).Ok? && AllPositive(ResolveEach(cs, total, parent).value)
    decreases cs, 0
  {
    if cs != [] {
      EachSucceeds(cs[1..], total, parent);
      if IsPayable(cs[0]) {
        var slice := Portion(Weight(cs[0]), total, parent);
        PortionAdds(Weight(cs[0]), 0.0, total, parent);
        if cs[0].members != [] { ResolveSucceeds(cs[0].members, slice); }
      }
    }
  }

  // ---------- one entry per (author, wallet) ----------

  function PayeeKey(p: AuthorShare): string { p.authorId + "\0" + p.wallet }

  function Earn(a: AuthorShare, b: AuthorShare): AuthorShare { a.(share := a.share + b.share) }

  function Keyed(raw: seq<AuthorShare>): seq<Slot<AuthorShare>> {
    seq(|raw|, k requires 0 <= k < |raw| => Slot(PayeeKey(raw[k]), raw[k]))
  }

  function ResolvePayees(contributors: seq<Contributor>): Result<seq<AuthorShare>, CreditsError> {
    match ResolveContributors(contributors, 1.0)
    case Err(e) => Err(e)
    case Ok(raw) =>
      var merged := Values(AddAll([], Keyed(raw), Earn));
      if merged == [] then Ok([])
      else if ShareSum(merged) != 1.0 then Err(SharesMiss)
      else Ok(merged)
  }

  method ResolvePayeesLoop(contributors: seq<Contributor>) returns (r: Result<seq<AuthorShare>, CreditsError>)
    ensures r == ResolvePayees(contributors)
  {
    var raw := ResolveContributors(contributors, 1.0);
    if raw.Err? { return raw; }
    var slots := AddLoop(Keyed(raw.value), Earn);
    var merged := Values(slots);
    if merged != [] && ShareSum(merged) != 1.0 { return Err(SharesMiss); }
    return Ok(merged);
  }

  function ShareOf(p: AuthorShare): real { p.share }

  lemma {:induction false} AmountIsShareSum(slots: seq<Slot<AuthorShare>>)
    ensures Amount(slots, Any(), ShareOf) == ShareSum(Values(slots))
  {
    if slots != [] {
      AmountIsShareSum(slots[1..]);
      assert Shares(Values(slots))[1..] == Shares(Values(slots[1..]));
    } else {
      assert Shares(Values(slots)) == [];
    }
  }

  lemma KeyedValues(raw: seq<AuthorShare>)
    ensures Values(Keyed(raw)) == raw
  {
  }

  lemma MergeConserves(raw: seq<AuthorShare>)
    ensures DistinctKeys(AddAll([], Keyed(raw), Earn))
    ensures ShareSum(Values(AddAll([], Keyed(raw), Earn))) == ShareSum(raw)
  {
    AddAllConserves([], Keyed(raw), Earn, ShareOf, Any());
    AmountIsShareSum(AddAll([], Keyed(raw), Earn));
    AmountIsShareSum(Keyed(raw));
    KeyedValues(raw);
  }

  // Entries stay filed under their own author and wallet, and positive shares stay positive.
  ghost predicate Filed(slots: seq<Slot<AuthorShare>>) {
    forall k :: 0 <= k < |slots| ==> slots[k].key == PayeeKey(slots[k].value) && slots[k].value.share > 0.0
  }

  lemma {:induction false} AddFiled(slots: seq<Slot<AuthorShare>>, p: AuthorShare)
    requires Filed(slots) && p.share > 0.0
    ensures Filed(AddInto(slots, PayeeKey(p), p, Earn))
  {
    if slots != [] && slots[0].key != PayeeKey(p) { AddFiled(slots[1..], p); }
  }

  lemma {:induction false} AllFiled(slots: seq<Slot<AuthorShare>>, raw: seq<AuthorShare>)
    requires Filed(slots) && AllPositive(raw)
    ensures Filed(AddAll(slots, Keyed(raw), Earn))
    decreases |raw|
  {
    if raw != [] {
      AddFiled(slots, raw[0]);
      assert Keyed(raw)[1..] == Keyed(raw[1..]);
      AllFiled(AddInto(slots, PayeeKey(raw[0]), raw[0], Earn), raw[1..]);
    } else {
      assert Keyed(raw) == [];
    }
  }

  // Two entries never name the same author and wallet; wallets hold no NUL, so the joined key is exact.
  predicate OneEntryEach(payees: seq<AuthorShare>) {
    forall i, j :: 0 <= i < j < |payees| ==> PayeeKey(payees[i]) != PayeeKey(payees[j])
  }

  // A credits tree with positive weights and named wallets always resolves: to nobody if nobody is
  // payable, and otherwise to positive shares that sum to exactly 1, one entry per author and wallet.
  lemma PayeesSumToOne(contributors: seq<Contributor>)
    requires WeightsPositive(contributors) && WalletsNamed(contributors)
    ensures ResolvePayees(contributors).Ok?
    ensures var payees := ResolvePayees(contributors).value;
            && (payees == [] <==> !AnyPayable(contributors))
            && (payees != [] ==> ShareSum(payees) == 1.0)
            && AllPositive(payees) && OneEntryEach(payees)
  {
    ResolveSucceeds(contributors, 1.0);
    var raw := ResolveContributors(contributors, 1.0).value;
    var slots := AddAll([], Keyed(raw), Earn);
    MergeConserves(raw);
    AllFiled([], raw);
    assert Shares([]) == [];
    if AnyPayable(contributors) {
      ResolveConserves(contributors, 1.0);
    } else {
      assert Keyed(raw) == [];
    }
    forall i, j | 0 <= i < j < |slots| ensures PayeeKey(Values(slots)[i]) != PayeeKey(Values(slots)[j]) {
      assert slots[i].key != slots[j].key;
    }
  }

  // ---------- empty wallet strings ----------

  // Some leaf names a wallet that is not the empty string.
  predicate NamesAny(cs: seq<Contributor>)
    decreases cs, 1
  {
    cs != [] && (NamesOne(cs[0]) || NamesAny(cs[1..]))
  }

  predicate NamesOne(c: Contributor)
    decreases c, 0
  {
    if c.members != [] then NamesAny(c.members) else c.wallet.Some? && c.wallet.value != ""
  }

  lemma {:induction false} UnnamedIsPayable(cs: seq<Contributor>)
    ensures NamesAny(cs) || !WalletsNamed(cs) ==> AnyPayable(cs)
    decreases cs, 1
  {
    if cs != [] {
      UnnamedIsPayable(cs[1..]);
      UnnamedOneIsPayable(cs[0]);
    }
  }

  lemma {:induction false} UnnamedOneIsPayable(c: Contributor)
    ensures NamesOne(c) || !WalletNamed(c) ==> IsPayable(c)
    decreases c, 0
  {
    if c.members != [] { UnnamedIsPayable(c.members); }
  }

  // A subtree pays out all that flowed into it exactly when no leaf in it holds an empty wallet.
  lemma {:induction false} ResolveLoses(cs: seq<Contributor>, parent: real)
    requires WeightsPositive(cs) && parent > 0.0 && AnyPayable(cs)
    ensures ResolveContributors(cs, parent).Ok?
    ensures var out := ResolveContributors(cs, parent).value;
      && ShareSum(out) <= parent && (ShareSum(out) == parent <==> WalletsNamed(cs))
      && (out != [] <==> NamesAny(cs))
    decreases cs, 1
  {
    var total := PayableWeight(cs);
    PositiveWeight(cs);
    EachLoses(cs, total, parent);
    PortionAdds(0.0, 0.0, total, parent);
  }

  lemma {:induction false} EachLoses(cs: seq<Contributor>, total: real, parent: real)
    requires total > 0.0 && WeightsPositive(cs) && parent > 0.0
    ensures ResolveEach(cs, total, parent).Ok?
    ensures var out := ResolveEach(cs, total, parent).value; var due := Portion(PayableWeight(cs), total, parent);
      && ShareSum(out) <= due && (ShareSum(out) == due <==> WalletsNamed(cs))
      && (out != [] <==> NamesAny(cs))
    decreases cs, 0
  {
    hide Portion, ShareSum;
    PortionAdds(0.0, 0.0, total, parent);
    NoShares();
    if cs != [] {
      EachLoses(cs[1..], total, parent);
      PortionAdds(Weight(cs[0]), PayableWeight(cs[1..]), total, parent);
      if IsPayable(cs[0]) {
        var slice := Portion(Weight(cs[0]), total, parent);
        OneLoses(cs[0], slice);
        ShareSumAppend(ResolveOne(cs[0], slice).value, ResolveEach(cs[1..], total, parent).value);
      } else {
        UnnamedOneIsPayable(cs[0]);
      }
    }
  }

  lemma NoShares()
    ensures ShareSum([]) == 0.0
  {
    assert Shares([]) == [];
  }

  lemma {:induction false} OneLoses(c: Contributor, slice: real)
    requires WeightPositive(c) && IsPayable(c) && slice > 0.0
    ensures ResolveOne(c, slice).Ok?
    ensures var out := ResolveOne(c, slice).value;
      && ShareSum(out) <= slice && (ShareSum(out) == slice <==> WalletNamed(c))
      && (out != [] <==> NamesOne(c))
    decreases c, 2
  {
    hide ShareSum;
    NoShares();
    if c.members != [] {
      ResolveLoses(c.members, slice);
    } else if c.wallet.value != "" {
      ShareOfOne(AuthorShare(c.authorId, c.wallet.value, slice));
    }
  }

  lemma MergedIsEmptyWhen(raw: seq<AuthorShare>)
    ensures Values(AddAll([], Keyed(raw), Earn)) == [] <==> raw == []
  {
    if raw != [] {
      AddAllKeys([], Keyed(raw), Earn, PayeeKey(raw[0]));
      assert Keyed(raw)[0].key == PayeeKey(raw[0]);
    } else {
      assert Keyed(raw) == [];
    }
  }

  // A leaf with an empty wallet string is payable but emits nothing. A tree with positive weights is
  // resolved exactly when it has no such leaf, or no other: with only such leaves it reads as free, and
  // with both kinds the lost share is refused.
  lemma ResolvesExactlyWhen(contributors: seq<Contributor>)
    requires WeightsPositive(contributors)
    ensures ResolvePayees(contributors).Ok? <==> WalletsNamed(contributors) || !NamesAny(contributors)
    ensures ResolvePayees(contributors).Err? ==> ResolvePayees(contributors).error == SharesMiss
    ensures ResolvePayees(contributors) == Ok([]) <==> !NamesAny(contributors)
  {
    UnnamedIsPayable(contributors);
    hide ShareSum, WalletsNamed, NamesAny, AnyPayable, AddAll, Values;
    if AnyPayable(contributors) {
      ResolveLoses(contributors, 1.0);
    } else {
      NothingPayable(contributors);
    }
    var raw := ResolveContributors(contributors, 1.0).value;
    MergeConserves(raw);
    MergedIsEmptyWhen(raw);
  }

  lemma NothingPayable(cs: seq<Contributor>)
    requires !AnyPayable(cs)
    ensures ResolveContributors(cs, 1.0) == Ok([])
  {
  }

  // For instance, an author with an empty wallet beside one with a wallet.
  lemma EmptyWalletIsRefused(a: string, b: string, wallet: string)
    requires wallet != ""
    ensures ResolvePayees([Contributor(a, None, Some(""), []), Contributor(b, None, Some(wallet), [])])
         == Err(SharesMiss)
  {
    var cs := [Contributor(a, None, Some(""), []), Contributor(b, None, Some(wallet), [])];
    assert cs[1..] == [cs[1]] && [cs[1]][1..] == [];
    assert WeightsPositive([]) && WeightsPositive(cs[1..]) && WeightsPositive(cs);
    assert NamesAny(cs[1..]) && NamesAny(cs) && !WalletsNamed(cs);
    ResolvesExactlyWhen(cs);
  }
}
