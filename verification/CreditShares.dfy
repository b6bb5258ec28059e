// How large each share is: every path from the root of a credits tree to a leaf that names a wallet earns
// the product of the author's weights along it, each over the payable weight beside it.
module CreditShares {
  import opened Wrappers
  import opened Sorting
  import opened Text
  import opened Accumulate
  import opened Credits

  // The weight as written, 1 where none is.
  function OwnWeight(c: Contributor): real {
    match c.weight
    case Some(w) => w
    case None => 1.0
  }

  // The wallets named at and below a contributor.
  function Wallets(c: Contributor): seq<string>
    decreases c, 0
  {
    if c.members == [] then (match c.wallet case Some(w) => [w] case None => []) else AllWallets(c.members)
  }

  function AllWallets(cs: seq<Contributor>): seq<string>
    decreases cs, 1
  {
    if cs == [] then [] else Wallets(cs[0]) + AllWallets(cs[1..])
  }

  // The weights of the contributors below which some wallet is named.
  function Beside(cs: seq<Contributor>): real {
    if cs == [] then 0.0 else (if Wallets(cs[0]) == [] then 0.0 else OwnWeight(cs[0])) + Beside(cs[1..])
  }

  // One contributor on the way down: its weight, and what it is divided by.
  datatype Turn = Turn(own: real, beside: real)

  datatype LeafPath = LeafPath(turns: seq<Turn>, authorId: string, wallet: Option<string>)

  function Product(turns: seq<Turn>): real {
    if turns == [] then 1.0
    else (if turns[0].beside == 0.0 then 0.0 else turns[0].own / turns[0].beside) * Product(turns[1..])
  }

  function Down(turn: Turn, paths: seq<LeafPath>): seq<LeafPath> {
    seq(|paths|, k requires 0 <= k < |paths| => paths[k].(turns := [turn] + paths[k].turns))
  }

  // Every path from a contributor, or from one of several beside each other, to a leaf.
  function PathsOf(c: Contributor, beside: real): seq<LeafPath>
    decreases c, 1
  {
    var turn := Turn(OwnWeight(c), beside);
    if c.members == [] then [LeafPath([turn], c.authorId, c.wallet)]
    else Down(turn, PathsOfAll(c.members, Beside(c.members)))
  }

  function PathsOfAll(cs: seq<Contributor>, beside: real): seq<LeafPath>
    decreases cs, 0
  {
    if cs == [] then [] else PathsOf(cs[0], beside) + PathsOfAll(cs[1..], beside)
  }

  function LeafPaths(cs: seq<Contributor>): seq<LeafPath> { PathsOfAll(cs, Beside(cs)) }

  // What an author earns on one wallet.
  function Earned(paths: seq<LeafPath>, author: string, wallet: string): real {
    if paths == [] then 0.0
    else
      (if paths[0].authorId == author && paths[0].wallet == Some(wallet) then Product(paths[0].turns) else 0.0)
      + Earned(paths[1..], author, wallet)
  }

  // What is paid to an author on one wallet.
  function PaidOn(payees: seq<AuthorShare>, author: string, wallet: string): real {
    if payees == [] then 0.0
    else
      (if payees[0].authorId == author && payees[0].wallet == wallet then payees[0].share else 0.0)
      + PaidOn(payees[1..], author, wallet)
  }

  // ---------- the two ways of walking the tree agree ----------

  lemma {:induction false} NamedIsPayable(c: Contributor)
    ensures Wallets(c) != [] <==> IsPayable(c)
    decreases c, 0
  {
    if c.members != [] { AllNamedIsPayable(c.members); }
  }

  lemma {:induction false} AllNamedIsPayable(cs: seq<Contributor>)
    ensures AllWallets(cs) != [] <==> AnyPayable(cs)
    decreases cs, 1
  {
    if cs != [] {
      NamedIsPayable(cs[0]);
      AllNamedIsPayable(cs[1..]);
    }
  }

  lemma {:induction false} BesideIsPayable(cs: seq<Contributor>)
    ensures Beside(cs) == PayableWeight(cs)
  {
    if cs != [] {
      NamedIsPayable(cs[0]);
      BesideIsPayable(cs[1..]);
    }
  }

  lemma {:induction false} EarnedAppend(a: seq<LeafPath>, b: seq<LeafPath>, author: string, wallet: string)
    ensures Earned(a + b, author, wallet) == Earned(a, author, wallet) + Earned(b, author, wallet)
  {
    if a == [] {
      assert a + b == b;
    } else {
      assert (a + b)[1..] == a[1..] + b;
      EarnedAppend(a[1..], b, author, wallet);
    }
  }

  lemma {:induction false} PaidAppend(a: seq<AuthorShare>, b: seq<AuthorShare>, author: string, wallet: string)
    ensures PaidOn(a + b, author, wallet) == PaidOn(a, author, wallet) + PaidOn(b, author, wallet)
  {
    if a == [] {
      assert a + b == b;
    } else {
      assert (a + b)[1..] == a[1..] + b;
      PaidAppend(a[1..], b, author, wallet);
    }
  }

  function Ratio(turn: Turn): real { if turn.beside == 0.0 then 0.0 else turn.own / turn.beside }

  lemma {:induction false} EarnedDown(turn: Turn, paths: seq<LeafPath>, author: string, wallet: string)
    ensures Earned(Down(turn, paths), author, wallet) == Ratio(turn) * Earned(paths, author, wallet)
  {
    if paths != [] {
      EarnedDown(turn, paths[1..], author, wallet);
      var path := paths[0];
      assert Down(turn, paths)[0] == path.(turns := [turn] + path.turns);
      assert Down(turn, paths)[1..] == Down(turn, paths[1..]);
      assert ([turn] + path.turns)[1..] == path.turns;
      assert Product([turn] + path.turns) == Ratio(turn) * Product(path.turns);
    }
  }

  // Below a contributor no wallet is named under, no path earns anything.
  lemma {:induction false} UnnamedEarnsNothing(c: Contributor, beside: real, author: string, wallet: string)
    requires Wallets(c) == []
    ensures Earned(PathsOf(c, beside), author, wallet) == 0.0
    decreases c, 1
  {
    if c.members != [] {
      AllUnnamedEarnNothing(c.members, Beside(c.members), author, wallet);
      EarnedDown(Turn(OwnWeight(c), beside), PathsOfAll(c.members, Beside(c.members)), author, wallet);
    }
  }

  lemma {:induction false} AllUnnamedEarnNothing(cs: seq<Contributor>, beside: real, author: string, wallet: string)
    requires AllWallets(cs) == []
    ensures Earned(PathsOfAll(cs, beside), author, wallet) == 0.0
    decreases cs, 0
  {
    if cs != [] {
      UnnamedEarnsNothing(cs[0], beside, author, wallet);
      AllUnnamedEarnNothing(cs[1..], beside, author, wallet);
      EarnedAppend(PathsOf(cs[0], beside), PathsOfAll(cs[1..], beside), author, wallet);
    }
  }

  // Out of a share that flows into a subtree, each author is paid what its paths in it earn.
  lemma {:induction false} SubtreePays(cs: seq<Contributor>, parent: real, author: string, wallet: string)
    requires ResolveContributors(cs, parent).Ok? && wallet != ""
    ensures PaidOn(ResolveContributors(cs, parent).value, author, wallet)
         == parent * Earned(LeafPaths(cs), author, wallet)
    decreases cs, 1
  {
    AllNamedIsPayable(cs);
    BesideIsPayable(cs);
    if AnyPayable(cs) {
      EachPays(cs, PayableWeight(cs), parent, author, wallet);
    } else {
      AllUnnamedEarnNothing(cs, Beside(cs), author, wallet);
    }
  }

  lemma {:induction false} EachPays(cs: seq<Contributor>, total: real, parent: real, author: string, wallet: string)
    requires total > 0.0 && ResolveEach(cs, total, parent).Ok? && wallet != ""
    ensures PaidOn(ResolveEach(cs, total, parent).value, author, wallet)
         == parent * Earned(PathsOfAll(cs, total), author, wallet)
    decreases cs, 0
  {
    hide Earned, PaidOn, Portion, PathsOf;
    NothingEarned(author, wallet);
    if cs != [] {
      EachPays(cs[1..], total, parent, author, wallet);
      NamedIsPayable(cs[0]);
      Distribute(parent, Earned(PathsOf(cs[0], total), author, wallet),
                 Earned(PathsOfAll(cs[1..], total), author, wallet));
      EarnedAppend(PathsOf(cs[0], total), PathsOfAll(cs[1..], total), author, wallet);
      if IsPayable(cs[0]) {
        var slice := Portion(Weight(cs[0]), total, parent);
        OnePays(cs[0], total, parent, author, wallet);
        PaidAppend(ResolveOne(cs[0], slice).value, ResolveEach(cs[1..], total, parent).value, author, wallet);
      } else {
        UnnamedEarnsNothing(cs[0], total, author, wallet);
      }
    }
  }

  lemma {:induction false} OnePays(c: Contributor, total: real, parent: real, author: string, wallet: string)
    requires total > 0.0 && wallet != "" && ResolveOne(c, Portion(Weight(c), total, parent)).Ok?
    ensures PaidOn(ResolveOne(c, Portion(Weight(c), total, parent)).value, author, wallet)
         == parent * Earned(PathsOf(c, total), author, wallet)
    decreases c, 2
  {
    hide Earned, PaidOn, Portion, Product, Ratio, Weight, OwnWeight;
    var turn, slice := Turn(OwnWeight(c), total), Portion(Weight(c), total, parent);
    SliceIs(c, total, parent);
    if c.members != [] {
      SubtreePays(c.members, slice, author, wallet);
      EarnedDown(turn, LeafPaths(c.members), author, wallet);
      Reassociate(slice, Ratio(turn), parent, Earned(LeafPaths(c.members), author, wallet));
    } else {
      OneLeaf(c, turn, slice, author, wallet);
      Reassociate(slice, Ratio(turn), parent, 1.0);
    }
  }

  lemma SliceIs(c: Contributor, total: real, parent: real)
    requires total > 0.0
    ensures Portion(Weight(c), total, parent) == Ratio(Turn(OwnWeight(c), total)) * parent
  {
  }

  lemma OneLeaf(c: Contributor, turn: Turn, slice: real, author: string, wallet: string)
    requires c.members == [] && wallet != ""
    ensures ResolveOne(c, slice).Ok?
    ensures PaidOn(ResolveOne(c, slice).value, author, wallet)
         == if c.authorId == author && c.wallet == Some(wallet) then slice else 0.0
    ensures Earned([LeafPath([turn], c.authorId, c.wallet)], author, wallet)
         == if c.authorId == author && c.wallet == Some(wallet) then Ratio(turn) else 0.0
  {
    var p := AuthorShare(c.authorId, if c.wallet.Some? then c.wallet.value else "", slice);
    var path := LeafPath([turn], c.authorId, c.wallet);
    assert [p][1..] == [] && [path][1..] == [] && [turn][1..] == [];
    assert Product([turn]) == Ratio(turn) * Product([]) == Ratio(turn);
  }

  lemma NothingEarned(author: string, wallet: string)
    ensures Earned([], author, wallet) == 0.0 && PaidOn([], author, wallet) == 0.0
  {
  }

  lemma Distribute(p: real, a: real, b: real)
    ensures p * (a + b) == p * a + p * b && p * 0.0 == 0.0
  {
  }

  lemma Reassociate(slice: real, ratio: real, parent: real, x: real)
    requires slice == ratio * parent
    ensures slice * x == parent * (ratio * x) && parent * 0.0 == 0.0
  {
  }

  // ---------- entries merged by author and wallet ----------

  predicate NoNul(wallets: seq<string>) { forall w :: w in wallets ==> '\0' !in w }

  lemma {:induction false} PaidWalletsAreNamed(cs: seq<Contributor>, parent: real)
    requires ResolveContributors(cs, parent).Ok?
    ensures forall p :: p in ResolveContributors(cs, parent).value ==> p.wallet in AllWallets(cs)
    decreases cs, 1
  {
    if AnyPayable(cs) && PayableWeight(cs) > 0.0 { EachWalletIsNamed(cs, PayableWeight(cs), parent); }
  }

  lemma {:induction false} EachWalletIsNamed(cs: seq<Contributor>, total: real, parent: real)
    requires total > 0.0 && ResolveEach(cs, total, parent).Ok?
    ensures forall p :: p in ResolveEach(cs, total, parent).value ==> p.wallet in AllWallets(cs)
    decreases cs, 0
  {
    if cs != [] {
      EachWalletIsNamed(cs[1..], total, parent);
      if IsPayable(cs[0]) {
        var slice := Portion(Weight(cs[0]), total, parent);
        if cs[0].members != [] { PaidWalletsAreNamed(cs[0].members, slice); }
      }
    }
  }

  // Slots are filed under the key of what they hold.
  ghost predicate Keeps(slots: seq<Slot<AuthorShare>>) {
    forall k :: 0 <= k < |slots| ==> slots[k].key == PayeeKey(slots[k].value) && '\0' !in slots[k].value.wallet
  }

  lemma {:induction false} AddKeeps(slots: seq<Slot<AuthorShare>>, p: AuthorShare)
    requires Keeps(slots) && '\0' !in p.wallet
    ensures Keeps(AddInto(slots, PayeeKey(p), p, Earn))
  {
    if slots != [] && slots[0].key != PayeeKey(p) { AddKeeps(slots[1..], p); }
  }

  lemma {:induction false} AllKeep(slots: seq<Slot<AuthorShare>>, raw: seq<AuthorShare>)
    requires Keeps(slots) && forall p :: p in raw ==> '\0' !in p.wallet
    ensures Keeps(AddAll(slots, Keyed(raw), Earn))
    decreases |raw|
  {
    if raw != [] {
      AddKeeps(slots, raw[0]);
      assert Keyed(raw)[1..] == Keyed(raw[1..]);
      AllKeep(AddInto(slots, PayeeKey(raw[0]), raw[0], Earn), raw[1..]);
    } else {
      assert Keyed(raw) == [];
    }
  }

  lemma {:induction false} AmountIsPaidOn(slots: seq<Slot<AuthorShare>>, author: string, wallet: string)
    requires Keeps(slots) && '\0' !in wallet
    ensures Amount(slots, Only(author + "\0" + wallet), ShareOf) == PaidOn(Values(slots), author, wallet)
  {
    if slots != [] {
      AmountIsPaidOn(slots[1..], author, wallet);
      assert Values(slots)[1..] == Values(slots[1..]);
      var p := slots[0].value;
      if slots[0].key == author + "\0" + wallet { SameKey(p, author, wallet); }
    }
  }

  lemma SameKey(p: AuthorShare, author: string, wallet: string)
    requires PayeeKey(p) == author + "\0" + wallet && '\0' !in p.wallet && '\0' !in wallet
    ensures p.authorId == author && p.wallet == wallet
  {
    assert PayeeKey(p) == p.authorId + ['\0'] + p.wallet;
    assert author + "\0" + wallet == author + ['\0'] + wallet;
    KeyIsInjective(p.authorId, p.wallet, author, wallet, '\0');
  }

  // Whenever a tree resolves, what an author is paid on a wallet is what its paths earn: along each, the
  // product of its weights over the payable weights beside them.
  lemma SharesAreEarned(cs: seq<Contributor>, author: string, wallet: string)
    requires ResolvePayees(cs).Ok? && wallet != "" && NoNul(AllWallets(cs)) && '\0' !in wallet
    ensures PaidOn(ResolvePayees(cs).value, author, wallet) == Earned(LeafPaths(cs), author, wallet)
  {
    hide ResolveContributors, AddAll, Earned, PaidOn, LeafPaths, Amount, AllWallets, ShareSum;
    var raw := ResolveContributors(cs, 1.0).value;
    SubtreePays(cs, 1.0, author, wallet);
    PaidWalletsAreNamed(cs, 1.0);
    var slots := AddAll([], Keyed(raw), Earn);
    AllKeep([], raw);
    AddAllConserves([], Keyed(raw), Earn, ShareOf, Only(author + "\0" + wallet));
    NothingAmounts(author + "\0" + wallet);
    KeyedKeeps(raw);
    AmountIsPaidOn(slots, author, wallet);
    AmountIsPaidOn(Keyed(raw), author, wallet);
    KeyedValues(raw);
  }

  lemma NothingAmounts(key: string)
    ensures Amount<AuthorShare>([], Only(key), ShareOf) == 0.0
  {
  }

  lemma KeyedKeeps(raw: seq<AuthorShare>)
    requires forall p :: p in raw ==> '\0' !in p.wallet
    ensures Keeps(Keyed(raw))
  {
  }

  // ---------- authors beside each other ----------

  predicate FlatLeaf(c: Contributor) { c.members == [] && c.wallet.Some? && c.wallet.value != "" && OwnWeight(c) > 0.0 }

  // Authors with wallets and no members, no two alike.
  predicate Flat(cs: seq<Contributor>) {
    && (forall k :: 0 <= k < |cs| ==> FlatLeaf(cs[k]) && '\0' !in cs[k].wallet.value)
    && (forall j, k :: 0 <= j < k < |cs| ==> cs[j].authorId != cs[k].authorId || cs[j].wallet != cs[k].wallet)
  }


  function WalletOf(c: Contributor): string { match c.wallet case Some(w) => w case None => "" }

  // One entry per author, in the order of the credits, its weight over the sum of the weights.
  function Proportional(cs: seq<Contributor>, total: real): seq<AuthorShare>
    requires total > 0.0
  {
    seq(|cs|, k requires 0 <= k < |cs| => AuthorShare(cs[k].authorId, WalletOf(cs[k]), OwnWeight(cs[k]) / total))
  }

  function SumOfWeights(cs: seq<Contributor>): real {
    if cs == [] then 0.0 else OwnWeight(cs[0]) + SumOfWeights(cs[1..])
  }

  lemma {:induction false} FlatWeights(cs: seq<Contributor>)
    requires forall k :: 0 <= k < |cs| ==> FlatLeaf(cs[k])
    ensures Beside(cs) == SumOfWeights(cs) && WeightsPositive(cs) && WalletsNamed(cs)
    ensures cs != [] ==> AnyPayable(cs) && SumOfWeights(cs) > 0.0
  {
    if cs != [] {
      assert FlatLeaf(cs[0]);
      FlatWeights(cs[1..]);
    }
  }

  lemma {:induction false} FlatResolves(cs: seq<Contributor>, total: real)
    requires total > 0.0 && forall k :: 0 <= k < |cs| ==> FlatLeaf(cs[k])
    ensures ResolveEach(cs, total, 1.0) == Ok(Proportional(cs, total))
  {
    if cs == [] {
      assert Proportional(cs, total) == [];
    } else {
      var c := cs[0];
      assert FlatLeaf(c) && IsPayable(c);
      FlatResolves(cs[1..], total);
      assert Portion(Weight(c), total, 1.0) == OwnWeight(c) / total;
      assert Proportional(cs, total) == [Proportional(cs, total)[0]] + Proportional(cs[1..], total);
    }
  }

  lemma {:induction false} AddsAtEnd(slots: seq<Slot<AuthorShare>>, key: string, value: AuthorShare)
    requires forall k :: 0 <= k < |slots| ==> slots[k].key != key
    ensures AddInto(slots, key, value, Earn) == slots + [Slot(key, value)]
  {
    if slots != [] { AddsAtEnd(slots[1..], key, value); }
  }

  lemma {:induction false} DistinctMergeUnchanged(slots: seq<Slot<AuthorShare>>, entries: seq<Slot<AuthorShare>>)
    requires DistinctKeys(slots + entries)
    ensures AddAll(slots, entries, Earn) == slots + entries
    decreases |entries|
  {
    if entries == [] {
      assert slots + entries == slots;
    } else {
      forall k | 0 <= k < |slots| ensures slots[k].key != entries[0].key {
        assert (slots + entries)[k] == slots[k] && (slots + entries)[|slots|] == entries[0];
      }
      AddsAtEnd(slots, entries[0].key, entries[0].value);
      assert (slots + [entries[0]]) + entries[1..] == slots + entries;
      assert entries[0] == Slot(entries[0].key, entries[0].value);
      DistinctMergeUnchanged(slots + [entries[0]], entries[1..]);
    }
  }

  lemma FlatKeysDiffer(cs: seq<Contributor>, total: real)
    requires Flat(cs) && total > 0.0
    ensures DistinctKeys(Keyed(Proportional(cs, total)))
  {
    var payees := Proportional(cs, total);
    forall i, j | 0 <= i < j < |payees| ensures PayeeKey(payees[i]) != PayeeKey(payees[j]) {
      if PayeeKey(payees[i]) == PayeeKey(payees[j]) { SameKey(payees[i], payees[j].authorId, payees[j].wallet); }
    }
  }

  // Authors beside each other get shares in proportion to their weights, in the order of the credits.
  lemma SharesAreAsWeights(cs: seq<Contributor>)
    requires Flat(cs) && cs != []
    ensures SumOfWeights(cs) > 0.0 && ResolvePayees(cs) == Ok(Proportional(cs, SumOfWeights(cs)))
  {
    hide ResolveEach, AddAll, Proportional, ShareSum, SumOfWeights;
    FlatWeights(cs);
    BesideIsPayable(cs);
    var total := SumOfWeights(cs);
    FlatResolves(cs, total);
    var raw := Proportional(cs, total);
    assert ResolveContributors(cs, 1.0) == Ok(raw);
    FlatKeysDiffer(cs, total);
    assert [] + Keyed(raw) == Keyed(raw);
    DistinctMergeUnchanged([], Keyed(raw));
    KeyedValues(raw);
    PayeesSumToOne(cs);
  }

  // So the shares of any two stand to each other as their weights.
  lemma SharesStandAsWeights(cs: seq<Contributor>, j: nat, k: nat)
    requires Flat(cs) && j < |cs| && k < |cs|
    ensures ResolvePayees(cs).Ok? && |ResolvePayees(cs).value| == |cs|
    ensures var payees := ResolvePayees(cs).value;
      payees[j].share * OwnWeight(cs[k]) == payees[k].share * OwnWeight(cs[j])
  {
    hide ResolvePayees, SumOfWeights;
    SharesAreAsWeights(cs);
    CrossMultiply(OwnWeight(cs[j]), OwnWeight(cs[k]), SumOfWeights(cs));
  }

  lemma CrossMultiply(a: real, b: real, total: real)
    requires total > 0.0
    ensures (a / total) * b == (b / total) * a
  {
  }
}
