// Settlement passes over a growing ledger: every pass pays what is pending and due, and what a receipt
// covers is never paid again.
module Settlement {
  import opened Sorting
  import opened Text
  import opened Accumulate
  import opened Batch

  datatype Receipt = Receipt(authorId: string, wallet: string, micro: int, eventIds: seq<string>, at: int)

  function Key(eventId: string, wallet: string): string { eventId + [':'] + wallet }

  function SettledKeys(receipts: seq<Receipt>): set<string> {
    set r, id | r in receipts && id in r.eventIds :: Key(id, r.wallet)
  }

  function Pending(cuts: seq<Cut>, settled: set<string>): seq<Cut> {
    if cuts == [] then []
    else
      var n := |cuts| - 1;
      if Key(cuts[n].eventId, cuts[n].wallet) in settled then Pending(cuts[..n], settled)
      else Pending(cuts[..n], settled) + [cuts[n]]
  }

  function Settle(payouts: seq<Payout>, at: int): seq<Receipt> {
    seq(|payouts|, k requires 0 <= k < |payouts| =>
      Receipt(payouts[k].authorId, payouts[k].wallet, payouts[k].micro, payouts[k].eventIds, at))
  }

  datatype Book = Book(ledger: seq<Event>, receipts: seq<Receipt>)

  function Due(book: Book): seq<Cut> { Pending(ExpandCuts(book.ledger), SettledKeys(book.receipts)) }

  function Pass(book: Book, min: int, at: int): Book {
    if Due(book) == [] then book
    else book.(receipts := book.receipts + Settle(BatchCuts(Due(book), min).payouts, at))
  }

  function Record(book: Book, e: Event): Book { book.(ledger := book.ledger + [e]) }

  class Service {
    var ledger: seq<Event>
    var receipts: seq<Receipt>

    function Contents(): Book
      reads this
    {
      Book(ledger, receipts)
    }

    constructor ()
      ensures Contents() == Book([], [])
    {
      ledger, receipts := [], [];
    }

    method Append(e: Event)
      modifies this
      ensures Contents() == Record(old(Contents()), e)
    {
      ledger := ledger + [e];
    }

    method RunPass(min: int, at: int)
      modifies this
      ensures Contents() == Pass(old(Contents()), min, at)
    {
      var settled := SettledKeys(receipts);
      var cuts := ExpandCutsLoop(ledger);
      var pending := [];
      var i := 0;
      while i < |cuts|
        invariant 0 <= i <= |cuts|
        invariant pending == Pending(cuts[..i], settled)
      {
        assert cuts[..i + 1][..i] == cuts[..i];
        if Key(cuts[i].eventId, cuts[i].wallet) !in settled { pending := pending + [cuts[i]]; }
        i := i + 1;
      }
      assert cuts[..i] == cuts;
      if pending == [] { return; }
      var batch := BatchLoop(pending, min);
      receipts := receipts + Settle(batch.payouts, at);
    }
  }

  // ---------- the state every run keeps ----------

  ghost predicate Covers(r: Receipt, eventId: string, wallet: string) {
    r.wallet == wallet && eventId in r.eventIds
  }

  ghost predicate Covered(receipts: seq<Receipt>, eventId: string, wallet: string) {
    exists k :: 0 <= k < |receipts| && Covers(receipts[k], eventId, wallet)
  }

  // Each (event, wallet) pair is covered by at most one receipt.
  ghost predicate PaidOnce(receipts: seq<Receipt>) {
    forall i, j, id, w :: 0 <= i < j < |receipts| && Covers(receipts[i], id, w) ==> !Covers(receipts[j], id, w)
  }

  predicate UniqueIds(ledger: seq<Event>) {
    forall i, j :: 0 <= i < j < |ledger| ==> ledger[i].id != ledger[j].id
  }

  predicate HasEvent(ledger: seq<Event>, id: string) {
    exists k :: 0 <= k < |ledger| && ledger[k].id == id
  }

  // An address holds no colon.
  predicate PlainWallets(e: Event) {
    forall k :: 0 <= k < |e.payees| ==> ':' !in e.payees[k].wallet
  }

  ghost predicate KnownPair(r: Receipt, id: string, ledger: seq<Event>) {
    ':' !in r.wallet && HasEvent(ledger, id)
  }

  ghost predicate Known(receipts: seq<Receipt>, ledger: seq<Event>) {
    forall r, id :: r in receipts && id in r.eventIds ==> KnownPair(r, id, ledger)
  }

  ghost predicate Valid(book: Book) {
    && UniqueIds(book.ledger)
    && (forall k :: 0 <= k < |book.ledger| ==> PlainWallets(book.ledger[k]))
    && Known(book.receipts, book.ledger)
    && PaidOnce(book.receipts)
  }

  lemma KeyIsCovered(receipts: seq<Receipt>, ledger: seq<Event>, eventId: string, wallet: string)
    requires Known(receipts, ledger) && ':' !in wallet
    ensures Key(eventId, wallet) in SettledKeys(receipts) <==> Covered(receipts, eventId, wallet)
  {
    if Key(eventId, wallet) in SettledKeys(receipts) {
      var r, id :| r in receipts && id in r.eventIds && Key(id, r.wallet) == Key(eventId, wallet);
      assert KnownPair(r, id, ledger);
      KeyIsInjective(id, r.wallet, eventId, wallet, ':');
      var k :| 0 <= k < |receipts| && receipts[k] == r;
      assert Covers(receipts[k], eventId, wallet);
    }
    if k :| 0 <= k < |receipts| && Covers(receipts[k], eventId, wallet) {
      assert receipts[k] in receipts;
    }
  }

  lemma {:induction false} CutsAreKnown(ledger: seq<Event>, c: Cut)
    requires forall k :: 0 <= k < |ledger| ==> PlainWallets(ledger[k])
    requires c in ExpandCuts(ledger)
    ensures HasEvent(ledger, c.eventId) && ':' !in c.wallet
  {
    var n := |ledger| - 1;
    if c in ExpandCuts(ledger[..n]) {
      CutsAreKnown(ledger[..n], c);
      var k :| 0 <= k < |ledger[..n]| && ledger[..n][k].id == c.eventId;
      assert ledger[k].id == c.eventId;
    } else {
      assert c in EventCuts(ledger[n]);
      assert PlainWallets(ledger[n]);
    }
  }

  lemma {:induction false} PendingIs(cuts: seq<Cut>, settled: set<string>, c: Cut)
    ensures c in Pending(cuts, settled) <==> c in cuts && Key(c.eventId, c.wallet) !in settled
  {
    if cuts != [] {
      var n := |cuts| - 1;
      PendingIs(cuts[..n], settled, c);
      assert cuts == cuts[..n] + [cuts[n]];
    }
  }

  lemma DueIs(book: Book, c: Cut)
    requires Valid(book)
    ensures c in Due(book) <==> c in ExpandCuts(book.ledger) && !Covered(book.receipts, c.eventId, c.wallet)
    ensures c in Due(book) ==> ':' !in c.wallet && HasEvent(book.ledger, c.eventId)
  {
    var cuts := ExpandCuts(book.ledger);
    PendingIs(cuts, SettledKeys(book.receipts), c);
    if c in cuts {
      CutsAreKnown(book.ledger, c);
      KeyIsCovered(book.receipts, book.ledger, c.eventId, c.wallet);
    }
  }

  // ---------- one pass ----------

  function NewReceipts(book: Book, min: int, at: int): seq<Receipt> {
    Settle(BatchCuts(Due(book), min).payouts, at)
  }

  lemma PassAdds(book: Book, min: int, at: int)
    ensures Pass(book, min, at) == book.(receipts := book.receipts + NewReceipts(book, min, at))
  {
    if Due(book) == [] {
      assert BatchCuts(Due(book), min).payouts == [];
      assert NewReceipts(book, min, at) == [];
      assert book.receipts + [] == book.receipts;
    }
  }

  // A pass covers the due cuts of the wallets that reach the minimum, and nothing else.
  lemma NewlyCovered(book: Book, min: int, at: int, r: Receipt, id: string)
    requires r in NewReceipts(book, min, at)
    ensures id in r.eventIds ==> exists c :: c in Due(book) && c.eventId == id && c.wallet == r.wallet
    ensures Reaches(Due(book), min, r.wallet)
  {
    hide Sort, Accrued, CutsOf;
    var due := Due(book);
    var payouts := BatchCuts(due, min).payouts;
    var k :| 0 <= k < |NewReceipts(book, min, at)| && NewReceipts(book, min, at)[k] == r;
    BatchIsExact(due, min, payouts[k]);
    CutsOfWallet(due, r.wallet);
    if id in r.eventIds {
      var j :| 0 <= j < |Ids(CutsOf(due, r.wallet))| && Ids(CutsOf(due, r.wallet))[j] == id;
      assert CutsOf(due, r.wallet)[j] in due;
    }
  }

  lemma NewlyCoveredAll(book: Book, min: int, at: int, c: Cut)
    requires c in Due(book) && Reaches(Due(book), min, c.wallet)
    ensures Covered(NewReceipts(book, min, at), c.eventId, c.wallet)
  {
    hide Sort, Accrued, CutsOf;
    var due := Due(book);
    var mine := CutsOf(due, c.wallet);
    CutsOfWallet(due, c.wallet);
    var p := Statement(mine);
    BatchIsExact(due, min, p);
    assert p in BatchCuts(due, min).payouts;
    var k :| 0 <= k < |BatchCuts(due, min).payouts| && BatchCuts(due, min).payouts[k] == p;
    var j :| 0 <= j < |mine| && mine[j] == c;
    assert Ids(mine)[j] == c.eventId;
    assert Covers(NewReceipts(book, min, at)[k], c.eventId, c.wallet);
  }

  lemma PassKeepsValid(book: Book, min: int, at: int)
    requires Valid(book)
    ensures Valid(Pass(book, min, at))
  {
    hide Due, Settle, BatchCuts;
    PassAdds(book, min, at);
    var earlier, added := book.receipts, NewReceipts(book, min, at);
    forall r: Receipt, id: string | r in earlier + added && id in r.eventIds ensures KnownPair(r, id, book.ledger) {
      if r in added {
        NewlyCovered(book, min, at, r, id);
        var c :| c in Due(book) && c.eventId == id && c.wallet == r.wallet;
        DueIs(book, c);
      }
    }
    NewOnce(book, min, at);
    forall i, j, id, w | 0 <= i < j < |earlier + added| && Covers((earlier + added)[i], id, w)
      ensures !Covers((earlier + added)[j], id, w)
    {
      if i < |earlier| <= j && Covers((earlier + added)[j], id, w) {
        assert Covers(earlier[i], id, w);
        NewlyCovered(book, min, at, (earlier + added)[j], id);
        var c :| c in Due(book) && c.eventId == id && c.wallet == w;
        DueIs(book, c);
      } else if j < |earlier| {
        assert Covers(earlier[i], id, w);
      } else if |earlier| <= i {
        assert Covers(added[i - |earlier|], id, w);
      }
    }
  }

  lemma NewOnce(book: Book, min: int, at: int)
    ensures PaidOnce(NewReceipts(book, min, at))
  {
    hide BatchCuts, Due;
    PayoutsAreDistinct(Due(book), min);
  }

  lemma SettledSplits(a: seq<Receipt>, b: seq<Receipt>)
    ensures SettledKeys(a + b) == SettledKeys(a) + SettledKeys(b)
  {
    forall k | k in SettledKeys(a + b) ensures k in SettledKeys(a) + SettledKeys(b) {
      var r, id :| r in a + b && id in r.eventIds && k == Key(id, r.wallet);
      assert r in a || r in b;
    }
    forall k | k in SettledKeys(a) + SettledKeys(b) ensures k in SettledKeys(a + b) {
      if k in SettledKeys(a) {
        var r, id :| r in a && id in r.eventIds && k == Key(id, r.wallet);
        assert r in a + b;
      } else {
        var r, id :| r in b && id in r.eventIds && k == Key(id, r.wallet);
        assert r in a + b;
      }
    }
  }

  // The cuts of wallets below the minimum.
  function Carried(cuts: seq<Cut>, due: seq<Cut>, min: int): seq<Cut> {
    if cuts == [] then []
    else
      var n := |cuts| - 1;
      if Reaches(due, min, cuts[n].wallet) then Carried(cuts[..n], due, min)
      else Carried(cuts[..n], due, min) + [cuts[n]]
  }

  // Among the cuts not settled before, those settled after are those of the wallets being paid.
  predicate PaysOnly(cuts: seq<Cut>, before: set<string>, after: set<string>, due: seq<Cut>, min: int) {
    forall c :: c in cuts ==> PaysCut(c, before, after, due, min)
  }

  predicate PaysCut(c: Cut, before: set<string>, after: set<string>, due: seq<Cut>, min: int) {
    if Key(c.eventId, c.wallet) in before then Key(c.eventId, c.wallet) in after
    else Key(c.eventId, c.wallet) in after <==> Reaches(due, min, c.wallet)
  }

  lemma PaysOnlyPrefix(cuts: seq<Cut>, before: set<string>, after: set<string>, due: seq<Cut>, min: int)
    requires cuts != [] && PaysOnly(cuts, before, after, due, min)
    ensures PaysOnly(cuts[..|cuts| - 1], before, after, due, min)
    ensures PaysCut(cuts[|cuts| - 1], before, after, due, min)
  {
    hide PaysCut;
    assert cuts[|cuts| - 1] in cuts;
    assert forall c :: c in cuts[..|cuts| - 1] ==> c in cuts;
  }

  lemma {:induction false} PendingShrinks(cuts: seq<Cut>, before: set<string>, after: set<string>, due: seq<Cut>,
                                          min: int)
    requires PaysOnly(cuts, before, after, due, min)
    ensures Pending(cuts, after) == Carried(Pending(cuts, before), due, min)
  {
    hide Reaches, Key, PaysOnly;
    if cuts != [] {
      var n := |cuts| - 1;
      PaysOnlyPrefix(cuts, before, after, due, min);
      PendingShrinks(cuts[..n], before, after, due, min);
      CarriedSnoc(Pending(cuts[..n], before), cuts[n], due, min);
    }
  }

  lemma CarriedSnoc(cuts: seq<Cut>, c: Cut, due: seq<Cut>, min: int)
    ensures Carried(cuts + [c], due, min)
         == if Reaches(due, min, c.wallet) then Carried(cuts, due, min) else Carried(cuts, due, min) + [c]
  {
    assert (cuts + [c])[..|cuts|] == cuts;
  }

  // After a pass, exactly the due cuts of the wallets below the minimum are still due.
  lemma DueAfterPass(book: Book, min: int, at: int)
    requires Valid(book)
    ensures Due(Pass(book, min, at)) == Carried(Due(book), Due(book), min)
  {
    hide Settle, BatchCuts, Carried, Reaches;
    PassAdds(book, min, at);
    PassKeepsValid(book, min, at);
    var cuts, added := ExpandCuts(book.ledger), NewReceipts(book, min, at);
    var before, after := SettledKeys(book.receipts), SettledKeys(book.receipts + added);
    SettledSplits(book.receipts, added);
    forall c | c in cuts && Key(c.eventId, c.wallet) !in before
      ensures PaysCut(c, before, after, Due(book), min)
    {
      PendingIs(cuts, before, c);
      CutsAreKnown(book.ledger, c);
      KnownNew(book, min, at);
      KeyIsCovered(added, book.ledger, c.eventId, c.wallet);
      if Reaches(Due(book), min, c.wallet) { NewlyCoveredAll(book, min, at, c); }
      if k :| 0 <= k < |added| && Covers(added[k], c.eventId, c.wallet) {
        NewlyCovered(book, min, at, added[k], c.eventId);
      }
    }
    PendingShrinks(cuts, before, after, Due(book), min);
  }

  lemma KnownNew(book: Book, min: int, at: int)
    requires Valid(Pass(book, min, at))
    ensures Known(NewReceipts(book, min, at), book.ledger)
  {
    hide Settle, BatchCuts, Due;
    PassAdds(book, min, at);
    var added := NewReceipts(book, min, at);
    forall r: Receipt, id: string | r in added && id in r.eventIds ensures KnownPair(r, id, book.ledger) {
      assert r in book.receipts + added;
    }
  }

  // ---------- whole runs ----------

  function Paid(receipts: seq<Receipt>, picked: string -> bool): int {
    if receipts == [] then 0
    else
      var n := |receipts| - 1;
      Paid(receipts[..n], picked) + if picked(receipts[n].wallet) then receipts[n].micro else 0
  }

  lemma {:induction false} PaidAppend(a: seq<Receipt>, b: seq<Receipt>, picked: string -> bool)
    ensures Paid(a + b, picked) == Paid(a, picked) + Paid(b, picked)
  {
    if b == [] {
      assert a + b == a;
    } else {
      PaidAppend(a, b[..|b| - 1], picked);
      assert (a + b)[..|a + b| - 1] == a + b[..|b| - 1];
    }
  }

  lemma {:induction false} SettlePays(payouts: seq<Payout>, at: int, picked: string -> bool)
    ensures Paid(Settle(payouts, at), picked) == PaidOut(payouts, picked)
  {
    if payouts != [] {
      var n := |payouts| - 1;
      SettlePays(payouts[..n], at, picked);
      assert Settle(payouts, at)[..n] == Settle(payouts[..n], at);
    }
  }

  lemma {:induction false} WorthAppend(a: seq<Cut>, b: seq<Cut>, picked: string -> bool)
    ensures Worth(a + b, picked) == Worth(a, picked) + Worth(b, picked)
  {
    if b == [] {
      assert a + b == a;
    } else {
      WorthAppend(a, b[..|b| - 1], picked);
      assert (a + b)[..|a + b| - 1] == a + b[..|b| - 1];
    }
  }

  lemma {:induction false} WorthSplits(cuts: seq<Cut>, due: seq<Cut>, min: int, picked: string -> bool)
    ensures Worth(cuts, picked) == Worth(Carried(cuts, due, min), picked) + Worth(cuts, PickedAndPaid(due, min, picked))
  {
    hide Reaches;
    if cuts != [] {
      var n := |cuts| - 1;
      WorthSplits(cuts[..n], due, min, picked);
      var rest := Carried(cuts[..n], due, min);
      assert (rest + [cuts[n]])[..|rest|] == rest;
    }
  }

  // For the picked wallets, what was paid and what is still due add up to what the ledger says.
  ghost predicate Balanced(book: Book, picked: string -> bool) {
    Paid(book.receipts, picked) + Worth(Due(book), picked) == Worth(ExpandCuts(book.ledger), picked)
  }

  lemma PassBalances(book: Book, min: int, at: int, picked: string -> bool)
    requires Valid(book) && Balanced(book, picked)
    ensures Balanced(Pass(book, min, at), picked)
  {
    hide Paid, Worth, Due, BatchCuts, Settle, Carried, PickedAndPaid;
    PassAdds(book, min, at);
    PaidAppend(book.receipts, NewReceipts(book, min, at), picked);
    SettlePays(BatchCuts(Due(book), min).payouts, at, picked);
    BatchPaysWhatIsOwed(Due(book), min, picked);
    WorthSplits(Due(book), Due(book), min, picked);
    DueAfterPass(book, min, at);
  }

  // An event the ledger has not seen, naming wallets without colons.
  predicate Admits(book: Book, e: Event) { !HasEvent(book.ledger, e.id) && PlainWallets(e) }

  lemma {:induction false} PendingAppend(a: seq<Cut>, b: seq<Cut>, settled: set<string>)
    ensures Pending(a + b, settled) == Pending(a, settled) + Pending(b, settled)
  {
    hide Key;
    if b == [] {
      assert a + b == a;
    } else {
      PendingAppend(a, b[..|b| - 1], settled);
      assert (a + b)[..|a + b| - 1] == a + b[..|b| - 1];
    }
  }

  lemma {:induction false} AllPending(cuts: seq<Cut>, settled: set<string>)
    requires forall c :: c in cuts ==> Key(c.eventId, c.wallet) !in settled
    ensures Pending(cuts, settled) == cuts
  {
    hide Key;
    if cuts != [] {
      var n := |cuts| - 1;
      assert cuts == cuts[..n] + [cuts[n]];
      AllPending(cuts[..n], settled);
    }
  }

  lemma NotYetCovered(receipts: seq<Receipt>, ledger: seq<Event>, id: string, w: string)
    requires Known(receipts, ledger) && !HasEvent(ledger, id)
    ensures !Covered(receipts, id, w)
  {
    forall k | 0 <= k < |receipts| ensures !Covers(receipts[k], id, w) {
      assert receipts[k] in receipts;
    }
  }

  lemma RecordKeepsValid(book: Book, e: Event)
    requires Valid(book) && Admits(book, e)
    ensures Valid(Record(book, e))
  {
    hide PaidOnce, Known;
    var ledger := book.ledger + [e];
    forall i, j | 0 <= i < j < |ledger| ensures ledger[i].id != ledger[j].id {
      if j == |book.ledger| { assert book.ledger[i].id != e.id; }
    }
    StillKnown(book.receipts, book.ledger, e);
  }

  lemma StillKnown(receipts: seq<Receipt>, ledger: seq<Event>, e: Event)
    requires Known(receipts, ledger)
    ensures Known(receipts, ledger + [e])
  {
    forall r, id | r in receipts && id in r.eventIds ensures KnownPair(r, id, ledger + [e]) {
      assert KnownPair(r, id, ledger);
      var k :| 0 <= k < |ledger| && ledger[k].id == id;
      assert (ledger + [e])[k].id == id;
    }
  }

  lemma NewCutsAreDue(book: Book, e: Event)
    requires Valid(book) && Admits(book, e)
    ensures Pending(EventCuts(e), SettledKeys(book.receipts)) == EventCuts(e)
  {
    hide EventCuts, Key, SettledKeys, Known, HasEvent, Covered;
    var settled := SettledKeys(book.receipts);
    forall c | c in EventCuts(e) ensures Key(c.eventId, c.wallet) !in settled {
      var k :| 0 <= k < |EventCuts(e)| && EventCuts(e)[k] == c;
      KeyIsCovered(book.receipts, book.ledger, c.eventId, c.wallet);
      NotYetCovered(book.receipts, book.ledger, e.id, c.wallet);
    }
    AllPending(EventCuts(e), settled);
  }

  lemma RecordAdds(book: Book, e: Event)
    requires Valid(book) && Admits(book, e)
    ensures ExpandCuts(Record(book, e).ledger) == ExpandCuts(book.ledger) + EventCuts(e)
    ensures Due(Record(book, e)) == Due(book) + EventCuts(e)
  {
    hide EventCuts, Pending, SettledKeys, Valid, Admits;
    var ledger := book.ledger + [e];
    assert ledger[..|book.ledger|] == book.ledger;
    NewCutsAreDue(book, e);
    PendingAppend(ExpandCuts(book.ledger), EventCuts(e), SettledKeys(book.receipts));
  }

  lemma RecordBalances(book: Book, e: Event, picked: string -> bool)
    requires Valid(book) && Admits(book, e) && Balanced(book, picked)
    ensures Balanced(Record(book, e), picked)
  {
    hide Paid, Worth, Due, ExpandCuts;
    RecordAdds(book, e);
    WorthAppend(ExpandCuts(book.ledger), EventCuts(e), picked);
    WorthAppend(Due(book), EventCuts(e), picked);
  }

  lemma {:induction false} CarriedOf(cuts: seq<Cut>, due: seq<Cut>, min: int, w: string)
    ensures CutsOf(Carried(cuts, due, min), w) == if Reaches(due, min, w) then [] else CutsOf(cuts, w)
  {
    hide Reaches;
    if cuts != [] {
      var n := |cuts| - 1;
      CarriedOf(cuts[..n], due, min, w);
      var rest := Carried(cuts[..n], due, min);
      assert (rest + [cuts[n]])[..|rest|] == rest;
    }
  }

  lemma {:induction false} WorthOfOne(cuts: seq<Cut>, w: string)
    ensures Worth(cuts, Only(w)) == Sum(CutMicros(CutsOf(cuts, w)))
    ensures Worth(cuts, Any()) == Sum(CutMicros(cuts))
  {
    if cuts == [] {
      assert CutMicros(cuts) == [];
    } else {
      var n := |cuts| - 1;
      WorthOfOne(cuts[..n], w);
      assert cuts == cuts[..n] + [cuts[n]];
      WorthSnoc(cuts[..n], cuts[n]);
      WorthSnoc(CutsOf(cuts[..n], w), cuts[n]);
    }
  }

  lemma WorthSnoc(cuts: seq<Cut>, c: Cut)
    ensures Sum(CutMicros(cuts + [c])) == Sum(CutMicros(cuts)) + c.micro
  {
    CutMicrosAppend(cuts, [c]);
    assert CutMicros([c]) == [c.micro];
    assert Sum([c.micro][1..]) == 0;
    assert Sum([c.micro]) == [c.micro][0] + Sum([c.micro][1..]);
  }

  // What a wallet is still owed after a pass is below the minimum, or it is owed nothing at all.
  lemma BelowMinimumAfterPass(book: Book, min: int, at: int, w: string)
    requires Valid(book)
    ensures var due := Due(Pass(book, min, at));
            CutsOf(due, w) == [] || Worth(due, Only(w)) < min
  {
    hide Paid, Worth, Due, BatchCuts, Carried, Pass;
    DueAfterPass(book, min, at);
    CarriedOf(Due(book), Due(book), min, w);
    WorthOfOne(Due(Pass(book, min, at)), w);
  }

  // Running the pass again at once pays nobody.
  lemma PassIsIdempotent(book: Book, min: int, at: int, later: int)
    requires Valid(book)
    ensures Pass(Pass(book, min, at), min, later) == Pass(book, min, at)
  {
    hide Paid, Worth, Due, BatchCuts, Carried;
    var after := Pass(book, min, at);
    var payouts := BatchCuts(Due(after), min).payouts;
    if payouts != [] {
      var w := payouts[0].wallet;
      BatchIsExact(Due(after), min, payouts[0]);
      BelowMinimumAfterPass(book, min, at, w);
      WorthOfOne(Due(after), w);
      assert false;
    }
    PassAdds(after, min, later);
    SettleNone(later);
    assert after.receipts + [] == after.receipts;
  }

  lemma SettleNone(at: int)
    ensures Settle([], at) == []
  {
  }

  datatype Step = Recorded(event: Event) | Passed(min: int, at: int)

  function Run(steps: seq<Step>): Book {
    if steps == [] then Book([], [])
    else
      var book := Run(steps[..|steps| - 1]);
      match steps[|steps| - 1]
      case Recorded(e) => Record(book, e)
      case Passed(min, at) => Pass(book, min, at)
  }

  predicate Admissible(steps: seq<Step>) {
    steps != [] ==>
      var n := |steps| - 1;
      Admissible(steps[..n]) && (steps[n].Recorded? ==> Admits(Run(steps[..n]), steps[n].event))
  }

  lemma {:induction false} RunKeeps(steps: seq<Step>, picked: string -> bool)
    requires Admissible(steps)
    ensures Valid(Run(steps)) && Balanced(Run(steps), picked)
  {
    if steps == [] {
      EmptyIsValid(picked);
    } else {
      hide Valid, Balanced, Pass, Record, Admits;
      var n := |steps| - 1;
      RunKeeps(steps[..n], picked);
      match steps[n]
      case Recorded(e) => {
        RecordKeepsValid(Run(steps[..n]), e);
        RecordBalances(Run(steps[..n]), e, picked);
      }
      case Passed(min, at) => {
        PassKeepsValid(Run(steps[..n]), min, at);
        PassBalances(Run(steps[..n]), min, at, picked);
      }
    }
  }

  lemma EmptyIsValid(picked: string -> bool)
    ensures Valid(Book([], [])) && Balanced(Book([], []), picked)
  {
  }

  // In every run: no (event, wallet) pair is paid by two receipts; each wallet has been paid its cuts
  // of the ledger less what is still due; and in all, receipts and due cuts add up to the ledger.
  lemma EveryRunPaysOnce(steps: seq<Step>, w: string)
    requires Admissible(steps)
    ensures var book := Run(steps);
      && PaidOnce(book.receipts)
      && Paid(book.receipts, Only(w)) + Worth(Due(book), Only(w)) == Worth(ExpandCuts(book.ledger), Only(w))
      && (AllWhole(book.ledger) ==> Paid(book.receipts, Any()) + Worth(Due(book), Any()) == Total(book.ledger))
  {
    hide Paid, Worth, Due, ExpandCuts, Run, PaidOnce;
    RunKeeps(steps, Only(w));
    RunKeeps(steps, Any());
    WorthOfOne(ExpandCuts(Run(steps).ledger), w);
    if AllWhole(Run(steps).ledger) { CutsSumToLedger(Run(steps).ledger); }
  }

  // After any pass in any run every wallet's unpaid balance is below the minimum.
  lemma EveryPassSettles(steps: seq<Step>, min: int, at: int, w: string)
    requires Admissible(steps)
    ensures var due := Due(Run(steps + [Passed(min, at)]));
            CutsOf(due, w) == [] || Worth(due, Only(w)) < min
  {
    hide Paid, Worth, Due, CutsOf, Pass;
    var all := steps + [Passed(min, at)];
    assert all[..|steps|] == steps;
    RunKeeps(steps, Any());
    BelowMinimumAfterPass(Run(steps), min, at, w);
  }
}
