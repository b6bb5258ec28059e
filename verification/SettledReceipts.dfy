// What a pass writes down, read off the ledger: one receipt per wallet that reaches the minimum, for the
// events not settled with it yet, in their order.
module SettledReceipts {
  import opened Sorting
  import opened Credits
  import opened Accumulate
  import opened Batch
  import opened Settlement
  import M = MicroSplit

  // One payee of one event.
  datatype Share = Share(eventId: string, authorId: string, micro: int)

  // The wallet's shares of one event up to its n-th payee.
  function SharesOf(e: Event, wallet: string, n: nat): seq<Share>
    requires n <= |e.payees|
  {
    if n == 0 then []
    else
      var p := e.payees[n - 1];
      var before := SharesOf(e, wallet, n - 1);
      if p.wallet == wallet then before + [Share(e.id, p.authorId, MicroFor(e, n - 1))] else before
  }

  // What the event's split gives its k-th payee.
  function MicroFor(e: Event, k: nat): int
    requires k < |e.payees|
  {
    PartsLength(e);
    PartMicros(e)[k]
  }

  // The wallet's shares of the events no receipt covers with it.
  ghost function Unsettled(ledger: seq<Event>, receipts: seq<Receipt>, wallet: string): seq<Share> {
    if ledger == [] then []
    else
      var n := |ledger| - 1;
      var before := Unsettled(ledger[..n], receipts, wallet);
      if Covered(receipts, ledger[n].id, wallet) then before
      else before + SharesOf(ledger[n], wallet, |ledger[n].payees|)
  }

  function Worths(shares: seq<Share>): int {
    if shares == [] then 0 else Worths(shares[..|shares| - 1]) + shares[|shares| - 1].micro
  }

  function Events(shares: seq<Share>): seq<string> {
    seq(|shares|, k requires 0 <= k < |shares| => shares[k].eventId)
  }

  // ---------- cuts are shares ----------

  predicate SameAs(cuts: seq<Cut>, shares: seq<Share>, wallet: string) {
    && |cuts| == |shares|
    && forall k :: 0 <= k < |cuts| ==>
         cuts[k] == Cut(shares[k].eventId, shares[k].authorId, wallet, shares[k].micro)
  }

  lemma {:induction false} CutsOfAppend(a: seq<Cut>, b: seq<Cut>, w: string)
    ensures CutsOf(a + b, w) == CutsOf(a, w) + CutsOf(b, w)
  {
    if b == [] {
      assert a + b == a;
    } else {
      CutsOfAppend(a, b[..|b| - 1], w);
      assert (a + b)[..|a + b| - 1] == a + b[..|b| - 1];
    }
  }

  lemma {:induction false} EventShares(e: Event, w: string, n: nat)
    requires n <= |e.payees|
    ensures |EventCuts(e)| == |e.payees| && SameAs(CutsOf(EventCuts(e)[..n], w), SharesOf(e, w, n), w)
  {
    if n > 0 {
      EventShares(e, w, n - 1);
      var cuts := EventCuts(e)[..n];
      assert cuts[..n - 1] == EventCuts(e)[..n - 1] && cuts[n - 1] == EventCuts(e)[n - 1];
    }
  }

  // An event's pending cuts for a wallet: all of them, or none once a receipt covers the two.
  lemma {:induction false} PendingOf(cuts: seq<Cut>, settled: set<string>, id: string, w: string)
    requires forall k :: 0 <= k < |cuts| ==> cuts[k].eventId == id
    ensures CutsOf(Pending(cuts, settled), w) == if Key(id, w) in settled then [] else CutsOf(cuts, w)
  {
    hide Key;
    if cuts != [] {
      var n := |cuts| - 1;
      PendingOf(cuts[..n], settled, id, w);
      var rest := Pending(cuts[..n], settled);
      assert (rest + [cuts[n]])[..|rest|] == rest;
    }
  }

  lemma {:induction false} PendingShares(ledger: seq<Event>, book: Book, w: string)
    requires Valid(book) && ledger <= book.ledger && ':' !in w
    ensures SameAs(CutsOf(Pending(ExpandCuts(ledger), SettledKeys(book.receipts)), w),
                   Unsettled(ledger, book.receipts, w), w)
  {
    hide EventCuts, Valid, SettledKeys, Covered, Pending, Key;
    var settled := SettledKeys(book.receipts);
    if ledger == [] {
      NoCuts(settled, w);
    } else {
      var n := |ledger| - 1;
      var e, before := ledger[n], ExpandCuts(ledger[..n]);
      PendingShares(ledger[..n], book, w);
      PendingAppend(before, EventCuts(e), settled);
      CutsOfAppend(Pending(before, settled), Pending(EventCuts(e), settled), w);
      EventNamed(e);
      PendingOf(EventCuts(e), settled, e.id, w);
      KnownOf(book);
      KeyIsCovered(book.receipts, book.ledger, e.id, w);
      EventShares(e, w, |e.payees|);
      assert EventCuts(e)[..|e.payees|] == EventCuts(e);
    }
  }

  lemma NoCuts(settled: set<string>, w: string)
    ensures CutsOf(Pending(ExpandCuts([]), settled), w) == []
  {
  }

  lemma EventNamed(e: Event)
    ensures forall k :: 0 <= k < |EventCuts(e)| ==> EventCuts(e)[k].eventId == e.id
  {
  }

  lemma KnownOf(book: Book)
    requires Valid(book)
    ensures Known(book.receipts, book.ledger)
  {
  }

  lemma {:induction false} SameWorth(cuts: seq<Cut>, shares: seq<Share>, w: string)
    requires SameAs(cuts, shares, w)
    ensures Sum(CutMicros(cuts)) == Worths(shares) && Ids(cuts) == Events(shares)
  {
    if cuts == [] {
      assert CutMicros(cuts) == [];
    } else {
      var n := |cuts| - 1;
      SameWorth(cuts[..n], shares[..n], w);
      assert cuts == cuts[..n] + [cuts[n]];
      WorthSnoc(cuts[..n], cuts[n]);
    }
  }

  // ---------- what a pass writes ----------

  lemma DueIsUnsettled(book: Book, w: string)
    requires Valid(book) && ':' !in w
    ensures SameAs(CutsOf(Due(book), w), Unsettled(book.ledger, book.receipts, w), w)
  {
    PendingShares(book.ledger, book, w);
  }

  // A pass keeps every receipt and adds, at its time, one for each wallet whose unsettled shares reach the
  // minimum: all of those shares, their sum, and the author of the first.
  lemma ReceiptsExactly(book: Book, min: int, at: int, r: Receipt)
    requires Valid(book) && ':' !in r.wallet
    ensures Pass(book, min, at).ledger == book.ledger
    ensures Pass(book, min, at).receipts[..|book.receipts|] == book.receipts
    ensures r in Pass(book, min, at).receipts[|book.receipts|..]
       <==> var shares := Unsettled(book.ledger, book.receipts, r.wallet);
            && shares != [] && Worths(shares) >= min
            && r == Receipt(shares[0].authorId, r.wallet, Worths(shares), Events(shares), at)
  {
    hide Due, CutsOf, Unsettled, Valid, BatchCuts;
    var shares, cuts := Unsettled(book.ledger, book.receipts, r.wallet), CutsOf(Due(book), r.wallet);
    PassAdds(book, min, at);
    DueIsUnsettled(book, r.wallet);
    SameWorth(cuts, shares, r.wallet);
    var p := Payout(r.authorId, r.wallet, r.micro, r.eventIds);
    BatchIsExact(Due(book), min, p);
    var payouts := BatchCuts(Due(book), min).payouts;
    var added := NewReceipts(book, min, at);
    assert Pass(book, min, at).receipts[|book.receipts|..] == added;
    if r in added {
      var k :| 0 <= k < |added| && added[k] == r;
      assert payouts[k] == p;
    }
    if p in payouts && r.at == at {
      var k :| 0 <= k < |payouts| && payouts[k] == p;
      assert added[k] == r;
    }
  }
}
