// One published range file under repeated fetching: what stays in the union of recent copies, and
// when a shrunken copy is believed.
module CrawlerRanges {
  import opened Wrappers
  import opened Sorting
  import opened Text
  import opened IpAddress

  const UNION_MS := 30 * 86_400_000
  const FRESH_MS := 7 * 86_400_000
  const SHRINK_CONFIRMATIONS := 3

  datatype Status = Good | Redirected | HttpFailed | Misshapen | Shrunk | Unreached | NeverFetched

  datatype Health = Health(status: Status, since: int, finalUrl: Option<string>)

  datatype SourceState = SourceState(
    url: string, lastGoodAt: Option<int>, lastGoodCount: nat, seen: map<string, int>, health: Health,
    shrunkSig: Option<string>, shrunkRuns: nat)

  datatype FetchOutcome = Fetched(prefixes: seq<string>, finalUrl: string) | HttpError | BadShape | Unreachable

  datatype Fetch = Fetch(out: FetchOutcome, at: int)

  function EmptySourceState(url: string, now: int): SourceState {
    SourceState(url, None, 0, map[], Health(NeverFetched, now, None), None, 0)
  }

  function NextHealth(prev: Health, status: Status, now: int, finalUrl: Option<string>): Health {
    Health(status, if prev.status == status then prev.since else now, finalUrl)
  }

  // The refused copy as the state remembers it: its prefixes sorted and joined by commas.
  function Signature(prefixes: seq<string>): string {
    Join(Sort(prefixes, AtMost), ",")
  }

  // Under half of the last good copy.
  predicate IsShrunk(state: SourceState, prefixes: seq<string>) {
    state.lastGoodCount > 0 && 2 * |prefixes| < state.lastGoodCount
  }

  function RunsWith(state: SourceState, prefixes: seq<string>): nat {
    if state.shrunkSig == Some(Signature(prefixes)) then state.shrunkRuns + 1 else 1
  }

  predicate Refuses(state: SourceState, prefixes: seq<string>) {
    IsShrunk(state, prefixes) && RunsWith(state, prefixes) < SHRINK_CONFIRMATIONS
  }

  function Recent(seen: map<string, int>, now: int): map<string, int> {
    map p | p in seen && now - seen[p] <= UNION_MS :: seen[p]
  }

  function SeenNow(prefixes: seq<string>, now: int): map<string, int> {
    map p | p in prefixes :: now
  }

  function ApplyFetch(state: SourceState, out: FetchOutcome, now: int): SourceState {
    match out
    case HttpError => state.(health := NextHealth(state.health, HttpFailed, now, None))
    case BadShape => state.(health := NextHealth(state.health, Misshapen, now, None))
    case Unreachable => state.(health := NextHealth(state.health, Unreached, now, None))
    case Fetched(prefixes, finalUrl) =>
      if Refuses(state, prefixes) then
        state.(shrunkSig := Some(Signature(prefixes)), shrunkRuns := RunsWith(state, prefixes),
               health := NextHealth(state.health, Shrunk, now, None))
      else
        var redirected := finalUrl != state.url;
        SourceState(state.url, Some(now), |prefixes|, Recent(state.seen, now) + SeenNow(prefixes, now),
                    NextHealth(state.health, if redirected then Redirected else Good, now,
                               if redirected then Some(finalUrl) else None),
                    None, 0)
  }

  function UnionOf(state: SourceState, now: int): set<string> {
    set p | p in state.seen && now - state.seen[p] <= UNION_MS
  }

  // The source's two loops that fill the new map: what is still recent, then what this copy holds.
  method KeepRecent(seen: map<string, int>, now: int) returns (out: map<string, int>)
    ensures out == Recent(seen, now)
  {
    out := map[];
    var left := seen.Keys;
    while left != {}
      invariant left <= seen.Keys
      invariant out == map p | p in seen.Keys - left && now - seen[p] <= UNION_MS :: seen[p]
      decreases |left|
    {
      var p :| p in left;
      left := left - {p};
      if now - seen[p] <= UNION_MS { out := out[p := seen[p]]; }
    }
  }

  method MarkSeen(kept: map<string, int>, prefixes: seq<string>, now: int) returns (out: map<string, int>)
    ensures out == kept + SeenNow(prefixes, now)
  {
    out := kept;
    var i := 0;
    while i < |prefixes|
      invariant 0 <= i <= |prefixes|
      invariant out == kept + SeenNow(prefixes[..i], now)
    {
      assert forall p :: p in prefixes[..i + 1] <==> p in prefixes[..i] || p == prefixes[i];
      out := out[prefixes[i] := now];
      i := i + 1;
    }
    assert prefixes[..i] == prefixes;
  }

  method ApplyFetchNow(state: SourceState, out: FetchOutcome, now: int) returns (next: SourceState)
    ensures next == ApplyFetch(state, out, now)
  {
    if !out.Fetched? { return ApplyFetch(state, out, now); }
    var prefixes := out.prefixes;
    if state.lastGoodCount > 0 && 2 * |prefixes| < state.lastGoodCount {
      var sig := Signature(prefixes);
      var runs := if state.shrunkSig == Some(sig) then state.shrunkRuns + 1 else 1;
      if runs < SHRINK_CONFIRMATIONS {
        return state.(shrunkSig := Some(sig), shrunkRuns := runs,
                      health := NextHealth(state.health, Shrunk, now, None));
      }
    }
    var kept := KeepRecent(state.seen, now);
    var seen := MarkSeen(kept, prefixes, now);
    var redirected := out.finalUrl != state.url;
    var status := if redirected then Redirected else Good;
    return SourceState(state.url, Some(now), |prefixes|, seen,
                       NextHealth(state.health, status, now, if redirected then Some(out.finalUrl) else None), None, 0);
  }

  // ---------- runs ----------

  function After(state: SourceState, fetches: seq<Fetch>): SourceState
    decreases |fetches|
  {
    if fetches == [] then state else After(ApplyFetch(state, fetches[0].out, fetches[0].at), fetches[1..])
  }

  predicate InOrder(fetches: seq<Fetch>, from: int) {
    fetches == [] || (from <= fetches[0].at && InOrder(fetches[1..], fetches[0].at))
  }

  predicate Applies(state: SourceState, out: FetchOutcome) {
    out.Fetched? && !Refuses(state, out.prefixes)
  }

  // The copies a run applied, with their times.
  function AppliedCopies(state: SourceState, fetches: seq<Fetch>): seq<Fetch>
    decreases |fetches|
  {
    if fetches == [] then []
    else (if Applies(state, fetches[0].out) then [fetches[0]] else [])
         + AppliedCopies(ApplyFetch(state, fetches[0].out, fetches[0].at), fetches[1..])
  }

  predicate HasPrefix(copy: Fetch, p: string) { copy.out.Fetched? && p in copy.out.prefixes }

  ghost predicate PresentWithin(copies: seq<Fetch>, p: string, now: int) {
    exists k :: 0 <= k < |copies| && HasPrefix(copies[k], p) && now - copies[k].at <= UNION_MS
  }

  // What the map must say of a prefix, given the copies applied so far and the present time.
  ghost predicate Tracks(seen: map<string, int>, copies: seq<Fetch>, p: string, now: int) {
    && (forall k :: 0 <= k < |copies| && HasPrefix(copies[k], p) ==>
          if p in seen then copies[k].at <= seen[p] else now - copies[k].at > UNION_MS)
    && (p in seen ==> exists k :: 0 <= k < |copies| && HasPrefix(copies[k], p) && copies[k].at == seen[p])
  }

  lemma TracksMeansUnion(state: SourceState, copies: seq<Fetch>, p: string, now: int)
    requires Tracks(state.seen, copies, p, now)
    ensures p in UnionOf(state, now) <==> PresentWithin(copies, p, now)
  {
    if p in state.seen {
      var k :| 0 <= k < |copies| && HasPrefix(copies[k], p) && copies[k].at == state.seen[p];
    }
  }

  lemma TracksLater(seen: map<string, int>, copies: seq<Fetch>, p: string, now: int, later: int)
    requires Tracks(seen, copies, p, now) && now <= later
    ensures Tracks(seen, copies, p, later)
  {
  }

  lemma TracksApply(state: SourceState, copies: seq<Fetch>, f: Fetch, p: string)
    requires Tracks(state.seen, copies, p, f.at) && Applies(state, f.out)
    requires forall k :: 0 <= k < |copies| ==> copies[k].at <= f.at
    ensures Tracks(ApplyFetch(state, f.out, f.at).seen, copies + [f], p, f.at)
  {
    var seen := ApplyFetch(state, f.out, f.at).seen;
    var all := copies + [f];
    if p in f.out.prefixes {
      assert seen[p] == f.at && HasPrefix(all[|copies|], p);
    } else if p in seen {
      var k :| 0 <= k < |copies| && HasPrefix(copies[k], p) && copies[k].at == state.seen[p];
      assert HasPrefix(all[k], p);
    }
  }

  lemma {:induction false} RunTracks(state: SourceState, copies: seq<Fetch>, fetches: seq<Fetch>, p: string, from: int,
                                     now: int)
    requires Tracks(state.seen, copies, p, from) && InOrder(fetches, from) && from <= now
    requires forall k :: 0 <= k < |copies| ==> copies[k].at <= from
    requires fetches == [] || fetches[|fetches| - 1].at <= now
    ensures Tracks(After(state, fetches).seen, copies + AppliedCopies(state, fetches), p, now)
    decreases |fetches|
  {
    if fetches == [] {
      assert copies + [] == copies;
      TracksLater(state.seen, copies, p, from, now);
    } else {
      var f := fetches[0];
      var next := ApplyFetch(state, f.out, f.at);
      TracksLater(state.seen, copies, p, from, f.at);
      LastIsLatest(fetches, from);
      var rest := AppliedCopies(next, fetches[1..]);
      if Applies(state, f.out) {
        TracksApply(state, copies, f, p);
        RunTracks(next, copies + [f], fetches[1..], p, f.at, now);
        assert copies + ([f] + rest) == (copies + [f]) + rest;
      } else {
        RunTracks(next, copies, fetches[1..], p, f.at, now);
        assert [] + rest == rest;
      }
    }
  }

  lemma {:induction false} LastIsLatest(fetches: seq<Fetch>, from: int)
    requires InOrder(fetches, from) && fetches != []
    ensures from <= fetches[0].at <= fetches[|fetches| - 1].at
  {
    if |fetches| > 1 { LastIsLatest(fetches[1..], fetches[0].at); }
  }

  // Over any run the union is exactly the prefixes of the copies applied within the window, although
  // the map is pruned on the way.
  lemma UnionIsExact(url: string, from: int, fetches: seq<Fetch>, now: int, p: string)
    requires InOrder(fetches, from) && from <= now && (fetches == [] || fetches[|fetches| - 1].at <= now)
    ensures var start := EmptySourceState(url, from);
            p in UnionOf(After(start, fetches), now) <==> PresentWithin(AppliedCopies(start, fetches), p, now)
  {
    var start := EmptySourceState(url, from);
    RunTracks(start, [], fetches, p, from, now);
    assert [] + AppliedCopies(start, fetches) == AppliedCopies(start, fetches);
    TracksMeansUnion(After(start, fetches), AppliedCopies(start, fetches), p, now);
  }

  // ---------- when a shrunken copy is believed ----------

  // A reference that keeps every copy refused since the last applied one.
  datatype Watcher = Watcher(count: nat, refused: seq<seq<string>>)

  predicate SameCopy(a: seq<string>, b: seq<string>) { multiset(a) == multiset(b) }

  // The copy is the third identical one in a row among the successful fetches.
  predicate ThirdInARow(refused: seq<seq<string>>, copy: seq<string>) {
    |refused| >= 2 && SameCopy(refused[|refused| - 1], copy) && SameCopy(refused[|refused| - 2], copy)
  }

  predicate Believes(w: Watcher, copy: seq<string>) {
    w.count == 0 || 2 * |copy| >= w.count || ThirdInARow(w.refused, copy)
  }

  function Watch(w: Watcher, out: FetchOutcome): Watcher {
    if !out.Fetched? then w
    else if Believes(w, out.prefixes) then Watcher(|out.prefixes|, [])
    else Watcher(w.count, w.refused + [out.prefixes])
  }

  function WatchAll(w: Watcher, fetches: seq<Fetch>): Watcher
    decreases |fetches|
  {
    if fetches == [] then w else WatchAll(Watch(w, fetches[0].out), fetches[1..])
  }

  predicate AllCidrs(copy: seq<string>) {
    forall k :: 0 <= k < |copy| ==> ParseCidr(copy[k]).Some?
  }

  predicate ValidFetch(out: FetchOutcome) { out.Fetched? ==> AllCidrs(out.prefixes) }

  // A signature and a counter that summarise the end of the watcher's list.
  ghost predicate SummaryOf(count: nat, sig: Option<string>, runs: nat, w: Watcher) {
    && count == w.count
    && (forall k :: 0 <= k < |w.refused| ==> AllCidrs(w.refused[k]))
    && if w.refused == [] then sig == None && runs == 0
       else
         var last := w.refused[|w.refused| - 1];
         && sig == Some(Signature(last))
         && runs == if |w.refused| >= 2 && SameCopy(w.refused[|w.refused| - 2], last) then 2 else 1
  }

  ghost predicate Summarises(state: SourceState, w: Watcher) {
    SummaryOf(state.lastGoodCount, state.shrunkSig, state.shrunkRuns, w)
  }

  lemma SignatureMatches(state: SourceState, w: Watcher, copy: seq<string>)
    requires Summarises(state, w) && AllCidrs(copy)
    ensures state.shrunkSig == Some(Signature(copy))
       <==> w.refused != [] && SameCopy(w.refused[|w.refused| - 1], copy)
  {
    hide Signature, AllCidrs, SameCopy;
    if w.refused != [] { SignatureIsCopy(w.refused[|w.refused| - 1], copy); }
  }

  lemma SameCopyMoves(a: seq<string>, b: seq<string>, c: seq<string>)
    requires SameCopy(b, c)
    ensures SameCopy(a, c) <==> SameCopy(a, b)
  {
  }

  lemma BelievesIsApplies(state: SourceState, w: Watcher, copy: seq<string>)
    requires Summarises(state, w) && AllCidrs(copy)
    ensures Refuses(state, copy) <==> !Believes(w, copy)
    ensures Refuses(state, copy) ==>
      RunsWith(state, copy) == if w.refused != [] && SameCopy(w.refused[|w.refused| - 1], copy) then 2 else 1
  {
    hide Signature, AllCidrs, SameCopy;
    SignatureMatches(state, w, copy);
    if |w.refused| >= 2 && SameCopy(w.refused[|w.refused| - 1], copy) {
      SameCopyMoves(w.refused[|w.refused| - 2], w.refused[|w.refused| - 1], copy);
    }
  }

  lemma RefusalSummary(state: SourceState, w: Watcher, copy: seq<string>)
    requires Summarises(state, w) && AllCidrs(copy)
    ensures SummaryOf(w.count, Some(Signature(copy)),
                      if w.refused != [] && SameCopy(w.refused[|w.refused| - 1], copy) then 2 else 1,
                      Watcher(w.count, w.refused + [copy]))
  {
    hide Signature, AllCidrs, SameCopy;
    var refused := w.refused + [copy];
    assert refused[|refused| - 1] == copy;
    assert w.refused != [] ==> refused[|refused| - 2] == w.refused[|w.refused| - 1];
  }

  // What a fetch does to the three fields the shrink guard reads.
  lemma GuardFields(state: SourceState, f: Fetch)
    ensures var next := ApplyFetch(state, f.out, f.at);
            && (!f.out.Fetched? ==> next.lastGoodCount == state.lastGoodCount
                                    && next.shrunkSig == state.shrunkSig && next.shrunkRuns == state.shrunkRuns)
            && (f.out.Fetched? && Refuses(state, f.out.prefixes) ==>
                  next.lastGoodCount == state.lastGoodCount && next.shrunkSig == Some(Signature(f.out.prefixes))
                  && next.shrunkRuns == RunsWith(state, f.out.prefixes))
            && (f.out.Fetched? && !Refuses(state, f.out.prefixes) ==>
                  next.lastGoodCount == |f.out.prefixes| && next.shrunkSig == None && next.shrunkRuns == 0)
  {
    hide Signature, Recent, SeenNow, NextHealth, RunsWith, Refuses;
  }

  lemma WatchStep(state: SourceState, w: Watcher, f: Fetch)
    requires Summarises(state, w) && ValidFetch(f.out)
    ensures f.out.Fetched? ==> (Applies(state, f.out) <==> Believes(w, f.out.prefixes))
    ensures Summarises(ApplyFetch(state, f.out, f.at), Watch(w, f.out))
  {
    hide Signature, AllCidrs, SameCopy, ApplyFetch, RunsWith, Refuses, Believes;
    GuardFields(state, f);
    if f.out.Fetched? {
      BelievesIsApplies(state, w, f.out.prefixes);
      if !Believes(w, f.out.prefixes) { RefusalSummary(state, w, f.out.prefixes); }
    }
  }

  // On every run the fetch rules apply a copy exactly when the watcher believes it.
  lemma {:induction false} ShrinkGuardIsExact(state: SourceState, w: Watcher, fetches: seq<Fetch>, f: Fetch)
    requires Summarises(state, w) && ValidFetch(f.out)
    requires forall k :: 0 <= k < |fetches| ==> ValidFetch(fetches[k].out)
    ensures f.out.Fetched? ==>
      (Applies(After(state, fetches), f.out) <==> Believes(WatchAll(w, fetches), f.out.prefixes))
    decreases |fetches|
  {
    if fetches == [] {
      WatchStep(state, w, f);
    } else {
      WatchStep(state, w, fetches[0]);
      ShrinkGuardIsExact(ApplyFetch(state, fetches[0].out, fetches[0].at), Watch(w, fetches[0].out), fetches[1..], f);
    }
  }

  lemma StartIsSummarised(url: string, now: int)
    ensures Summarises(EmptySourceState(url, now), Watcher(0, []))
  {
  }

  // ---------- the signature names the copy ----------

  // One slash, and no comma after it: the shape of a prefix text.
  predicate Shaped(p: string) {
    var k := IndexOf(p, '/');
    k < |p| && ',' !in p[k + 1..] && '/' !in p[k + 1..]
  }

  lemma {:induction false} TrimLeftChars(s: string, x: char)
    requires x in s && !IsSpace(x)
    ensures x in TrimLeft(s)
  {
    if IsSpace(s[0]) {
      assert s == [s[0]] + s[1..];
      TrimLeftChars(s[1..], x);
    }
  }

  lemma {:induction false} TrimRightChars(s: string, x: char)
    requires x in s && !IsSpace(x)
    ensures x in TrimRight(s)
  {
    if IsSpace(s[|s| - 1]) {
      assert s == s[..|s| - 1] + [s[|s| - 1]];
      TrimRightChars(s[..|s| - 1], x);
    }
  }

  lemma NumericTail(tail: string, x: char)
    requires AllDigits(Trim(tail)) && !IsSpace(x) && !IsDigit(x)
    ensures x !in tail
  {
    if x in tail {
      TrimLeftChars(tail, x);
      TrimRightChars(TrimLeft(tail), x);
    }
  }

  lemma CidrHasNumericTail(p: string)
    requires ParseCidr(p).Some?
    ensures IndexOf(p, '/') < |p| && AllDigits(Trim(p[IndexOf(p, '/') + 1..]))
  {
    hide ParseRaw, Trim, Block, Value, AllDigits, IsMapped, IndexOf;
  }

  lemma CidrsAreShaped(p: string)
    requires ParseCidr(p).Some?
    ensures Shaped(p)
  {
    hide ParseCidr, Trim, AllDigits, IndexOf;
    CidrHasNumericTail(p);
    NumericTail(p[IndexOf(p, '/') + 1..], ',');
    NumericTail(p[IndexOf(p, '/') + 1..], '/');
  }

  // Where the first element of a joined list ends: the first comma after the first slash.
  function HeadEnd(s: string): nat {
    var k := IndexOf(s, '/');
    k + IndexOf(s[k..], ',')
  }

  lemma HeadEndIs(head: string, tail: string)
    requires Shaped(head) && (tail == [] || tail[0] == ',')
    ensures HeadEnd(head + tail) == |head|
  {
    var s := head + tail;
    var k := IndexOf(head, '/');
    assert s[k] == '/';
    IndexOfIs(s, '/', k);
    var rest := head[k..];
    assert s[k..] == rest + tail;
    assert ',' !in rest by {
      assert rest == ['/'] + head[k + 1..];
    }
    IndexAfter(rest, tail);
  }

  lemma IndexAfter(rest: string, tail: string)
    requires ',' !in rest && (tail == [] || tail[0] == ',')
    ensures IndexOf(rest + tail, ',') == |rest|
  {
    var s := rest + tail;
    if tail != [] {
      IndexOfIs(s, ',', |rest|);
    } else {
      assert s == rest;
    }
  }

  predicate AllShaped(parts: seq<string>) { forall k :: 0 <= k < |parts| ==> Shaped(parts[k]) }

  lemma JoinHead(parts: seq<string>)
    requires parts != [] && AllShaped(parts)
    ensures var s := Join(parts, ",");
            && HeadEnd(s) == |parts[0]| <= |s| && s[..|parts[0]|] == parts[0]
            && (|parts| == 1 <==> |parts[0]| == |s|)
            && (|parts| > 1 ==> s[|parts[0]| + 1..] == Join(parts[1..], ","))
  {
    var s := Join(parts, ",");
    var tail := if |parts| == 1 then "" else "," + Join(parts[1..], ",");
    assert s == parts[0] + tail;
    HeadEndIs(parts[0], tail);
  }

  lemma {:induction false} JoinIsInjective(a: seq<string>, b: seq<string>)
    requires AllShaped(a) && AllShaped(b) && Join(a, ",") == Join(b, ",")
    ensures a == b
  {
    if a == [] || b == [] {
      if a != [] { JoinHead(a); } else if b != [] { JoinHead(b); }
    } else {
      JoinHead(a);
      JoinHead(b);
      if |a| > 1 {
        JoinIsInjective(a[1..], b[1..]);
      }
      assert a == [a[0]] + a[1..] && b == [b[0]] + b[1..];
    }
  }

  // Copies made of prefixes have one signature exactly when they hold the same prefixes.
  lemma SignatureIsCopy(a: seq<string>, b: seq<string>)
    requires AllCidrs(a) && AllCidrs(b)
    ensures Signature(a) == Signature(b) <==> SameCopy(a, b)
  {
    var x, y := Sort(a, AtMost), Sort(b, AtMost);
    SortKeeps(a, AtMost);
    SortKeeps(b, AtMost);
    if SameCopy(a, b) {
      StringsAreOrdered();
      SortSorts(a, AtMost);
      SortSorts(b, AtMost);
      SortedIsUnique(x, y, AtMost);
    }
    if Signature(a) == Signature(b) {
      SortedAreShaped(a);
      SortedAreShaped(b);
      JoinIsInjective(x, y);
    }
  }

  lemma SortedAreShaped(a: seq<string>)
    requires AllCidrs(a)
    ensures AllShaped(Sort(a, AtMost))
  {
    var x := Sort(a, AtMost);
    SortKeeps(a, AtMost);
    forall k | 0 <= k < |x| ensures Shaped(x[k]) {
      assert x[k] in a;
      CidrsAreShaped(x[k]);
    }
  }
}
