// What a range source's state says about its fetches: how the last one went, since when they have gone
// that way, and when the last copy was applied.
module RangesHealth {
  import opened Wrappers
  import opened CrawlerRanges

  // The state after the first `n` fetches.
  function StateAfter(url: string, from: int, fetches: seq<Fetch>, n: nat): SourceState
    requires n <= |fetches|
  {
    After(EmptySourceState(url, from), fetches[..n])
  }

  function StatusAfter(url: string, from: int, fetches: seq<Fetch>, n: nat): Status
    requires n <= |fetches|
  {
    StateAfter(url, from, fetches, n).health.status
  }

  lemma {:induction false} AfterSnoc(state: SourceState, fetches: seq<Fetch>, f: Fetch)
    ensures After(state, fetches + [f]) == ApplyFetch(After(state, fetches), f.out, f.at)
    ensures AppliedCopies(state, fetches + [f])
         == AppliedCopies(state, fetches) + if Applies(After(state, fetches), f.out) then [f] else []
    decreases |fetches|
  {
    hide ApplyFetch, Applies;
    if fetches == [] {
      assert (fetches + [f])[1..] == [];
      assert After(ApplyFetch(state, f.out, f.at), []) == ApplyFetch(state, f.out, f.at);
    } else {
      assert (fetches + [f])[1..] == fetches[1..] + [f];
      AfterSnoc(ApplyFetch(state, fetches[0].out, fetches[0].at), fetches[1..], f);
    }
  }

  lemma NextState(url: string, from: int, fetches: seq<Fetch>, n: nat)
    requires n < |fetches|
    ensures StateAfter(url, from, fetches, n + 1)
         == ApplyFetch(StateAfter(url, from, fetches, n), fetches[n].out, fetches[n].at)
  {
    hide ApplyFetch, Applies;
    assert fetches[..n + 1] == fetches[..n] + [fetches[n]];
    AfterSnoc(EmptySourceState(url, from), fetches[..n], fetches[n]);
  }

  lemma {:induction false} UrlStays(state: SourceState, fetches: seq<Fetch>)
    ensures After(state, fetches).url == state.url
    decreases |fetches|
  {
    hide Refuses, Signature, Recent, SeenNow;
    if fetches != [] { UrlStays(ApplyFetch(state, fetches[0].out, fetches[0].at), fetches[1..]); }
  }

  // How one fetch goes: a copy that is refused, one that came from elsewhere, one that is in order, or the
  // failure it met.
  lemma StatusIs(url: string, from: int, fetches: seq<Fetch>, n: nat)
    requires n < |fetches|
    ensures var out, before := fetches[n].out, StateAfter(url, from, fetches, n);
      var after := StateAfter(url, from, fetches, n + 1);
      && (after.health.status == HttpFailed <==> out.HttpError?)
      && (after.health.status == Misshapen <==> out.BadShape?)
      && (after.health.status == Unreached <==> out.Unreachable?)
      && (after.health.status == Shrunk <==> out.Fetched? && !Applies(before, out))
      && (after.health.status == Redirected <==> out.Fetched? && Applies(before, out) && out.finalUrl != url)
      && (after.health.status == Good <==> out.Fetched? && Applies(before, out) && out.finalUrl == url)
      && after.health.finalUrl == if after.health.status == Redirected then Some(out.finalUrl) else None
  {
    hide Refuses, Signature, Recent, SeenNow, After;
    UrlStays(EmptySourceState(url, from), fetches[..n]);
    NextState(url, from, fetches, n);
  }

  // The last `n - k` fetches went the same way, and the one before them another.
  predicate Streak(url: string, from: int, fetches: seq<Fetch>, k: nat, n: nat)
    requires n <= |fetches|
  {
    && k < n
    && (forall j :: k < j <= n ==> StatusAfter(url, from, fetches, j) == StatusAfter(url, from, fetches, n))
    && StatusAfter(url, from, fetches, k) != StatusAfter(url, from, fetches, n)
  }

  // `since` is when the present streak began.
  lemma {:induction false} SinceTheStreak(url: string, from: int, fetches: seq<Fetch>, n: nat) returns (k: nat)
    requires 0 < n <= |fetches|
    ensures Streak(url, from, fetches, k, n)
    ensures StateAfter(url, from, fetches, n).health.since == fetches[k].at
  {
    hide ApplyFetch, StateAfter;
    NextState(url, from, fetches, n - 1);
    SinceMoves(StateAfter(url, from, fetches, n - 1), fetches[n - 1]);
    if StatusAfter(url, from, fetches, n - 1) != StatusAfter(url, from, fetches, n) {
      k := n - 1;
    } else {
      if n == 1 { NeverFetchedAgain(url, from, fetches); }
      k := SinceTheStreak(url, from, fetches, n - 1);
    }
  }

  lemma SinceMoves(state: SourceState, f: Fetch)
    ensures var next := ApplyFetch(state, f.out, f.at);
      next.health.since == if next.health.status == state.health.status then state.health.since else f.at
  {
    hide Refuses, Signature, Recent, SeenNow;
  }

  lemma NeverFetchedAgain(url: string, from: int, fetches: seq<Fetch>)
    requires fetches != []
    ensures StatusAfter(url, from, fetches, 0) != StatusAfter(url, from, fetches, 1)
  {
    hide Applies, ApplyFetch, After;
    assert After(EmptySourceState(url, from), fetches[..0]) == EmptySourceState(url, from) by { NothingYet(url, from); }
    StatusIs(url, from, fetches, 0);
  }

  lemma NothingYet(url: string, from: int)
    ensures After(EmptySourceState(url, from), []) == EmptySourceState(url, from)
  {
  }

  // The last copy applied gives the time and the count the state goes by.
  lemma {:induction false} LastGoodIs(url: string, from: int, fetches: seq<Fetch>)
    ensures var start := EmptySourceState(url, from);
      var st, copies := After(start, fetches), AppliedCopies(start, fetches);
      if copies == [] then st.lastGoodAt == None && st.lastGoodCount == 0
      else
        var last := copies[|copies| - 1];
        && st.lastGoodAt == Some(last.at) && last.out.Fetched? && st.lastGoodCount == |last.out.prefixes|
    decreases |fetches|
  {
    hide Refuses, Signature, Recent, SeenNow, NextHealth;
    if fetches != [] {
      var n := |fetches| - 1;
      assert fetches == fetches[..n] + [fetches[n]];
      LastGoodIs(url, from, fetches[..n]);
      AfterSnoc(EmptySourceState(url, from), fetches[..n], fetches[n]);
    }
  }
}
