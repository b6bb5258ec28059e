// Keyset paging of the request list: newest first, a cursor names the last row shown.
module Paging {
  import opened Wrappers
  import opened Sorting
  import opened Text

  datatype Row = Row(at: int, id: string, path: string)

  datatype Cursor = Cursor(at: int, id: string)

  datatype Page = Page(rows: seq<Row>, next: Option<Cursor>)

  // a may stand before b: newest first, ties within a millisecond by descending id.
  predicate NewestFirst(a: Row, b: Row) {
    b.at < a.at || (b.at == a.at && AtMost(b.id, a.id))
  }

  predicate IsAfter(r: Row, after: Option<Cursor>) {
    after.None? || r.at < after.value.at || (r.at == after.value.at && Less(r.id, after.value.id))
  }

  function Key(r: Row): Cursor { Cursor(r.at, r.id) }

  function Filter(rows: seq<Row>, after: Option<Cursor>): seq<Row> {
    if rows == [] then []
    else if IsAfter(rows[0], after) then [rows[0]] + Filter(rows[1..], after)
    else Filter(rows[1..], after)
  }

  function PageRows(rows: seq<Row>, limit: nat, after: Option<Cursor>): Page {
    var start := Filter(Sort(rows, NewestFirst), after);
    var page := if |start| <= limit then start else start[..limit];
    Page(page, if |start| > limit && page != [] then Some(Key(page[|page| - 1])) else None)
  }

  predicate DistinctKeys(rows: seq<Row>) {
    forall i, j :: 0 <= i < j < |rows| ==> Key(rows[i]) != Key(rows[j])
  }

  // ---------- order ----------

  lemma NewestFirstIsPreorder()
    ensures Preorder(NewestFirst)
  {
    forall a, b ensures NewestFirst(a, b) || NewestFirst(b, a) { LessTotal(a.id, b.id); }
    forall a, b, c | NewestFirst(a, b) && NewestFirst(b, c) ensures NewestFirst(a, c) {
      StringsAreOrdered();
      assert AtMost(c.id, b.id) && AtMost(b.id, a.id) ==> AtMost(c.id, a.id);
    }
  }

  // Strictly after a row: behind it in newest-first order, with another key.
  lemma AfterMeansBehind(a: Row, b: Row)
    ensures IsAfter(b, Some(Key(a))) <==> NewestFirst(a, b) && Key(a) != Key(b)
    ensures IsAfter(b, Some(Key(a))) <==> !NewestFirst(b, a)
  {
    LessTotal(a.id, b.id);
  }

  lemma {:induction false} FilterAll(rows: seq<Row>, after: Option<Cursor>)
    requires forall r :: r in rows ==> IsAfter(r, after)
    ensures Filter(rows, after) == rows
  {
    if rows != [] { FilterAll(rows[1..], after); }
  }

  lemma {:induction false} FilterNone(rows: seq<Row>, after: Option<Cursor>)
    requires forall r :: r in rows ==> !IsAfter(r, after)
    ensures Filter(rows, after) == []
  {
    if rows != [] { FilterNone(rows[1..], after); }
  }

  lemma {:induction false} FilterAppend(a: seq<Row>, b: seq<Row>, after: Option<Cursor>)
    ensures Filter(a + b, after) == Filter(a, after) + Filter(b, after)
  {
    if a == [] {
      assert a + b == b;
    } else {
      FilterAppend(a[1..], b, after);
      assert (a + b)[0] == a[0] && (a + b)[1..] == a[1..] + b;
      var x, y := Filter(a[1..], after), Filter(b, after);
      assert [a[0]] + (x + y) == ([a[0]] + x) + y;
    }
  }

  // The rows after the k-th key of a sorted list with distinct keys are the rows from k + 1 on.
  lemma SuffixAfter(s: seq<Row>, k: nat)
    requires Sorted(s, NewestFirst) && DistinctKeys(s) && k < |s|
    ensures Filter(s, Some(Key(s[k]))) == s[k + 1..]
  {
    var after := Some(Key(s[k]));
    var front, back := s[..k + 1], s[k + 1..];
    forall r | r in front ensures !IsAfter(r, after) { FrontIsShown(s, k, r); }
    forall r | r in back ensures IsAfter(r, after) { BackIsBehind(s, k, r); }
    FilterNone(front, after);
    FilterAll(back, after);
    FilterAppend(front, back, after);
    assert s == front + back;
  }

  lemma FrontIsShown(s: seq<Row>, k: nat, r: Row)
    requires Sorted(s, NewestFirst) && k < |s| && r in s[..k + 1]
    ensures !IsAfter(r, Some(Key(s[k])))
  {
    var i :| 0 <= i <= k && s[i] == r;
    AfterMeansBehind(s[k], r);
  }

  lemma BackIsBehind(s: seq<Row>, k: nat, r: Row)
    requires Sorted(s, NewestFirst) && DistinctKeys(s) && k < |s| && r in s[k + 1..]
    ensures IsAfter(r, Some(Key(s[k])))
  {
    var i :| k < i < |s| && s[i] == r;
    AfterMeansBehind(s[k], r);
    assert NewestFirst(s[k], s[i]) && Key(s[k]) != Key(s[i]);
  }

  lemma {:induction false} FilterSubset(s: seq<Row>, after: Option<Cursor>)
    ensures forall r :: r in Filter(s, after) ==> r in s && IsAfter(r, after)
  {
    if s != [] { FilterSubset(s[1..], after); }
  }

  lemma {:induction false} FilterTwice(s: seq<Row>, a: Option<Cursor>, b: Option<Cursor>)
    requires forall r: Row :: IsAfter(r, b) ==> IsAfter(r, a)
    ensures Filter(Filter(s, a), b) == Filter(s, b)
  {
    if s != [] {
      FilterTwice(s[1..], a, b);
      var head := if IsAfter(s[0], a) then [s[0]] else [];
      FilterAppend(head, Filter(s[1..], a), b);
    }
  }

  // A kept row stands behind every row that is not kept.
  lemma KeptIsBehind(a: Row, x: Row, after: Option<Cursor>)
    requires IsAfter(x, after) && !IsAfter(a, after)
    ensures !NewestFirst(x, a)
  {
    var c := Row(after.value.at, after.value.id, "");
    AfterMeansBehind(c, x);
    AfterMeansBehind(c, a);
    NewestFirstIsPreorder();
  }

  lemma InsertInFront(x: Row, kept: seq<Row>)
    requires forall r :: r in kept ==> NewestFirst(x, r)
    ensures Insert(x, kept, NewestFirst) == [x] + kept
  {
  }

  // Inserting a row and then filtering: the row is inserted into what is kept, or not kept.
  lemma {:induction false} FilterInsert(x: Row, s: seq<Row>, after: Option<Cursor>)
    requires Sorted(s, NewestFirst)
    ensures IsAfter(x, after) ==> Filter(Insert(x, s, NewestFirst), after) == Insert(x, Filter(s, after), NewestFirst)
    ensures !IsAfter(x, after) ==> Filter(Insert(x, s, NewestFirst), after) == Filter(s, after)
  {
    if s == [] || NewestFirst(x, s[0]) {
      FilterInFront(x, s, after);
    } else {
      FilterInsert(x, s[1..], after);
      var ins := Insert(x, s, NewestFirst);
      assert ins[0] == s[0] && ins[1..] == Insert(x, s[1..], NewestFirst);
      if IsAfter(x, after) && IsAfter(s[0], after) {
        assert Filter(s, after)[1..] == Filter(s[1..], after);
      }
    }
  }

  lemma FilterInFront(x: Row, s: seq<Row>, after: Option<Cursor>)
    requires Sorted(s, NewestFirst) && (s == [] || NewestFirst(x, s[0]))
    ensures IsAfter(x, after) ==> Filter([x] + s, after) == Insert(x, Filter(s, after), NewestFirst)
    ensures !IsAfter(x, after) ==> Filter([x] + s, after) == Filter(s, after)
  {
    assert ([x] + s)[1..] == s;
    FilterSubset(s, after);
    forall r | r in Filter(s, after) ensures NewestFirst(x, r) {
      var k :| 0 <= k < |s| && s[k] == r;
      NewestFirstIsPreorder();
      assert k == 0 || NewestFirst(s[0], s[k]);
    }
    InsertInFront(x, Filter(s, after));
  }

  lemma {:induction false} FilterSort(rows: seq<Row>, after: Option<Cursor>)
    ensures Filter(Sort(rows, NewestFirst), after) == Sort(Filter(rows, after), NewestFirst)
  {
    if rows != [] {
      FilterSort(rows[1..], after);
      NewestFirstIsPreorder();
      SortSorts(rows[1..], NewestFirst);
      FilterInsert(rows[0], Sort(rows[1..], NewestFirst), after);
      if IsAfter(rows[0], after) { assert Filter(rows, after)[1..] == Filter(rows[1..], after); }
    }
  }

  // ---------- following the cursor ----------

  // What is still to be shown after a cursor, newest first.
  function Rest(rows: seq<Row>, after: Option<Cursor>): seq<Row> {
    Filter(Sort(rows, NewestFirst), after)
  }

  // Every arriving row stands strictly in front of every row of the list.
  ghost predicate Newer(arrivals: seq<Row>, list: seq<Row>) {
    forall a, r :: a in arrivals && r in list ==> !NewestFirst(r, a)
  }

  lemma RestIsSorted(rows: seq<Row>, after: Option<Cursor>)
    ensures Sorted(Rest(rows, after), NewestFirst)
  {
    FilterSort(rows, after);
    NewestFirstIsPreorder();
    SortSorts(Filter(rows, after), NewestFirst);
  }

  // Rows that arrive in front of the cursor change no page after it.
  lemma ArrivalsStayInFront(rows: seq<Row>, arrivals: seq<Row>, limit: nat, c: Row)
    requires Newer(arrivals, [c])
    ensures Rest(rows + arrivals, Some(Key(c))) == Rest(rows, Some(Key(c)))
    ensures PageRows(rows + arrivals, limit, Some(Key(c))) == PageRows(rows, limit, Some(Key(c)))
  {
    var after := Some(Key(c));
    FilterSort(rows + arrivals, after);
    FilterSort(rows, after);
    FilterAppend(rows, arrivals, after);
    forall a | a in arrivals ensures !IsAfter(a, after) { AfterMeansBehind(c, a); }
    FilterNone(arrivals, after);
    assert Filter(rows, after) + [] == Filter(rows, after);
  }

  // The next request's rows are the rest of this one's, whatever newer rows arrived in between.
  lemma NextRequest(rows: seq<Row>, arrivals: seq<Row>, after: Option<Cursor>, k: nat)
    requires var rest := Rest(rows, after);
             k < |rest| && DistinctKeys(rest) && Newer(arrivals, rest)
    ensures Rest(rows + arrivals, Some(Key(Rest(rows, after)[k]))) == Rest(rows, after)[k + 1..]
  {
    var rest := Rest(rows, after);
    var next := Some(Key(rest[k]));
    ArrivalsStayInFront(rows, arrivals, 0, rest[k]);
    FilterSubset(Sort(rows, NewestFirst), after);
    assert IsAfter(rest[k], after);
    forall r: Row | IsAfter(r, next) ensures IsAfter(r, after) {
      if !IsAfter(r, after) {
        KeptIsBehind(r, rest[k], after);
        AfterMeansBehind(rest[k], r);
      }
    }
    FilterTwice(Sort(rows, NewestFirst), after, next);
    RestIsSorted(rows, after);
    SuffixAfter(rest, k);
  }

  lemma NextReading(rest: seq<Row>, limit: nat, arrivals: seq<seq<Row>>)
    requires limit < |rest| && DistinctKeys(rest)
    requires forall k :: 0 <= k < |arrivals| ==> Newer(arrivals[k], rest)
    ensures DistinctKeys(rest[limit..]) && rest[..limit] + rest[limit..] == rest
    ensures forall k :: 0 <= k < |arrivals| ==> Newer(arrivals[k], rest[limit..])
  {
    assert forall r :: r in rest[limit..] ==> r in rest;
  }

  // A whole reading: page after page by its cursor, with rows arriving before each further request.
  // It ends, and shows every row of the first request's list once, newest first.
  ghost function Follow(rows: seq<Row>, limit: nat, after: Option<Cursor>, arrivals: seq<seq<Row>>): (shown: seq<Row>)
    requires limit > 0 && DistinctKeys(Rest(rows, after))
    requires forall k :: 0 <= k < |arrivals| ==> Newer(arrivals[k], Rest(rows, after))
    ensures shown == Rest(rows, after)
    decreases |Rest(rows, after)|
  {
    var page := PageRows(rows, limit, after);
    var rest := Rest(rows, after);
    if page.next.None? then page.rows
    else
      var arriving := if arrivals == [] then [] else arrivals[0];
      var later := if arrivals == [] then [] else arrivals[1..];
      NextRequest(rows, arriving, after, limit - 1);
      NextReading(rest, limit, later);
      page.rows + Follow(rows + arriving, limit, page.next, later)
  }

  lemma ReadingShowsEveryRowOnce(rows: seq<Row>, limit: nat, arrivals: seq<seq<Row>>)
    requires limit > 0 && DistinctKeys(rows)
    requires forall k :: 0 <= k < |arrivals| ==> Newer(arrivals[k], rows)
    ensures DistinctKeys(Rest(rows, None))
    ensures forall k :: 0 <= k < |arrivals| ==> Newer(arrivals[k], Rest(rows, None))
    ensures var shown := Follow(rows, limit, None, arrivals);
            multiset(shown) == multiset(rows) && Sorted(shown, NewestFirst)
  {
    var sorted := Sort(rows, NewestFirst);
    SortKeeps(rows, NewestFirst);
    FilterAll(sorted, None);
    DistinctIsPermutable(rows, sorted);
    RestIsSorted(rows, None);
  }

  // No row of a list with distinct keys appears twice, in any order.
  lemma DistinctIsPermutable(a: seq<Row>, b: seq<Row>)
    requires DistinctKeys(a) && multiset(a) == multiset(b)
    ensures DistinctKeys(b)
  {
    forall i, j | 0 <= i < j < |b| ensures Key(b[i]) != Key(b[j]) {
      assert b[i] in multiset(a) && b[j] in multiset(a);
      assert b[i] in a && b[j] in a;
      if b[i] == b[j] {
        TwiceCounts(b, i, j);
        OnceCounts(a, b[i]);
      }
    }
  }

  lemma TwiceCounts(b: seq<Row>, i: nat, j: nat)
    requires i < j < |b| && b[i] == b[j]
    ensures multiset(b)[b[i]] >= 2
  {
    assert b == b[..j] + b[j..];
    assert b[..j][i] in multiset(b[..j]) && b[j..][0] in multiset(b[j..]);
  }

  lemma OnceCounts(a: seq<Row>, x: Row)
    requires DistinctKeys(a)
    ensures multiset(a)[x] <= 1
  {
    if x in a {
      var k :| 0 <= k < |a| && a[k] == x;
      assert a == a[..k] + [x] + a[k + 1..];
      assert x !in a[..k] && x !in a[k + 1..];
    }
  }

  // ---------- what one page holds ----------

  // a stands strictly before b: later, or in the same millisecond with the greater id.
  predicate Later(a: Row, b: Row) {
    a.at > b.at || (a.at == b.at && Less(b.id, a.id))
  }

  predicate Behind(r: Row, after: Option<Cursor>) {
    match after
    case None => true
    case Some(c) => Later(Row(c.at, c.id, ""), r)
  }

  function CountBehind(rows: seq<Row>, after: Option<Cursor>): nat {
    if rows == [] then 0 else (if Behind(rows[0], after) then 1 else 0) + CountBehind(rows[1..], after)
  }

  lemma BehindIsAfter(r: Row, after: Option<Cursor>)
    ensures Behind(r, after) <==> IsAfter(r, after)
  {
  }

  lemma LaterIsFirst(a: Row, b: Row)
    ensures Later(a, b) <==> !NewestFirst(b, a)
  {
    LessTotal(a.id, b.id);
  }

  lemma {:induction false} FilterCounts(rows: seq<Row>, after: Option<Cursor>)
    ensures |Filter(rows, after)| == CountBehind(rows, after)
    ensures forall x :: multiset(Filter(rows, after))[x] == if Behind(x, after) then multiset(rows)[x] else 0
  {
    if rows != [] {
      FilterCounts(rows[1..], after);
      BehindIsAfter(rows[0], after);
      assert rows == [rows[0]] + rows[1..];
    }
  }

  // What is left of a sorted list after its first part.
  lemma CutSorted(s: seq<Row>, n: nat, x: Row)
    requires Sorted(s, NewestFirst) && n <= |s| && multiset(s)[x] > multiset(s[..n])[x]
    ensures forall r :: r in s[..n] ==> !Later(x, r)
  {
    assert s == s[..n] + s[n..];
    assert x in multiset(s[n..]);
    var k :| 0 <= k < |s[n..]| && s[n..][k] == x;
    forall r | r in s[..n] ensures !Later(x, r) {
      var i :| 0 <= i < n && s[..n][i] == r;
      assert NewestFirst(s[i], s[n + k]);
      LaterIsFirst(x, r);
    }
  }

  // A page holds as many of the rows strictly after the cursor as the limit lets it, newest first, none of
  // them behind one left out; and a next page is offered exactly when there is one, from the last row shown.
  lemma PageIs(rows: seq<Row>, limit: nat, after: Option<Cursor>)
    ensures var page, behind := PageRows(rows, limit, after), CountBehind(rows, after);
      && |page.rows| == (if behind < limit then behind else limit)
      && (forall i, j :: 0 <= i < j < |page.rows| ==> !Later(page.rows[j], page.rows[i]))
      && (forall r :: r in page.rows ==> Behind(r, after)) && multiset(page.rows) <= multiset(rows)
      && (forall x, r :: Behind(x, after) && multiset(rows)[x] > multiset(page.rows)[x] && r in page.rows ==>
            !Later(x, r))
      && (limit > 0 ==> (page.next.Some? <==> behind > limit))
      && (page.next.Some? ==> page.rows != [] && page.next.value == Cursor(page.rows[|page.rows| - 1].at,
                                                                           page.rows[|page.rows| - 1].id))
  {
    hide Filter, Sort, Later, NewestFirst, Sorted, CountBehind, Behind;
    var start, n := Rest(rows, after), |PageRows(rows, limit, after).rows|;
    RestIs(rows, after);
    assert PageRows(rows, limit, after).rows == start[..n];
    FirstOf(rows, start, n, after);
    FrontIsSorted(start, n);
  }

  // What is still to be shown: the rows behind the cursor, each as often as it is there, in order.
  lemma RestIs(rows: seq<Row>, after: Option<Cursor>)
    ensures Sorted(Rest(rows, after), NewestFirst) && |Rest(rows, after)| == CountBehind(rows, after)
    ensures forall x :: multiset(Rest(rows, after))[x] == if Behind(x, after) then multiset(rows)[x] else 0
  {
    hide Filter, Sort, Later, NewestFirst, Sorted, CountBehind, Behind;
    FilterSort(rows, after);
    SortKeeps(Filter(rows, after), NewestFirst);
    FilterCounts(rows, after);
    RestIsSorted(rows, after);
  }

  lemma FrontIsSorted(s: seq<Row>, n: nat)
    requires Sorted(s, NewestFirst) && n <= |s|
    ensures forall i, j :: 0 <= i < j < n ==> !Later(s[j], s[i])
  {
    hide Later, NewestFirst;
    forall i, j | 0 <= i < j < n ensures !Later(s[j], s[i]) { LaterIsFirst(s[j], s[i]); }
  }

  lemma FirstOf(rows: seq<Row>, start: seq<Row>, n: nat, after: Option<Cursor>)
    requires n <= |start| && Sorted(start, NewestFirst)
    requires forall x :: multiset(start)[x] == if Behind(x, after) then multiset(rows)[x] else 0
    ensures (forall r :: r in start[..n] ==> Behind(r, after)) && multiset(start[..n]) <= multiset(rows)
    ensures forall x, r :: Behind(x, after) && multiset(rows)[x] > multiset(start[..n])[x] && r in start[..n] ==>
      !Later(x, r)
  {
    hide Later, NewestFirst, Behind, Sorted;
    assert start == start[..n] + start[n..];
    forall x ensures multiset(start[..n])[x] <= multiset(rows)[x] {}
    forall r | r in start[..n] ensures Behind(r, after) { assert r in multiset(start); }
    forall x, r | Behind(x, after) && multiset(rows)[x] > multiset(start[..n])[x] && r in start[..n]
      ensures !Later(x, r)
    {
      CutSorted(start, n, x);
    }
  }

  // How many requests a reading takes, rows arriving in between as before.
  ghost function Requests(rows: seq<Row>, limit: nat, after: Option<Cursor>, arrivals: seq<seq<Row>>): (n: nat)
    requires limit > 0 && DistinctKeys(Rest(rows, after))
    requires forall k :: 0 <= k < |arrivals| ==> Newer(arrivals[k], Rest(rows, after))
    ensures var left := |Rest(rows, after)|; n == if left == 0 then 1 else (left + limit - 1) / limit
    decreases |Rest(rows, after)|
  {
    var page, rest := PageRows(rows, limit, after), Rest(rows, after);
    if page.next.None? then
      OnePage(|rest|, limit);
      1
    else
      var arriving := if arrivals == [] then [] else arrivals[0];
      var later := if arrivals == [] then [] else arrivals[1..];
      NextRequest(rows, arriving, after, limit - 1);
      NextReading(rest, limit, later);
      OneMorePage(|rest|, limit);
      1 + Requests(rows + arriving, limit, page.next, later)
  }

  lemma OnePage(left: nat, limit: nat)
    requires limit > 0
    ensures 0 < left <= limit ==> (left + limit - 1) / limit == 1
  {
  }

  lemma OneMorePage(left: nat, limit: nat)
    requires 0 < limit < left
    ensures 1 + (left - limit + limit - 1) / limit == (left + limit - 1) / limit
  {
    var q, r := (left - 1) / limit, (left - 1) % limit;
    assert left - 1 == q * limit + r;
    assert left + limit - 1 == (q + 1) * limit + r;
    QuotientIs(left + limit - 1, limit, q + 1, r);
  }

  lemma QuotientIs(x: nat, d: nat, q: nat, r: nat)
    requires d > 0 && r < d && x == q * d + r
    ensures x / d == q
  {
    assert x == x / d * d + x % d;
    MoreIsMore(x / d, q, d);
    MoreIsMore(q, x / d, d);
  }

  lemma {:induction false} MoreIsMore(a: nat, b: nat, d: nat)
    ensures a > b ==> a * d >= b * d + d
  {
    if a > b + 1 { MoreIsMore(a - 1, b, d); }
  }

  lemma AllAfterNone(rows: seq<Row>)
    ensures forall r :: r in rows ==> IsAfter(r, None)
  {
  }

  // A reading of n > 0 rows takes n over the limit requests, rounded up.
  lemma RequestsOfAReading(rows: seq<Row>, limit: nat, arrivals: seq<seq<Row>>)
    requires limit > 0 && rows != [] && DistinctKeys(rows)
    requires forall k :: 0 <= k < |arrivals| ==> Newer(arrivals[k], rows)
    ensures DistinctKeys(Rest(rows, None)) && forall k :: 0 <= k < |arrivals| ==> Newer(arrivals[k], Rest(rows, None))
    ensures Requests(rows, limit, None, arrivals) == (|rows| + limit - 1) / limit
  {
    hide Filter, Sort, NewestFirst, Later, IsAfter;
    ReadingShowsEveryRowOnce(rows, limit, arrivals);
    SortKeeps(rows, NewestFirst);
    AllAfterNone(Sort(rows, NewestFirst));
    FilterAll(Sort(rows, NewestFirst), None);
  }
}
