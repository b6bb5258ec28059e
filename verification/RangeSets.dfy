// Interval sets over addresses: a list of prefixes merged into sorted, gapped intervals, and binary
// search over them as an index into that list.
module RangeSets {
  import opened Wrappers
  import opened Sorting
  import opened IpAddress

  datatype Interval = Interval(lo: nat, hi: nat)

  predicate Proper(list: seq<Interval>) {
    forall k :: 0 <= k < |list| ==> list[k].lo <= list[k].hi
  }

  predicate Holds(iv: Interval, v: nat) { iv.lo <= v <= iv.hi }

  predicate Covers(list: seq<Interval>, v: nat) {
    exists k :: 0 <= k < |list| && Holds(list[k], v)
  }

  predicate ByStart(a: Interval, b: Interval) { a.lo <= b.lo }

  // Sorted, disjoint, and with at least one value between neighbours.
  predicate Gapped(list: seq<Interval>) {
    && Proper(list)
    && forall i, j :: 0 <= i < j < |list| ==> list[i].hi + 1 < list[j].lo
  }

  // ---------- merge ----------

  function Absorb(out: seq<Interval>, iv: Interval): seq<Interval> {
    if out != [] && iv.lo <= out[|out| - 1].hi + 1 then
      var last := out[|out| - 1];
      if iv.hi > last.hi then out[|out| - 1 := Interval(last.lo, iv.hi)] else out
    else out + [iv]
  }

  function MergeFrom(out: seq<Interval>, list: seq<Interval>): seq<Interval>
    decreases |list|
  {
    if list == [] then out else MergeFrom(Absorb(out, list[0]), list[1..])
  }

  function Merge(list: seq<Interval>): seq<Interval> {
    MergeFrom([], Sort(list, ByStart))
  }

  method MergeLoop(list: seq<Interval>) returns (out: seq<Interval>)
    ensures out == Merge(list)
  {
    var sorted := Sort(list, ByStart);
    out := [];
    var i := 0;
    while i < |sorted|
      invariant 0 <= i <= |sorted|
      invariant MergeFrom(out, sorted[i..]) == Merge(list)
    {
      assert sorted[i..][1..] == sorted[i + 1..];
      var iv := sorted[i];
      if out != [] && iv.lo <= out[|out| - 1].hi + 1 {
        var last := out[|out| - 1];
        if iv.hi > last.hi { out := out[|out| - 1 := Interval(last.lo, iv.hi)]; }
      } else {
        out := out + [iv];
      }
      i := i + 1;
    }
  }

  // The last interval starts no later than anything still to come.
  predicate Ahead(out: seq<Interval>, list: seq<Interval>) {
    out == [] || forall k :: 0 <= k < |list| ==> out[|out| - 1].lo <= list[k].lo
  }

  lemma AbsorbKeepsGaps(out: seq<Interval>, iv: Interval)
    requires Gapped(out) && iv.lo <= iv.hi && (out == [] || out[|out| - 1].lo <= iv.lo)
    ensures Gapped(Absorb(out, iv)) && Absorb(out, iv) != []
    ensures Absorb(out, iv)[|Absorb(out, iv)| - 1].lo <= iv.lo
  {
  }

  lemma AbsorbCovers(out: seq<Interval>, iv: Interval, v: nat)
    requires Gapped(out) && iv.lo <= iv.hi && (out == [] || out[|out| - 1].lo <= iv.lo)
    ensures Covers(Absorb(out, iv), v) <==> Covers(out, v) || Holds(iv, v)
  {
    var res := Absorb(out, iv);
    if Covers(out, v) {
      var k :| 0 <= k < |out| && Holds(out[k], v);
      assert Holds(res[k], v);
    }
    if Holds(iv, v) { assert Holds(res[|res| - 1], v); }
    if Covers(res, v) {
      var k :| 0 <= k < |res| && Holds(res[k], v);
      assert k < |res| - 1 ==> Holds(out[k], v);
      assert k == |res| - 1 && !Holds(iv, v) ==> Holds(out[|out| - 1], v);
    }
  }

  lemma {:induction false} MergeFromIsFaithful(out: seq<Interval>, list: seq<Interval>, v: nat)
    requires Gapped(out) && Proper(list) && Sorted(list, ByStart) && Ahead(out, list)
    ensures Gapped(MergeFrom(out, list))
    ensures Covers(MergeFrom(out, list), v) <==> Covers(out, v) || Covers(list, v)
    decreases |list|
  {
    if list != [] {
      AbsorbKeepsGaps(out, list[0]);
      AbsorbCovers(out, list[0], v);
      MergeFromIsFaithful(Absorb(out, list[0]), list[1..], v);
      CoversCons(list, v);
    }
  }

  lemma CoversCons(list: seq<Interval>, v: nat)
    requires list != []
    ensures Covers(list, v) <==> Holds(list[0], v) || Covers(list[1..], v)
  {
    if Covers(list, v) {
      var k :| 0 <= k < |list| && Holds(list[k], v);
      assert k > 0 ==> Holds(list[1..][k - 1], v);
    }
    if Covers(list[1..], v) {
      var k :| 0 <= k < |list[1..]| && Holds(list[1..][k], v);
      assert Holds(list[k + 1], v);
    }
  }

  lemma SameMembersCover(a: seq<Interval>, b: seq<Interval>, v: nat)
    requires forall iv :: iv in a <==> iv in b
    ensures Covers(a, v) <==> Covers(b, v)
    ensures Proper(a) ==> Proper(b)
  {
    if Covers(a, v) {
      var k :| 0 <= k < |a| && Holds(a[k], v);
      assert a[k] in b;
    }
    if Covers(b, v) {
      var k :| 0 <= k < |b| && Holds(b[k], v);
      assert b[k] in a;
    }
    forall k | Proper(a) && 0 <= k < |b| ensures b[k].lo <= b[k].hi {
      assert b[k] in a;
    }
  }

  lemma ByStartIsPreorder()
    ensures Preorder(ByStart)
  {
  }

  // Merging keeps exactly the covered values and leaves a gap between neighbours.
  lemma MergeIsFaithful(list: seq<Interval>, v: nat)
    requires Proper(list)
    ensures Gapped(Merge(list))
    ensures Covers(Merge(list), v) <==> Covers(list, v)
  {
    ByStartIsPreorder();
    SortSorts(list, ByStart);
    SortKeeps(list, ByStart);
    SameMembersCover(list, Sort(list, ByStart), v);
    MergeFromIsFaithful([], Sort(list, ByStart), v);
  }

  // ---------- search ----------

  method Search(list: seq<Interval>, v: nat) returns (found: bool)
    requires Gapped(list)
    ensures found <==> Covers(list, v)
  {
    var lo, hi := 0, |list| - 1;
    while lo <= hi
      invariant 0 <= lo <= hi + 1 <= |list|
      invariant forall k :: 0 <= k < lo ==> list[k].hi < v
      invariant forall k :: hi < k < |list| ==> v < list[k].lo
    {
      var mid := (lo + hi) / 2;
      var iv := list[mid];
      if v < iv.lo {
        hi := mid - 1;
      } else if v > iv.hi {
        lo := mid + 1;
      } else {
        assert Holds(list[mid], v);
        return true;
      }
    }
    return false;
  }

  // The same search as a function, for the expressions that ask it.
  function Found(list: seq<Interval>, v: nat, lo: nat, hi: int): bool
    requires lo <= hi + 1 <= |list|
    decreases hi - lo + 1
  {
    if lo > hi then false
    else
      var mid := (lo + hi) / 2;
      if v < list[mid].lo then Found(list, v, lo, mid - 1)
      else if v > list[mid].hi then Found(list, v, mid + 1, hi)
      else true
  }

  lemma {:induction false} FoundIsCovers(list: seq<Interval>, v: nat, lo: nat, hi: int)
    requires Gapped(list) && lo <= hi + 1 <= |list|
    requires forall k :: 0 <= k < lo ==> list[k].hi < v
    requires forall k :: hi < k < |list| ==> v < list[k].lo
    ensures Found(list, v, lo, hi) <==> Covers(list, v)
    decreases hi - lo + 1
  {
    if lo <= hi {
      var mid := (lo + hi) / 2;
      if v < list[mid].lo {
        FoundIsCovers(list, v, lo, mid - 1);
      } else if v > list[mid].hi {
        FoundIsCovers(list, v, mid + 1, hi);
      } else {
        assert Holds(list[mid], v);
      }
    }
  }

  // ---------- canonical form ----------

  lemma CoversUpTo(list: seq<Interval>, v: nat)
    requires Gapped(list) && list != []
    ensures v < list[0].lo ==> !Covers(list, v)
    ensures Holds(list[0], v) ==> Covers(list, v)
    ensures v == list[0].hi + 1 ==> !Covers(list, v)
  {
    CoversCons(list, v);
  }

  lemma TailCovers(list: seq<Interval>, v: nat)
    requires Gapped(list) && list != []
    ensures Gapped(list[1..])
    ensures Covers(list[1..], v) <==> Covers(list, v) && v > list[0].hi
  {
    CoversCons(list, v);
  }

  // Two gapped lists that cover the same values are the same list.
  lemma {:induction false} GappedIsCanonical(a: seq<Interval>, b: seq<Interval>)
    requires Gapped(a) && Gapped(b) && forall v: nat :: Covers(a, v) <==> Covers(b, v)
    ensures a == b
  {
    if a == [] && b == [] {
    } else if a == [] || b == [] {
      var c := if a == [] then b else a;
      CoversUpTo(c, c[0].lo);
    } else {
      CoversUpTo(a, a[0].lo); CoversUpTo(b, a[0].lo);
      CoversUpTo(a, b[0].lo); CoversUpTo(b, b[0].lo);
      assert a[0].lo == b[0].lo;
      CoversUpTo(a, a[0].hi + 1); CoversUpTo(b, a[0].hi + 1);
      CoversUpTo(a, b[0].hi + 1); CoversUpTo(b, b[0].hi + 1);
      assert a[0] == b[0];
      forall v: nat ensures Covers(a[1..], v) <==> Covers(b[1..], v) {
        TailCovers(a, v);
        TailCovers(b, v);
      }
      TailCovers(a, 0);
      TailCovers(b, 0);
      GappedIsCanonical(a[1..], b[1..]);
      assert a == [a[0]] + a[1..] && b == [b[0]] + b[1..];
    }
  }

  // Inputs in any order and overlap that cover the same values merge to the same list.
  lemma MergeIsCanonical(a: seq<Interval>, b: seq<Interval>)
    requires Proper(a) && Proper(b) && forall v: nat :: Covers(a, v) <==> Covers(b, v)
    ensures Merge(a) == Merge(b)
  {
    MergeIsFaithful(a, 0);
    MergeIsFaithful(b, 0);
    forall v: nat ensures Covers(Merge(a), v) <==> Covers(Merge(b), v) {
      MergeIsFaithful(a, v);
      MergeIsFaithful(b, v);
    }
    GappedIsCanonical(Merge(a), Merge(b));
  }

  // ---------- RangeSet ----------

  datatype RangeSet = RangeSet(v4: seq<Interval>, v6: seq<Interval>) {
    predicate Has(ip: ParsedIp) {
      var list := if ip.family.V4? then v4 else v6;
      Found(list, ip.value, 0, |list| - 1)
    }
  }

  function Intervals(cidrs: seq<Cidr>, family: Family): seq<Interval> {
    if cidrs == [] then []
    else if cidrs[0].family == family then [Interval(cidrs[0].first, cidrs[0].last)] + Intervals(cidrs[1..], family)
    else Intervals(cidrs[1..], family)
  }

  function FromCidrs(cidrs: seq<Cidr>): RangeSet {
    RangeSet(Merge(Intervals(cidrs, V4)), Merge(Intervals(cidrs, V6)))
  }

  // The prefixes that parse; the others are rejected one by one.
  function Parsed(texts: seq<string>, min: Family -> nat): seq<Cidr> {
    if texts == [] then []
    else
      match ParseCidrWith(texts[0], min)
      case None => Parsed(texts[1..], min)
      case Some(c) => [c] + Parsed(texts[1..], min)
  }

  function FromStrings(texts: seq<string>): RangeSet { FromCidrs(Parsed(texts, MinPrefix)) }

  predicate Ordered(cidrs: seq<Cidr>) { forall k :: 0 <= k < |cidrs| ==> cidrs[k].first <= cidrs[k].last }

  predicate AnyContains(cidrs: seq<Cidr>, ip: ParsedIp) {
    exists k :: 0 <= k < |cidrs| && Contains(cidrs[k], ip)
  }

  lemma AnyCons(cidrs: seq<Cidr>, ip: ParsedIp)
    requires cidrs != []
    ensures AnyContains(cidrs, ip) <==> Contains(cidrs[0], ip) || AnyContains(cidrs[1..], ip)
  {
    if AnyContains(cidrs, ip) {
      var k :| 0 <= k < |cidrs| && Contains(cidrs[k], ip);
      assert k > 0 ==> Contains(cidrs[1..][k - 1], ip);
    }
    if AnyContains(cidrs[1..], ip) {
      var k :| 0 <= k < |cidrs[1..]| && Contains(cidrs[1..][k], ip);
      assert Contains(cidrs[k + 1], ip);
    }
  }

  lemma {:induction false} IntervalsCover(cidrs: seq<Cidr>, family: Family, v: nat)
    requires Ordered(cidrs)
    ensures Proper(Intervals(cidrs, family))
    ensures Covers(Intervals(cidrs, family), v) <==> AnyContains(cidrs, ParsedIp(family, v))
  {
    if cidrs != [] {
      IntervalsCover(cidrs[1..], family, v);
      AnyCons(cidrs, ParsedIp(family, v));
      if cidrs[0].family == family {
        var list := Intervals(cidrs, family);
        assert list[1..] == Intervals(cidrs[1..], family);
        CoversCons(list, v);
      }
    }
  }

  // Membership is membership of one of the prefixes it was built from.
  lemma HasIsContained(cidrs: seq<Cidr>, ip: ParsedIp)
    requires Ordered(cidrs)
    ensures FromCidrs(cidrs).Has(ip) <==> AnyContains(cidrs, ip)
  {
    var list := Intervals(cidrs, ip.family);
    IntervalsCover(cidrs, ip.family, ip.value);
    MergeIsFaithful(list, ip.value);
    FoundIsCovers(Merge(list), ip.value, 0, |Merge(list)| - 1);
  }

  lemma {:induction false} ParsedMembers(texts: seq<string>, min: Family -> nat, c: Cidr)
    ensures Ordered(Parsed(texts, min))
    ensures c in Parsed(texts, min) <==> exists t :: t in texts && ParseCidrWith(t, min) == Some(c)
  {
    if texts != [] {
      ParsedMembers(texts[1..], min, c);
      if ParseCidrWith(texts[0], min).Some? { CidrIsOrdered(texts[0], min); }
      assert forall t :: t in texts <==> t == texts[0] || t in texts[1..];
    }
  }

  predicate Names(text: string, ip: ParsedIp) {
    ParseCidr(text).Some? && Contains(ParseCidr(text).value, ip)
  }

  // An address is in the set exactly when some text of the list is a prefix that contains it.
  lemma HasIsListed(texts: seq<string>, ip: ParsedIp)
    ensures FromStrings(texts).Has(ip) <==> exists t :: t in texts && Names(t, ip)
  {
    hide ParseCidrWith, Intervals, Merge, Contains;
    var cidrs := Parsed(texts, MinPrefix);
    ParsedMembers(texts, MinPrefix, Cidr(V4, 0, 0));
    HasIsContained(cidrs, ip);
    if AnyContains(cidrs, ip) {
      var k :| 0 <= k < |cidrs| && Contains(cidrs[k], ip);
      ParsedMembers(texts, MinPrefix, cidrs[k]);
      var t :| t in texts && ParseCidrWith(t, MinPrefix) == Some(cidrs[k]);
      assert Names(t, ip);
    }
    if t :| t in texts && Names(t, ip) {
      ParsedMembers(texts, MinPrefix, ParseCidr(t).value);
      assert ParseCidr(t).value in cidrs;
    }
  }
}
