// String pieces shared by the parsers and printers: character classes, order, trimming, joining.
module Text {
  import opened Sorting

  // The characters a JavaScript regular expression calls \s.
  predicate IsSpace(c: char) {
    || '\t' <= c <= '\r' || c == ' ' || c == '\U{a0}' || c == '\U{1680}' || '\U{2000}' <= c <= '\U{200a}'
    || c == '\U{2028}' || c == '\U{2029}' || c == '\U{202f}' || c == '\U{205f}' || c == '\U{3000}' || c == '\U{feff}'
  }

  // White space and line ends of ECMAScript (ECMA-262, sections 12.2 and 12.3), one by one.
  const SPACES: seq<int> := [
    0x9, 0xa, 0xb, 0xc, 0xd, 0x20, 0xa0, 0x1680, 0x2000, 0x2001, 0x2002, 0x2003, 0x2004, 0x2005, 0x2006, 0x2007,
    0x2008, 0x2009, 0x200a, 0x2028, 0x2029, 0x202f, 0x205f, 0x3000, 0xfeff]

  lemma SpacesAreListed(c: char)
    ensures IsSpace(c) <==> c as int in SPACES
  {
    var k := PlaceInSpaces(c as int);
    if IsSpace(c) { assert SPACES[k] == c as int; }
  }

  function PlaceInSpaces(n: int): (k: nat)
    ensures k < |SPACES|
  {
    if n <= 0xd then (if n >= 9 then n - 9 else 0)
    else if n == 0x20 then 5 else if n == 0xa0 then 6 else if n == 0x1680 then 7
    else if 0x2000 <= n <= 0x200a then n - 0x2000 + 8
    else if n == 0x2028 then 19 else if n == 0x2029 then 20 else if n == 0x202f then 21
    else if n == 0x205f then 22 else if n == 0x3000 then 23 else 24
  }

  predicate IsDigit(c: char) { '0' <= c <= '9' }

  predicate AllDigits(s: string) { forall k :: 0 <= k < |s| ==> IsDigit(s[k]) }

  predicate IsUpper(c: char) { 'A' <= c <= 'Z' }

  predicate IsLower(c: char) { 'a' <= c <= 'z' }

  // Case as the statements below and elsewhere spell it; letters outside ASCII stay.
  function Raised(c: char): char { if 'a' <= c <= 'z' then (c as int - 32) as char else c }

  function Lowered(c: char): char { if 'A' <= c <= 'Z' then (c as int + 32) as char else c }

  // Lower case of the ASCII letters; other characters are left alone.
  function LowerChar(c: char): char {
    if IsUpper(c) then (c as int + 32) as char else c
  }

  function Lower(s: string): string {
    seq(|s|, k requires 0 <= k < |s| => LowerChar(s[k]))
  }

  function UpperChar(c: char): char {
    if IsLower(c) then (c as int - 32) as char else c
  }

  function Upper(s: string): string {
    seq(|s|, k requires 0 <= k < |s| => UpperChar(s[k]))
  }

  // ---------- order ----------

  predicate Less(a: string, b: string) {
    if b == [] then false
    else if a == [] then true
    else if a[0] != b[0] then a[0] < b[0]
    else Less(a[1..], b[1..])
  }

  predicate AtMost(a: string, b: string) { !Less(b, a) }

  lemma {:induction false} LessTotal(a: string, b: string)
    ensures Less(a, b) || Less(b, a) || a == b
    ensures !(Less(a, b) && Less(b, a))
    ensures !Less(a, a)
  {
    if a != [] {
      LessTotal(a[1..], if b == [] then a[1..] else b[1..]);
      if b != [] { assert a == [a[0]] + a[1..] && b == [b[0]] + b[1..]; }
    }
  }

  lemma {:induction false} LessTransitive(a: string, b: string, c: string)
    requires Less(a, b) && Less(b, c)
    ensures Less(a, c)
  {
    if a != [] && a[0] == b[0] == c[0] { LessTransitive(a[1..], b[1..], c[1..]); }
  }

  lemma StringsAreOrdered()
    ensures Order(AtMost)
  {
    forall a, b ensures (AtMost(a, b) || AtMost(b, a)) && (AtMost(a, b) && AtMost(b, a) ==> a == b) {
      LessTotal(a, b);
    }
    forall a, b, c | AtMost(a, b) && AtMost(b, c) ensures AtMost(a, c) {
      LessTotal(a, b);
      LessTotal(b, c);
      if Less(c, a) {
        if a != b { LessTransitive(c, a, b); }
      }
    }
  }

  // ---------- slicing ----------

  function TrimLeft(s: string): string {
    if s != [] && IsSpace(s[0]) then TrimLeft(s[1..]) else s
  }

  function TrimRight(s: string): string {
    if s != [] && IsSpace(s[|s| - 1]) then TrimRight(s[..|s| - 1]) else s
  }

  function Trim(s: string): string { TrimRight(TrimLeft(s)) }

  predicate Trimmed(s: string) {
    s == [] || (!IsSpace(s[0]) && !IsSpace(s[|s| - 1]))
  }

  lemma TrimOfTrimmed(s: string)
    requires Trimmed(s)
    ensures Trim(s) == s
  {
  }

  predicate OnlySpace(s: string) { forall k :: 0 <= k < |s| ==> IsSpace(s[k]) }

  lemma {:induction false} LeftSpaces(lead: string, rest: string)
    requires OnlySpace(lead) && (rest == [] || !IsSpace(rest[0]))
    ensures TrimLeft(lead + rest) == rest
  {
    if lead == [] {
      assert lead + rest == rest;
    } else {
      assert (lead + rest)[1..] == lead[1..] + rest;
      LeftSpaces(lead[1..], rest);
    }
  }

  lemma {:induction false} RightSpaces(front: string, tail: string)
    requires OnlySpace(tail) && (front == [] || !IsSpace(front[|front| - 1]))
    ensures TrimRight(front + tail) == front
  {
    if tail == [] {
      assert front + tail == front;
    } else {
      var n := |tail| - 1;
      assert (front + tail)[..|front + tail| - 1] == front + tail[..n];
      RightSpaces(front, tail[..n]);
    }
  }

  lemma {:induction false} TrimLeftSplits(s: string)
    ensures var n := |s| - |TrimLeft(s)|;
      0 <= n && OnlySpace(s[..n]) && s[n..] == TrimLeft(s) && (TrimLeft(s) == [] || !IsSpace(TrimLeft(s)[0]))
  {
    if s != [] && IsSpace(s[0]) {
      TrimLeftSplits(s[1..]);
      var n := |s| - |TrimLeft(s)|;
      assert s[1..][n - 1..] == s[n..] && s[..n] == [s[0]] + s[1..][..n - 1];
    }
  }

  lemma {:induction false} TrimRightSplits(s: string)
    ensures var n := |TrimRight(s)|;
      n <= |s| && OnlySpace(s[n..]) && s[..n] == TrimRight(s) && (n == 0 || !IsSpace(TrimRight(s)[n - 1]))
  {
    if s != [] && IsSpace(s[|s| - 1]) {
      var less := s[..|s| - 1];
      TrimRightSplits(less);
      var n := |TrimRight(s)|;
      assert less[..n] == s[..n] && s[n..] == less[n..] + [s[|s| - 1]];
    } else {
      assert s[..|s|] == s;
    }
  }

  // `v` with spaces around it.
  predicate Padded(s: string, lead: string, v: string, tail: string) {
    OnlySpace(lead) && OnlySpace(tail) && s == lead + (v + tail) && Trimmed(v)
  }

  lemma PaddedTrims(s: string, lead: string, v: string, tail: string)
    requires Padded(s, lead, v, tail)
    ensures Trim(s) == v
  {
    hide TrimLeft, TrimRight;
    if v == "" {
      LeftSpaces(lead + tail, "");
      RightSpaces("", "");
      assert s == (lead + tail) + "" && "" + "" == "";
    } else {
      LeftSpaces(lead, v + tail);
      RightSpaces(v, tail);
    }
  }

  lemma TrimPads(s: string)
    ensures exists lead: string, tail: string :: Padded(s, lead, Trim(s), tail)
  {
    hide TrimLeft, TrimRight, OnlySpace;
    var a := TrimLeft(s);
    TrimLeftSplits(s);
    TrimRightSplits(a);
    var v := TrimRight(a);
    var lead, tail := s[..|s| - |a|], a[|v|..];
    assert v != "" ==> v[0] == a[0];
    assert s == lead + (v + tail);
    assert Padded(s, lead, Trim(s), tail);
  }

  // s.indexOf(c), with |s| standing for "absent".
  function IndexOf(s: string, c: char): (k: nat)
    ensures k <= |s|
    ensures k < |s| ==> s[k] == c
    ensures forall j :: 0 <= j < k ==> s[j] != c
  {
    if s == [] || s[0] == c then 0 else 1 + IndexOf(s[1..], c)
  }

  lemma IndexOfIs(s: string, c: char, k: nat)
    requires k < |s| && s[k] == c && forall j :: 0 <= j < k ==> s[j] != c
    ensures IndexOf(s, c) == k
  {
  }

  // s.split(c) for a one-character separator.
  function Split(s: string, c: char): (parts: seq<string>)
    ensures |parts| > 0
    decreases |s|
  {
    var k := IndexOf(s, c);
    if k == |s| then [s] else [s[..k]] + Split(s[k + 1..], c)
  }

  function Join(parts: seq<string>, separator: string): string {
    if |parts| == 0 then ""
    else if |parts| == 1 then parts[0]
    else parts[0] + separator + Join(parts[1..], separator)
  }

  lemma SplitHead(head: string, c: char, rest: string)
    requires c !in head
    ensures Split(head + [c] + rest, c) == [head] + Split(rest, c)
    ensures Split(head, c) == [head]
  {
    var s := head + [c] + rest;
    IndexOfIs(s, c, |head|);
    assert s[..|head|] == head && s[|head| + 1..] == rest;
  }

  // A key built as left + separator + right splits one way when the separator is not in `right`.
  lemma KeyIsInjective(a: string, b: string, a': string, b': string, sep: char)
    requires sep !in b && sep !in b'
    requires a + [sep] + b == a' + [sep] + b'
    ensures a == a' && b == b'
  {
    var k := a + [sep] + b;
    assert k[|a|] == sep && k[|a'|] == sep;
    assert forall j :: |a| < j < |k| ==> k[j] == b[j - |a| - 1];
    assert forall j :: |a'| < j < |k| ==> k[j] == b'[j - |a'| - 1];
    assert |a| == |a'|;
    assert a == k[..|a|] && a' == k[..|a'|];
    assert b == k[|a| + 1..] && b' == k[|a'| + 1..];
  }

  // ---------- numbers ----------

  function DigitChar(d: nat): char
    requires d < 16
  {
    if d < 10 then ('0' as int + d) as char else ('a' as int + d - 10) as char
  }

  predicate IsHexDigit(c: char) { IsDigit(c) || 'a' <= c <= 'f' || 'A' <= c <= 'F' }

  function DigitValue(c: char): (d: nat)
    requires IsHexDigit(c)
    ensures d < 16 && (IsDigit(c) ==> d < 10)
  {
    if IsDigit(c) then c as int - '0' as int
    else if 'a' <= c then c as int - 'a' as int + 10
    else c as int - 'A' as int + 10
  }

  lemma DigitRoundTrip(d: nat)
    requires d < 16
    ensures IsHexDigit(DigitChar(d)) && DigitValue(DigitChar(d)) == d
    ensures d < 10 ==> IsDigit(DigitChar(d))
  {
  }

  function MulAdd(v: nat, base: nat, d: nat): nat { v * base + d }

  function Quotient(n: nat, base: nat): (q: nat)
    requires 2 <= base <= 16
    ensures n > 0 ==> q < n
  {
    n / base
  }

  function Remainder(n: nat, base: nat): (r: nat)
    requires 2 <= base <= 16
    ensures r < base && MulAdd(Quotient(n, base), base, r) == n
  {
    n % base
  }

  // n.toString(base) for base 10 or 16.
  function Print(n: nat, base: nat): string
    requires 2 <= base <= 16
    decreases n
  {
    if n < base then [DigitChar(n)] else Print(Quotient(n, base), base) + [DigitChar(Remainder(n, base))]
  }

  predicate IsNumeral(s: string, base: nat) {
    forall k :: 0 <= k < |s| ==> IsHexDigit(s[k]) && DigitValue(s[k]) < base
  }

  // The value of a digit string; 0 for the empty one.
  function Value(s: string, base: nat): nat
    requires IsNumeral(s, base)
  {
    if s == [] then 0 else MulAdd(Value(s[..|s| - 1], base), base, DigitValue(s[|s| - 1]))
  }

  lemma AppendDigit(s: string, base: nat, d: nat)
    requires 2 <= base <= 16 && d < base && IsNumeral(s, base)
    ensures IsNumeral(s + [DigitChar(d)], base)
    ensures Value(s + [DigitChar(d)], base) == MulAdd(Value(s, base), base, d)
  {
    DigitRoundTrip(d);
    assert (s + [DigitChar(d)])[..|s|] == s;
  }

  lemma {:induction false} PrintRoundTrip(n: nat, base: nat)
    requires 2 <= base <= 16
    ensures |Print(n, base)| > 0 && IsNumeral(Print(n, base), base)
    ensures Value(Print(n, base), base) == n
    ensures n > 0 ==> Print(n, base)[0] != '0'
    decreases n
  {
    if n < base {
      AppendDigit("", base, n);
      assert "" + [DigitChar(n)] == Print(n, base);
    } else {
      var q := Quotient(n, base);
      assert q > 0 by { QuotientPositive(n, base); }
      PrintRoundTrip(q, base);
      AppendDigit(Print(q, base), base, Remainder(n, base));
    }
  }

  lemma QuotientPositive(n: nat, base: nat)
    requires 2 <= base <= 16 && base <= n
    ensures Quotient(n, base) > 0
  {
  }

  // String(n) of an integer.
  function Decimal(n: int): string { if n < 0 then "-" + Print(-n, 10) else Print(n, 10) }

  lemma DecimalDigits(s: string)
    ensures AllDigits(s) <==> IsNumeral(s, 10)
  {
  }

  predicate Digits(s: string) { forall k :: 0 <= k < |s| ==> '0' <= s[k] <= '9' }

  // The number a run of digits stands for.
  function Number(s: string): nat
    requires Digits(s)
  {
    if s == [] then 0 else Number(s[..|s| - 1]) * 10 + (s[|s| - 1] as int - '0' as int)
  }

  lemma {:induction false} NumberIsValue(s: string)
    requires Digits(s)
    ensures IsNumeral(s, 10) && Value(s, 10) == Number(s)
  {
    DecimalDigits(s);
    if s != [] { NumberIsValue(s[..|s| - 1]); }
  }

  function Power(base: nat, e: nat): nat {
    if e == 0 then 1 else base * Power(base, e - 1)
  }

  lemma {:induction false} PrintLength(n: nat, base: nat, digits: nat)
    requires 2 <= base <= 16 && digits > 0 && n < Power(base, digits)
    ensures |Print(n, base)| <= digits
    decreases digits
  {
    if n >= base {
      DivideBelow(n, base, Power(base, digits - 1));
      PrintLength(Quotient(n, base), base, digits - 1);
    }
  }

  lemma DivideBelow(n: nat, base: nat, bound: nat)
    requires 2 <= base <= 16 && n < base * bound
    ensures Quotient(n, base) < bound
  {
    MulMonotone(bound, Quotient(n, base), base);
  }

  lemma MulMonotone(a: nat, b: nat, base: nat)
    ensures a <= b ==> base * a <= base * b
  {
  }

  lemma {:induction false} ValueBound(s: string, base: nat)
    requires 0 < base && IsNumeral(s, base)
    ensures Value(s, base) < Power(base, |s|)
  {
    if s != [] {
      ValueBound(s[..|s| - 1], base);
      MulStep(Value(s[..|s| - 1], base), Power(base, |s| - 1), base, DigitValue(s[|s| - 1]));
    }
  }

  lemma MulStep(v: nat, bound: nat, base: nat, d: nat)
    requires v < bound && d < base
    ensures MulAdd(v, base, d) < base * bound
  {
    MulMonotone(v + 1, bound, base);
  }
}
