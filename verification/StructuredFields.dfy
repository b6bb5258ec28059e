// The subset of structured fields the Web Bot Auth headers use (RFC 8941, sections 3 and 4.2), as a
// specification on the text still to be read and as the hand-written cursor that reads it.
module StructuredFields {
  import opened Wrappers
  import opened Text

  // What was read, and how many characters it took.
  datatype Parsed<T> = Parsed(value: T, used: nat)

  datatype BareItem = Str(text: string) | Num(value: int) | Flag(on: bool)

  // How many leading characters satisfy p.
  function Span(s: string, p: char -> bool): (n: nat)
    ensures n <= |s| && (n < |s| ==> !p(s[n]))
    ensures forall k :: 0 <= k < n ==> p(s[k])
  {
    if s != "" && p(s[0]) then 1 + Span(s[1..], p) else 0
  }

  predicate IsSp(c: char) { c == ' ' || c == '\t' }

  predicate KeyStart(c: char) { IsLower(c) || c == '*' }

  predicate KeyChar(c: char) { IsLower(c) || IsDigit(c) || c == '_' || c == '-' || c == '.' || c == '*' }

  predicate TokenStart(c: char) { IsLower(c) || IsUpper(c) || c == '*' }

  predicate TokenChar(c: char) { IsLower(c) || IsUpper(c) || IsDigit(c) || c in "!#$%&'*+-.^_`|~:/" }

  function ParseKey(s: string): (r: Option<Parsed<string>>)
    ensures r.Some? ==> 0 < r.value.used <= |s|
  {
    if s == "" || !KeyStart(s[0]) then None
    else
      var n := 1 + Span(s[1..], KeyChar);
      Some(Parsed(s[..n], n))
  }

  function Prepend<T>(first: seq<T>, used: nat, rest: Option<Parsed<seq<T>>>): Option<Parsed<seq<T>>> {
    if rest.None? then None else Some(Parsed(first + rest.value.value, used + rest.value.used))
  }

  // The inside of a string, up to and with its closing quote.
  function QuotedBody(s: string): (r: Option<Parsed<string>>)
    ensures r.Some? ==> 0 < r.value.used <= |s| && |r.value.value| < r.value.used
  {
    if s == "" then None
    else if s[0] == '"' then Some(Parsed("", 1))
    else if s[0] == '\\' then
      if |s| < 2 || (s[1] != '"' && s[1] != '\\') then None
      else Prepend([s[1]], 2, QuotedBody(s[2..]))
    else Prepend([s[0]], 1, QuotedBody(s[1..]))
  }

  function ParseQuotedString(s: string): (r: Option<Parsed<string>>)
    ensures r.Some? ==> 0 < r.value.used <= |s|
  {
    if s == "" || s[0] != '"' then None
    else
      var body := QuotedBody(s[1..]);
      if body.None? then None else Some(Parsed(body.value.value, 1 + body.value.used))
  }

  // Number(text) for an optional minus and at least one digit.
  function IntegerValue(text: string): int {
    if text != "" && text[0] == '-' then 0 - DigitsValue(text[1..]) else DigitsValue(text)
  }

  function DigitsValue(text: string): nat {
    if !AllDigits(text) then 0
    else
      DecimalDigits(text);
      Value(text, 10)
  }

  function ParseInteger(s: string): (r: Option<Parsed<BareItem>>)
    ensures r.Some? ==> 0 < r.value.used <= |s|
  {
    var sign := if s != "" && s[0] == '-' then 1 else 0;
    var n := Span(s[sign..], IsDigit);
    if n == 0 then None else Some(Parsed(Num(IntegerValue(s[..sign + n])), sign + n))
  }

  function ParseBareItem(s: string): (r: Option<Parsed<BareItem>>)
    ensures r.Some? ==> 0 < r.value.used <= |s|
  {
    if s == "" then None
    else if s[0] == '"' then
      var q := ParseQuotedString(s);
      if q.None? then None else Some(Parsed(Str(q.value.value), q.value.used))
    else if s[0] == '?' then
      if |s| < 2 || (s[1] != '0' && s[1] != '1') then None else Some(Parsed(Flag(s[1] == '1'), 2))
    else if s[0] == '-' || IsDigit(s[0]) then ParseInteger(s)
    else if TokenStart(s[0]) then
      var n := 1 + Span(s[1..], TokenChar);
      Some(Parsed(Str(s[..n]), n))
    else None
  }

  function Shift<T>(used: nat, rest: Option<Parsed<T>>): Option<Parsed<T>> {
    if rest.None? then None else Some(Parsed(rest.value.value, used + rest.value.used))
  }

  // `=item` after a key; a key alone is true.
  function ParseValue(s: string): (r: Option<Parsed<BareItem>>)
    ensures r.Some? ==> r.value.used <= |s|
  {
    if s != "" && s[0] == '=' then Shift(1, ParseBareItem(s[1..])) else Some(Parsed(Flag(true), 0))
  }

  // One `;key` or `;key=item`.
  function ParseParam(s: string): (r: Option<Parsed<(string, BareItem)>>)
    ensures r.Some? ==> 0 < r.value.used <= |s|
  {
    if s == "" || s[0] != ';' then None
    else
      var sp := 1 + Span(s[1..], IsSp);
      var key := ParseKey(s[sp..]);
      if key.None? then None
      else
        var k := sp + key.value.used;
        var v := ParseValue(s[k..]);
        if v.None? then None else Some(Parsed((key.value.value, v.value.value), k + v.value.used))
  }

  // Parameters: the last value given for a key stands.
  function ParseParams(s: string, out: map<string, BareItem>): (r: Option<Parsed<map<string, BareItem>>>)
    ensures r.Some? ==> r.value.used <= |s|
    decreases |s|
  {
    if s == "" || s[0] != ';' then Some(Parsed(out, 0))
    else
      var p := ParseParam(s);
      if p.None? then None
      else Shift(p.value.used, ParseParams(s[p.value.used..], out[p.value.value.0 := p.value.value.1]))
  }

  // ---------- the cursor ----------

  class Cursor {
    const s: string
    var i: nat

    ghost predicate Valid()
      reads this
    {
      i <= |s|
    }

    constructor (s: string)
      ensures Valid() && this.s == s && i == 0
    {
      this.s, i := s, 0;
    }

    ghost function Rest(): string
      reads this
      requires Valid()
    {
      s[i..]
    }

    predicate At(c: char)
      reads this
    {
      i < |s| && s[i] == c
    }

    method SkipSp()
      requires Valid()
      modifies this
      ensures Valid() && i == old(i) + Span(old(Rest()), IsSp)
    {
      Run(IsSp);
    }

    method Run(p: char -> bool)
      requires Valid()
      modifies this
      ensures Valid() && i == old(i) + Span(old(Rest()), p)
    {
      while i < |s| && p(s[i])
        invariant Valid() && old(i) <= i
        invariant i + Span(s[i..], p) == old(i) + Span(old(Rest()), p)
      {
        assert s[i..][1..] == s[i + 1..];
        i := i + 1;
      }
    }

    method ReadKey() returns (r: Option<string>)
      requires Valid()
      modifies this
      ensures Valid()
      ensures var p := ParseKey(old(Rest()));
              r.Some? == p.Some? && (p.Some? ==> r.value == p.value.value && i == old(i) + p.value.used)
    {
      var start := i;
      if !(i < |s| && KeyStart(s[i])) { return None; }
      i := i + 1;
      assert s[start..][1..] == s[i..];
      Run(KeyChar);
      assert s[start..i] == s[start..][..i - start];
      return Some(s[start..i]);
    }

    method ReadQuotedString() returns (r: Option<string>)
      requires Valid()
      modifies this
      ensures Valid()
      ensures var p := ParseQuotedString(old(Rest()));
              r.Some? == p.Some? && (p.Some? ==> r.value == p.value.value && i == old(i) + p.value.used)
    {
      hide QuotedBody, Prepend;
      ghost var start := i;
      if !At('"') { return None; }
      i := i + 1;
      var out := "";
      assert s[start..][1..] == s[start + 1..];
      PrependEnds("", 0, QuotedBody(s[start + 1..]));
      while i < |s|
        invariant start + 1 <= i <= |s|
        invariant QuotedBody(s[start + 1..]) == Prepend(out, i - start - 1, QuotedBody(s[i..]))
        decreases |s| - i
      {
        QuotedUnfolds(s, i);
        PrependEnds(out, i - start - 1, QuotedBody(s[i..]));
        var ch := s[i];
        if ch == '"' {
          i := i + 1;
          return Some(out);
        }
        if ch == '\\' {
          i := i + 1;
          if !At('"') && !At('\\') { return None; }
          var esc := s[i];
          PrependTwice(out, i - start - 2, [esc], 2, QuotedBody(s[i + 1..]));
          out := out + [esc];
          i := i + 1;
          continue;
        }
        PrependTwice(out, i - start - 1, [ch], 1, QuotedBody(s[i + 1..]));
        out := out + [ch];
        i := i + 1;
      }
      QuotedUnfolds(s, i);
      PrependEnds(out, i - start - 1, QuotedBody(s[i..]));
      return None;
    }

    method ReadBareItem() returns (r: Option<BareItem>)
      requires Valid()
      modifies this
      ensures Valid()
      ensures var p := ParseBareItem(old(Rest()));
              r.Some? == p.Some? && (p.Some? ==> r.value == p.value.value && i == old(i) + p.value.used)
    {
      hide Span, QuotedBody, ParseInteger, ParseQuotedString, TokenChar;
      var start := i;
      if At('"') {
        var q := ReadQuotedString();
        if q.None? { return None; }
        return Some(Str(q.value));
      }
      if At('?') {
        i := i + 1;
        if !At('0') && !At('1') { return None; }
        var on := At('1');
        i := i + 1;
        return Some(Flag(on));
      }
      if At('-') || (i < |s| && IsDigit(s[i])) {
        var n := ReadInteger();
        return n;
      }
      if i < |s| && TokenStart(s[i]) {
        i := i + 1;
        assert s[start..][1..] == s[i..];
        Run(TokenChar);
        assert s[start..i] == s[start..][..i - start];
        return Some(Str(s[start..i]));
      }
      return None;
    }

    method ReadInteger() returns (r: Option<BareItem>)
      requires Valid()
      modifies this
      ensures Valid()
      ensures var p := ParseInteger(old(Rest()));
              r.Some? == p.Some? && (p.Some? ==> r.value == p.value.value && i == old(i) + p.value.used)
    {
      hide Span, IntegerValue, ParseInteger, IsDigit;
      var start := i;
      IntegerAt(s, start);
      if At('-') { i := i + 1; }
      Run(IsDigit);
      if i == start || !IsDigit(s[i - 1]) { return None; }
      return Some(Num(IntegerValue(s[start..i])));
    }

    method ReadValue() returns (r: Option<BareItem>)
      requires Valid()
      modifies this
      ensures Valid()
      ensures var p := ParseValue(old(Rest()));
              r.Some? == p.Some? && (p.Some? ==> r.value == p.value.value && i == old(i) + p.value.used)
    {
      hide ParseBareItem;
      if !At('=') { return Some(Flag(true)); }
      assert s[i..][1..] == s[i + 1..];
      i := i + 1;
      r := ReadBareItem();
    }

    method ReadParam() returns (r: Option<(string, BareItem)>)
      requires Valid() && At(';')
      modifies this
      ensures Valid()
      ensures var p := ParseParam(old(Rest()));
              r.Some? == p.Some? && (p.Some? ==> r.value == p.value.value && i == old(i) + p.value.used)
    {
      hide Span, ParseKey, ParseValue;
      ghost var start, rest := i, s[i..];
      i := i + 1;
      assert rest[1..] == s[i..];
      SkipSp();
      assert rest[i - start..] == s[i..];
      var key := ReadKey();
      if key.None? { return None; }
      assert rest[i - start..] == s[i..];
      var v := ReadValue();
      if v.None? { return None; }
      return Some((key.value, v.value));
    }

    method ReadParams() returns (r: Option<map<string, BareItem>>)
      requires Valid()
      modifies this
      ensures Valid()
      ensures var p := ParseParams(old(Rest()), map[]);
              r.Some? == p.Some? && (p.Some? ==> r.value == p.value.value && i == old(i) + p.value.used)
    {
      hide ParseParam, ParseParams, Shift;
      var out: map<string, BareItem> := map[];
      ShiftNone(ParseParams(Rest(), out));
      while At(';')
        invariant Valid() && old(i) <= i
        invariant ParseParams(old(Rest()), map[]) == Shift(i - old(i), ParseParams(s[i..], out))
        decreases |s| - i
      {
        ghost var before, known := i, out;
        ParamsStep(s[i..], out);
        var p := ReadParam();
        if p.None? {
          ShiftOf(before - old(i), ParseParams(s[before..], known));
          return None;
        }
        assert s[before..][i - before..] == s[i..];
        out := out[p.value.0 := p.value.1];
        ShiftTwice(before - old(i), i - before, ParseParams(s[i..], out));
      }
      ParamsEnd(s[i..], out);
      ShiftOf(i - old(i), ParseParams(s[i..], out));
      return Some(out);
    }
  }

  lemma ShiftOf<T>(used: nat, rest: Option<Parsed<T>>)
    ensures Shift(used, rest).Some? <==> rest.Some?
    ensures rest.Some? ==> Shift(used, rest).value == Parsed(rest.value.value, used + rest.value.used)
  {
  }

  lemma ShiftNone<T>(rest: Option<Parsed<T>>)
    ensures Shift(0, rest) == rest
  {
  }

  lemma ShiftTwice<T>(a: nat, b: nat, rest: Option<Parsed<T>>)
    ensures Shift(a, Shift(b, rest)) == Shift(a + b, rest)
  {
  }

  lemma ParamsStep(s: string, out: map<string, BareItem>)
    requires s != "" && s[0] == ';'
    ensures var p := ParseParam(s);
      ParseParams(s, out)
        == if p.None? then None
           else Shift(p.value.used, ParseParams(s[p.value.used..], out[p.value.value.0 := p.value.value.1]))
  {
    hide ParseParam;
  }

  lemma ParamsEnd(s: string, out: map<string, BareItem>)
    requires s == "" || s[0] != ';'
    ensures ParseParams(s, out) == Some(Parsed(out, 0))
  {
  }

  lemma SliceOfRest(s: string, start: nat, a: nat, b: nat)
    requires start <= a <= b <= |s|
    ensures s[start..][a - start..b - start] == s[a..b]
  {
  }

  lemma IntegerAt(s: string, start: nat)
    requires start <= |s|
    ensures var digits := if start < |s| && s[start] == '-' then start + 1 else start;
      var end := digits + Span(s[digits..], IsDigit);
      && ParseInteger(s[start..])
         == (if end == digits then None else Some(Parsed(Num(IntegerValue(s[start..end])), end - start)))
      && (digits < end ==> IsDigit(s[end - 1])) && !IsDigit('-')
  {
    hide IntegerValue;
    var digits := if start < |s| && s[start] == '-' then start + 1 else start;
    var n := Span(s[digits..], IsDigit);
    assert s[start..][digits - start..] == s[digits..];
    assert n > 0 ==> IsDigit(s[digits..][n - 1]);
    assert s[start..][..digits - start + n] == s[start..digits + n];
  }

  lemma QuotedUnfolds(s: string, i: nat)
    requires i <= |s|
    ensures QuotedBody(s[i..])
         == if i == |s| then None
            else if s[i] == '"' then Some(Parsed("", 1))
            else if s[i] == '\\' then
              if i + 1 < |s| && (s[i + 1] == '"' || s[i + 1] == '\\')
              then Prepend([s[i + 1]], 2, QuotedBody(s[i + 2..])) else None
            else Prepend([s[i]], 1, QuotedBody(s[i + 1..]))
  {
    if i < |s| { assert s[i..][1..] == s[i + 1..]; }
    if i + 1 < |s| { assert s[i..][2..] == s[i + 2..]; }
  }

  lemma PrependEnds<T>(out: seq<T>, n: nat, rest: Option<Parsed<seq<T>>>)
    ensures rest.None? ==> Prepend(out, n, rest) == None
    ensures rest.Some? && rest.value.value == [] ==> Prepend(out, n, rest) == Some(Parsed(out, n + rest.value.used))
    ensures out == [] && n == 0 ==> Prepend(out, n, rest) == rest
  {
    if rest.Some? {
      assert out == [] ==> out + rest.value.value == rest.value.value;
      assert rest.value.value == [] ==> out + rest.value.value == out;
    }
  }

  lemma PrependTwice<T>(a: seq<T>, m: nat, b: seq<T>, n: nat, rest: Option<Parsed<seq<T>>>)
    ensures Prepend(a, m, Prepend(b, n, rest)) == Prepend(a + b, m + n, rest)
  {
    if rest.Some? { assert a + (b + rest.value.value) == (a + b) + rest.value.value; }
  }

  // ---------- reading back what was printed ----------

  lemma {:induction false} SpanIs(a: string, b: string, p: char -> bool)
    requires (forall k :: 0 <= k < |a| ==> p(a[k])) && (b == "" || !p(b[0]))
    ensures Span(a + b, p) == |a|
  {
    if a == "" {
      assert a + b == b;
    } else {
      SpanIs(a[1..], b, p);
      assert (a + b)[1..] == a[1..] + b;
    }
  }

  predicate IsKey(key: string) {
    key != "" && KeyStart(key[0]) && forall k :: 0 <= k < |key| ==> KeyChar(key[k])
  }

  lemma KeyReadsBack(key: string, rest: string)
    requires IsKey(key) && (rest == "" || !KeyChar(rest[0]))
    ensures ParseKey(key + rest) == Some(Parsed(key, |key|))
  {
    assert (key + rest)[1..] == key[1..] + rest;
    SpanIs(key[1..], rest, KeyChar);
    assert (key + rest)[..|key|] == key;
  }

  // No quote and no backslash.
  predicate Clean(text: string) { '"' !in text && '\\' !in text }

  lemma {:induction false} BodyReadsBack(text: string, rest: string)
    requires Clean(text)
    ensures QuotedBody(text + ['"'] + rest) == Some(Parsed(text, |text| + 1))
  {
    var s := text + ['"'] + rest;
    if text != "" {
      assert text[0] in text;
      assert forall c :: c in text[1..] ==> c in text;
      assert s[1..] == text[1..] + ['"'] + rest;
      BodyReadsBack(text[1..], rest);
      assert [text[0]] + text[1..] == text;
    }
  }

  function Quoted(text: string): string { ['"'] + text + ['"'] }

  lemma QuotedReadsBack(text: string, rest: string)
    requires Clean(text)
    ensures ParseQuotedString(Quoted(text) + rest) == Some(Parsed(text, |text| + 2))
    ensures ParseBareItem(Quoted(text) + rest) == Some(Parsed(Str(text), |text| + 2))
  {
    BodyReadsBack(text, rest);
    assert (Quoted(text) + rest)[1..] == text + ['"'] + rest;
  }

  lemma {:induction false} BodyIsWhole(text: string)
    ensures QuotedBody(text + ['"']) == Some(Parsed(text, |text| + 1)) ==> Clean(text)
  {
    var s := text + ['"'];
    if text != "" && QuotedBody(s) == Some(Parsed(text, |text| + 1)) {
      if text[0] != '\\' && text[0] != '"' {
        assert s[1..] == text[1..] + ['"'];
        var rest := QuotedBody(s[1..]).value;
        assert ([text[0]] + rest.value)[1..] == rest.value;
        BodyIsWhole(text[1..]);
        assert text == [text[0]] + text[1..];
      }
    }
  }

  // Quoting without escaping is undone by the parser exactly when there is nothing to escape.
  lemma QuotingIsUndoneWhen(text: string)
    ensures ParseQuotedString(Quoted(text)) == Some(Parsed(text, |text| + 2)) <==> Clean(text)
  {
    assert Quoted(text)[1..] == text + ['"'];
    if Clean(text) {
      QuotedReadsBack(text, "");
      assert Quoted(text) + "" == Quoted(text);
    } else if ParseQuotedString(Quoted(text)) == Some(Parsed(text, |text| + 2)) {
      BodyIsWhole(text);
    }
  }

  lemma DigitsReadBack(m: nat, rest: string)
    requires rest == "" || !IsDigit(rest[0])
    ensures var digits := Print(m, 10);
      && digits != "" && AllDigits(digits) && IsDigit(digits[0]) && DigitsValue(digits) == m
      && Span(digits + rest, IsDigit) == |digits|
  {
    hide Print;
    PrintRoundTrip(m, 10);
    DecimalDigits(Print(m, 10));
    SpanIs(Print(m, 10), rest, IsDigit);
  }

  lemma SignedValue(digits: string)
    requires AllDigits(digits) && digits != ""
    ensures IntegerValue(['-'] + digits) == 0 - DigitsValue(digits)
    ensures IntegerValue(digits) == DigitsValue(digits)
  {
    hide DigitsValue;
    assert (['-'] + digits)[1..] == digits;
    assert IsDigit(digits[0]);
  }

  lemma NegativeReadsBack(m: nat, rest: string)
    requires m > 0 && (rest == "" || !IsDigit(rest[0]))
    ensures ParseInteger(Decimal(0 - m) + rest) == Some(Parsed(Num(0 - m), |Decimal(0 - m)|))
  {
    hide Print, Span, DigitsValue, IntegerValue, IsDigit, AllDigits;
    var digits := Print(m, 10);
    var s := ['-'] + (digits + rest);
    DigitsReadBack(m, rest);
    SignedValue(digits);
    assert Decimal(0 - m) == ['-'] + digits;
    assert s == Decimal(0 - m) + rest;
    assert s[1..] == digits + rest;
    assert s[..1 + |digits|] == ['-'] + digits;
  }

  lemma NaturalReadsBack(m: nat, rest: string)
    requires rest == "" || !IsDigit(rest[0])
    ensures ParseInteger(Decimal(m) + rest) == Some(Parsed(Num(m), |Decimal(m)|))
    ensures Decimal(m) != "" && IsDigit(Decimal(m)[0])
  {
    hide Print, Span, DigitsValue;
    var digits, s := Print(m, 10), Decimal(m) + rest;
    DigitsReadBack(m, rest);
    assert s[0..] == digits + rest;
    assert s[..0 + |digits|] == digits;
  }

  lemma IntegerReadsBack(n: int, rest: string)
    requires rest == "" || !IsDigit(rest[0])
    ensures ParseBareItem(Decimal(n) + rest) == Some(Parsed(Num(n), |Decimal(n)|)) && Decimal(n) != ""
  {
    hide Print, Span, ParseInteger, ParseQuotedString, TokenStart, TokenChar;
    if n < 0 { NegativeReadsBack(0 - n, rest); } else { NaturalReadsBack(n, rest); }
  }

  lemma OneParamReadsBack(key: string, item: string, value: BareItem, rest: string)
    requires IsKey(key) && item != "" && ParseBareItem(item + rest) == Some(Parsed(value, |item|))
    ensures var s := [';'] + key + ['='] + item + rest;
            ParseParam(s) == Some(Parsed((key, value), |key| + |item| + 2))
  {
    hide ParseBareItem, ParseKey, Span;
    var s := [';'] + key + ['='] + item + rest;
    var after := ['='] + item + rest;
    assert s[1..] == key + after;
    NoSpaces(key, after);
    assert s[1 + 0..] == key + after;
    KeyReadsBack(key, after);
    assert s[1 + |key|..] == after;
    assert after[1..] == item + rest;
  }

  lemma NoSpaces(key: string, rest: string)
    requires IsKey(key)
    ensures Span(key + rest, IsSp) == 0
  {
  }

  // One printed parameter is read and the reading goes on after it.
  lemma ParamReadsBack(key: string, item: string, value: BareItem, rest: string, out: map<string, BareItem>)
    requires IsKey(key) && item != "" && ParseBareItem(item + rest) == Some(Parsed(value, |item|))
    ensures ParseParams([';'] + key + ['='] + item + rest, out)
         == Shift(|key| + |item| + 2, ParseParams(rest, out[key := value]))
  {
    hide ParseBareItem, ParseParam, Shift;
    var s := [';'] + key + ['='] + item + rest;
    OneParamReadsBack(key, item, value, rest);
    assert s[|key| + |item| + 2..] == rest;
  }
}
