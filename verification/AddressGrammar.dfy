// The addresses a request may show, spelled out: an address with a zone, in brackets, and a caller's
// address as a header carries it, in quotes or with a port.
module AddressGrammar {
  import opened Wrappers
  import opened Text
  import opened IpAddress
  import opened IpSpelling
  import opened IpGrammar
  import opened RangeSets
  import opened Identity

  // ---------- one address ----------

  ghost predicate SpellsV4(s: string, v: nat) {
    exists a: string, b: string, c: string, d: string :: QuadSpells(a, b, c, d, s, v)
  }

  // Groups, then a dotted address in place of the last two.
  predicate Tailed(front: string, quad: string, s: string, high: nat, low: nat, v: nat) {
    s == front + ([':'] + quad) && v / TWO32 == high / TWO32 && v % TWO32 == low
  }

  ghost predicate SpellsTailed(s: string, v: nat) {
    exists front: string, quad: string, high: nat, low: nat ::
      SpellsV4(quad, low) && SpellsV6(front + ":0:0", high) && Tailed(front, quad, s, high, low, v)
  }

  ghost predicate SpellsLong(s: string, v: nat) { SpellsV6(s, v) || SpellsTailed(s, v) }

  predicate Zoned(t: string, body: string, zone: string) { t == body || t == body + (['%'] + zone) }

  ghost predicate SpellsZoned(t: string, v: nat) {
    exists body: string, zone: string :: Zoned(t, body, zone) && SpellsLong(body, v)
  }

  ghost predicate SpellsRaw(t: string, raw: ParsedIp) {
    if raw.family.V4? then SpellsV4(t, raw.value) else SpellsZoned(t, raw.value)
  }

  // An IPv6 text of an IPv4-mapped value names the IPv4 address.
  function Named(raw: ParsedIp): ParsedIp {
    if raw.family.V6? && raw.value / TWO32 == 0xffff then ParsedIp(V4, raw.value % TWO32) else raw
  }

  ghost predicate SpellsIp(t: string, ip: ParsedIp) {
    exists raw :: SpellsRaw(t, raw) && ip == Named(raw)
  }

  // ---------- the characters of an address ----------

  lemma QuadChars(s: string, v: nat)
    requires SpellsV4(s, v)
    ensures v < TWO32 && s != "" && '.' in s && forall x :: x in s ==> x == '.' || '0' <= x <= '9'
  {
    hide Number;
    var a: string, b: string, c: string, d: string :| QuadSpells(a, b, c, d, s, v);
    assert s[|a|] == '.';
  }

  predicate GroupChar(x: char) { x == ':' || HexDigit(x) }

  lemma {:induction false} ColonsChars(groups: seq<string>)
    requires GroupSpellings(groups)
    ensures forall x :: x in Colons(groups) ==> GroupChar(x)
    ensures |groups| > 1 ==> ':' in Colons(groups)
  {
    if |groups| > 1 {
      ColonsChars(groups[1..]);
      ColonsCons(groups);
      assert forall x :: x in groups[0] ==> HexDigit(x);
    }
  }

  lemma V6Chars(s: string, v: nat)
    requires SpellsV6(s, v)
    ensures ':' in s && forall x :: x in s ==> GroupChar(x)
  {
    hide Colons, GroupsNumber, Spread, GroupSpellings;
    if groups: seq<string> :| GroupSpellings(groups) && |groups| == 8 && s == Colons(groups) {
      ColonsChars(groups);
    } else {
      var head: seq<string>, rest: seq<string> :|
        GroupSpellings(head) && GroupSpellings(rest) && s == Colons(head) + "::" + Colons(rest);
      ColonsChars(head);
      ColonsChars(rest);
      assert "::"[0] in s;
    }
  }

  predicate LongChar(x: char) { GroupChar(x) || x == '.' }

  lemma LongChars(s: string, v: nat)
    requires SpellsLong(s, v)
    ensures ':' in s && forall x :: x in s ==> LongChar(x)
  {
    hide SpellsV6, SpellsV4;
    if SpellsV6(s, v) {
      V6Chars(s, v);
    } else {
      var front: string, quad: string, high: nat, low: nat :|
        SpellsV4(quad, low) && SpellsV6(front + ":0:0", high) && Tailed(front, quad, s, high, low, v);
      QuadChars(quad, low);
      V6Chars(front + ":0:0", high);
      assert forall x :: x in front ==> x in front + ":0:0";
    }
  }

  lemma NotGroupChars()
    ensures !GroupChar('.') && !GroupChar('%') && !GroupChar('[') && !GroupChar('/')
  {
  }

  lemma QuadSpelled(s: string, v: nat)
    ensures ParseV4(s) == Some(v) <==> SpellsV4(s, v)
  {
    hide ParseV4, QuadSpells;
    V4Exactly(s, v);
  }

  // ---------- what is read is what is spelled ----------

  lemma {:induction false} LastColonIs(front: string, quad: string)
    requires ':' !in quad
    ensures LastColon(front + ([':'] + quad)) == |front|
    decreases |quad|
  {
    var s := front + ([':'] + quad);
    if quad == [] {
      assert s[|s| - 1] == ':';
    } else {
      var less := quad[..|quad| - 1];
      LastColonIs(front, less);
      assert s[..|s| - 1] == front + ([':'] + less);
      assert s[|s| - 1] == quad[|quad| - 1];
    }
  }

  lemma ZeroTailIs(front: string, quad: string)
    ensures ZeroTail(front + ([':'] + quad), |front|) == front + ":0:0"
    ensures (front + ([':'] + quad))[|front| + 1..] == quad
  {
    assert (front + ([':'] + quad))[..|front| + 1] == front + [':'];
  }

  lemma WithTailIs(high: nat, low: nat, v: nat)
    requires low < TWO32
    ensures v == WithTail(high, low) <==> v / TWO32 == high / TWO32 && v % TWO32 == low
  {
  }

  // A text without a zone.
  function ParseLong(s: string): Option<nat> {
    if '.' !in s then V6OfGroups(s)
    else
      var k := LastColon(s);
      if k < 0 then None
      else
        match (ParseV4(s[k + 1..]), V6OfGroups(ZeroTail(s, k)))
        case (Some(tail), Some(v)) => Some(WithTail(v, tail))
        case _ => None
  }

  lemma LongIsSpelled(s: string, v: nat)
    requires ParseLong(s) == Some(v)
    ensures SpellsLong(s, v)
  {
    hide ParseV4, V6OfGroups, SpellsV6, SpellsTailed, LastColon, WithTail, ZeroTail;
    if '.' !in s {
      V6Exactly(s, v);
    } else {
      var k := LastColon(s);
      TailIsSpelled(s, k, ParseV4(s[k + 1..]).value, V6OfGroups(ZeroTail(s, k)).value);
    }
  }

  lemma TailIsSpelled(s: string, k: nat, low: nat, high: nat)
    requires k < |s| && s[k] == ':' && ParseV4(s[k + 1..]) == Some(low) && V6OfGroups(ZeroTail(s, k)) == Some(high)
    ensures SpellsTailed(s, WithTail(high, low))
  {
    hide ParseV4, V6OfGroups, SpellsV6, SpellsV4, WithTail, ZeroTail;
    var front, quad := s[..k], s[k + 1..];
    assert s == front + ([':'] + quad);
    ZeroTailIs(front, quad);
    QuadSpelled(quad, low);
    QuadChars(quad, low);
    V6Exactly(front + ":0:0", high);
    WithTailIs(high, low, WithTail(high, low));
    assert Tailed(front, quad, s, high, low, WithTail(high, low));
  }

  lemma SpelledIsLong(s: string, v: nat)
    requires SpellsLong(s, v)
    ensures ParseLong(s) == Some(v)
  {
    hide ParseV4, V6OfGroups, SpellsV6, SpellsV4, LastColon, WithTail, ZeroTail, GroupChar;
    if SpellsV6(s, v) {
      V6Chars(s, v);
      assert !GroupChar('.') by { NotGroupChars(); }
      V6Exactly(s, v);
    } else {
      var front: string, quad: string, high: nat, low: nat :|
        SpellsV4(quad, low) && SpellsV6(front + ":0:0", high) && Tailed(front, quad, s, high, low, v);
      QuadChars(quad, low);
      LastColonIs(front, quad);
      ZeroTailIs(front, quad);
      QuadSpelled(quad, low);
      V6Exactly(front + ":0:0", high);
      WithTailIs(high, low, v);
    }
  }

  lemma ZoneIsCut(t: string, body: string, zone: string)
    requires Zoned(t, body, zone) && '%' !in body
    ensures t[..IndexOf(t, '%')] == body
  {
    if t == body { AbsentIndex(t, '%'); } else { IndexOfIs(t, '%', |body|); }
  }

  lemma ParseV6IsLong(t: string)
    ensures ParseV6(t) == ParseLong(t[..IndexOf(t, '%')])
  {
    hide ParseV4, V6OfGroups, LastColon, WithTail, ZeroTail;
  }

  lemma ZonedIsRead(t: string, body: string, zone: string, v: nat)
    requires Zoned(t, body, zone) && SpellsLong(body, v)
    ensures ParseV6(t) == Some(v) && ':' in t
  {
    hide ParseV6, ParseLong, SpellsLong, GroupChar;
    LongChars(body, v);
    NotGroupChars();
    ZoneIsCut(t, body, zone);
    ParseV6IsLong(t);
    SpelledIsLong(body, v);
    assert forall x :: x in body ==> x in t;
  }

  lemma ReadIsZoned(t: string, v: nat)
    requires ParseV6(t) == Some(v)
    ensures SpellsZoned(t, v)
  {
    hide ParseV6, ParseLong, SpellsLong, IndexOf, Zoned;
    ParseV6IsLong(t);
    LongIsSpelled(t[..IndexOf(t, '%')], v);
    var zone := ZoneOf(t);
  }

  lemma ZoneOf(t: string) returns (zone: string)
    ensures Zoned(t, t[..IndexOf(t, '%')], zone)
  {
    var k := IndexOf(t, '%');
    zone := if k < |t| then t[k + 1..] else "";
    if k < |t| { assert t == t[..k] + (['%'] + zone); }
  }

  // What is left of a text without the spaces around it and without brackets is read as it is spelled.
  lemma RawExactly(s: string, raw: ParsedIp)
    ensures ParseRaw(s) == Some(raw) <==> SpellsRaw(Unbracket(Trim(s)), raw)
  {
    hide ParseV4, ParseV6, SpellsV4, SpellsLong, Unbracket, Trim, Zoned;
    var t := Unbracket(Trim(s));
    if ParseRaw(s) == Some(raw) {
      if ':' in t { ReadIsZoned(t, raw.value); } else { QuadSpelled(t, raw.value); }
    }
    if SpellsRaw(t, raw) {
      if raw.family.V4? {
        QuadSpelled(t, raw.value);
        QuadChars(t, raw.value);
      } else {
        var body: string, zone: string :| Zoned(t, body, zone) && SpellsLong(body, raw.value);
        ZonedIsRead(t, body, zone, raw.value);
      }
    }
  }

  lemma CoreExactly(s: string, ip: ParsedIp)
    ensures ParseIp(s) == Some(ip) <==> SpellsIp(Unbracket(Trim(s)), ip)
  {
    hide ParseRaw, SpellsRaw, Unbracket, Trim;
    if ParseIp(s) == Some(ip) { RawExactly(s, ParseRaw(s).value); }
    if raw :| SpellsRaw(Unbracket(Trim(s)), raw) && ip == Named(raw) { RawExactly(s, raw); }
  }

  // ---------- spaces and brackets ----------

  // With spaces around it, and perhaps in brackets.
  predicate Surrounded(s: string, lead: string, t: string, tail: string) {
    && OnlySpace(lead) && OnlySpace(tail)
    && (s == lead + (t + tail) || s == lead + ((['['] + t + [']']) + tail))
  }

  lemma StartsPlain(t: string, raw: ParsedIp)
    requires SpellsRaw(t, raw)
    ensures t != "" && !IsSpace(t[0]) && t[0] != '[' && t[0] != '"'
  {
    hide SpellsV4, SpellsLong;
    if raw.family.V4? {
      QuadChars(t, raw.value);
      assert t[0] in t;
    } else {
      var body: string, zone: string :| Zoned(t, body, zone) && SpellsLong(body, raw.value);
      LongChars(body, raw.value);
      assert body != "" && t[0] == body[0] && body[0] in body;
    }
  }

  lemma {:induction false} Reaches(x: string, n: nat)
    requires n < |x| && !IsSpace(x[n])
    ensures |TrimRight(x)| > n
  {
    if IsSpace(x[|x| - 1]) { Reaches(x[..|x| - 1], n); }
  }

  // Spaces after an address are at most part of its zone.
  lemma TailTrimmed(t: string, tail: string, raw: ParsedIp)
    requires SpellsRaw(t, raw) && OnlySpace(tail)
    ensures SpellsRaw(TrimRight(t + tail), raw)
  {
    hide SpellsV4, SpellsLong, TrimRight;
    if raw.family.V4? {
      QuadChars(t, raw.value);
      assert t[|t| - 1] in t;
      RightSpaces(t, tail);
    } else {
      var body: string, zone: string :| Zoned(t, body, zone) && SpellsLong(body, raw.value);
      LongChars(body, raw.value);
      assert body != "" && body[|body| - 1] in body;
      var r := TrimRight(t + tail);
      TrimRightSplits(t + tail);
      if t == body {
        RightSpaces(t, tail);
        assert Zoned(r, body, "");
      } else {
        var x := t + tail;
        assert x[|body|] == '%' && !IsSpace('%');
        Reaches(x, |body|);
        assert r == body + (['%'] + x[|body| + 1..|r|]);
        assert Zoned(r, body, x[|body| + 1..|r|]);
      }
    }
  }

  lemma InBrackets(t: string, lead: string, tail: string)
    requires OnlySpace(lead) && OnlySpace(tail)
    ensures Unbracket(Trim(lead + ((['['] + t + [']']) + tail))) == t
  {
    hide TrimLeft, TrimRight;
    var b := ['['] + t + [']'];
    assert !IsSpace('[') && !IsSpace(']');
    LeftSpaces(lead, b + tail);
    RightSpaces(b, tail);
  }

  lemma OutOfBrackets(s: string)
    ensures exists lead: string, tail: string :: Surrounded(s, lead, Unbracket(Trim(s)), tail)
  {
    hide TrimLeft, TrimRight, OnlySpace;
    var a := TrimLeft(s);
    TrimLeftSplits(s);
    TrimRightSplits(a);
    var b := TrimRight(a);
    var lead, tail := s[..|s| - |a|], a[|b|..];
    assert s == lead + (b + tail);
    var t := Unbracket(b);
    if t != b { assert b == ['['] + t + [']']; }
    assert Trim(s) == b;
    assert Surrounded(s, lead, Unbracket(Trim(s)), tail);
  }

  lemma SurroundedIsRead(s: string, lead: string, t: string, tail: string, raw: ParsedIp)
    requires Surrounded(s, lead, t, tail) && SpellsRaw(t, raw)
    ensures ParseRaw(s) == Some(raw)
  {
    hide ParseRaw, SpellsRaw, Unbracket, TrimLeft, TrimRight, OnlySpace;
    RawExactly(s, raw);
    if s == lead + ((['['] + t + [']']) + tail) {
      InBrackets(t, lead, tail);
    } else {
      StartsPlain(t, raw);
      LeftSpaces(lead, t + tail);
      TailTrimmed(t, tail, raw);
      StartsPlain(TrimRight(t + tail), raw);
      NoBracket(Trim(s));
    }
  }

  // A text is read as an address if and only if it spells it, with spaces around it or in brackets.
  lemma IpExactly(s: string, ip: ParsedIp)
    ensures ParseIp(s) == Some(ip)
       <==> exists lead: string, t: string, tail: string :: Surrounded(s, lead, t, tail) && SpellsIp(t, ip)
  {
    hide ParseRaw, SpellsRaw, Unbracket, TrimLeft, TrimRight, OnlySpace, Surrounded;
    CoreExactly(s, ip);
    OutOfBrackets(s);
    if lead: string, t: string, tail: string :| Surrounded(s, lead, t, tail) && SpellsIp(t, ip) {
      var raw :| SpellsRaw(t, raw) && ip == Named(raw);
      SurroundedIsRead(s, lead, t, tail, raw);
    }
  }

  lemma NoBracket(s: string)
    requires s != "" && s[0] != '['
    ensures Unbracket(s) == s
  {
  }

  ghost predicate SpellsAddress(s: string, raw: ParsedIp) {
    exists lead: string, t: string, tail: string :: Surrounded(s, lead, t, tail) && SpellsRaw(t, raw)
  }

  lemma AddressExactly(s: string, raw: ParsedIp)
    ensures ParseRaw(s) == Some(raw) <==> SpellsAddress(s, raw)
  {
    hide ParseRaw, SpellsRaw, Unbracket, TrimLeft, TrimRight, OnlySpace, Surrounded;
    RawExactly(s, raw);
    OutOfBrackets(s);
    if lead: string, t: string, tail: string :| Surrounded(s, lead, t, tail) && SpellsRaw(t, raw) {
      SurroundedIsRead(s, lead, t, tail, raw);
    }
  }

  // ---------- prefixes ----------

  predicate PrefixText(s: string, addr: string, lead: string, digits: string, tail: string) {
    && s == addr + (['/'] + (lead + (digits + tail))) && '/' !in addr
    && OnlySpace(lead) && OnlySpace(tail) && 1 <= |digits| <= 3 && Digits(digits)
  }

  // A prefix on an IPv4-mapped address, 96 bits or longer, is the IPv4 prefix 96 bits shorter.
  function NamedPrefix(raw: ParsedIp, bits: nat): (ParsedIp, nat) {
    if Named(raw) != raw && bits >= 96 then (Named(raw), bits - 96) else (raw, bits)
  }

  // Not too broad, not too long, and the same on its leading bits.
  predicate Within(prefix: (ParsedIp, nat), ip: ParsedIp) {
    var (named, bits) := prefix;
    && (if named.family.V4? then 12 <= bits <= 32 else 28 <= bits <= 128)
    && ip.family == named.family
    && Leading(named.value, BlockSize(named.family, bits)) == Leading(ip.value, BlockSize(named.family, bits))
  }

  lemma LengthReads(text: string, lead: string, digits: string, tail: string)
    requires text == lead + (digits + tail) && OnlySpace(lead) && OnlySpace(tail)
    requires digits != "" && Digits(digits)
    ensures Trim(text) == digits && AllDigits(digits) && IsNumeral(digits, 10) && Value(digits, 10) == Number(digits)
  {
    hide Value, Number;
    NumberIsValue(digits);
    LeftSpaces(lead, digits + tail);
    RightSpaces(digits, tail);
  }

  lemma PrefixReads(s: string, addr: string, lead: string, digits: string, tail: string)
    requires PrefixText(s, addr, lead, digits, tail)
    ensures PrefixOf(s) == match ParseRaw(addr)
                           case None => None
                           case Some(raw) => Some(NamedPrefix(raw, Number(digits)))
  {
    hide ParseRaw, Value, Number, Trim, OnlySpace;
    var rest := lead + (digits + tail);
    IndexOfIs(s, '/', |addr|);
    assert s[..|addr|] == addr && s[|addr| + 1..] == rest;
    LengthReads(rest, lead, digits, tail);
  }

  lemma PrefixIsWritten(s: string) returns (addr: string, lead: string, digits: string, tail: string)
    requires PrefixOf(s).Some?
    ensures PrefixText(s, addr, lead, digits, tail) && ParseRaw(addr).Some?
  {
    hide ParseRaw, Value, TrimLeft, TrimRight, OnlySpace;
    var slash := IndexOf(s, '/');
    var rest := s[slash + 1..];
    addr, digits := s[..slash], Trim(rest);
    TrimPads(rest);
    lead, tail :| Padded(rest, lead, digits, tail);
    assert s == addr + (['/'] + rest);
  }

  ghost predicate SpellsPrefix(s: string, addr: string, lead: string, digits: string, tail: string, raw: ParsedIp,
                               ip: ParsedIp)
  {
    && PrefixText(s, addr, lead, digits, tail) && SpellsAddress(addr, raw)
    && Within(NamedPrefix(raw, Number(digits)), ip)
  }

  // A listed text names an address if and only if it is an address and a length, neither too broad nor too
  // long, and the two agree on that many leading bits.
  lemma PrefixExactly(s: string, ip: ParsedIp)
    ensures Names(s, ip)
       <==> exists addr: string, lead: string, digits: string, tail: string, raw ::
              SpellsPrefix(s, addr, lead, digits, tail, raw, ip)
  {
    hide ParseRaw, PrefixOf, SpellsAddress, Number, Leading, BlockSize, OnlySpace, NamedPrefix;
    if Names(s, ip) {
      var addr, lead, digits, tail := PrefixIsWritten(s);
      PrefixReads(s, addr, lead, digits, tail);
      AddressExactly(addr, ParseRaw(addr).value);
      PrefixIsItsLeadingBits(s, ip);
      assert SpellsPrefix(s, addr, lead, digits, tail, ParseRaw(addr).value, ip);
    }
    if addr: string, lead: string, digits: string, tail: string, raw :|
      SpellsPrefix(s, addr, lead, digits, tail, raw, ip)
    {
      PrefixReads(s, addr, lead, digits, tail);
      AddressExactly(addr, raw);
      PrefixIsItsLeadingBits(s, ip);
    }
  }

  // ---------- a caller's address ----------

  predicate Port(s: string) { 2 <= |s| <= 6 && s[0] == ':' && forall k :: 1 <= k < |s| ==> '0' <= s[k] <= '9' }

  predicate Bracketed(v: string, t: string, port: string) {
    v == ['['] + (t + ([']'] + port)) && ']' !in t && (port == "" || Port(port))
  }

  // An address; one in brackets, perhaps with a port; a dotted one with a port.
  ghost predicate SpellsHost(v: string, ip: ParsedIp) {
    || ParseIp(v) == Some(ip)
    || (exists t: string, port: string :: Bracketed(v, t, port) && ParseIp(t) == Some(ip))
    || (exists quad: string, port: string, n ::
          v == quad + port && Port(port) && SpellsV4(quad, n) && ip == ParsedIp(V4, n))
  }

  lemma PortIs(s: string)
    ensures IsPort(s) <==> Port(s)
  {
    if s != "" {
      assert forall k :: 1 <= k < |s| ==> s[1..][k - 1] == s[k];
      assert forall k :: 0 <= k < |s| - 1 ==> s[1..][k] == s[k + 1];
    }
  }

  lemma QuadIsDotted(quad: string, n: nat)
    requires SpellsV4(quad, n)
    ensures IsDottedQuad(quad) && ParseIp(quad) == Some(ParsedIp(V4, n)) && ':' !in quad && quad[0] != '['
  {
    hide ParseIp, Number, Split, IsDottedQuad;
    QuadChars(quad, n);
    assert quad[0] in quad;
    CoreOfQuad(quad, n);
    var a: string, b: string, c: string, d: string :| QuadSpells(a, b, c, d, quad, n);
    PartsAreDotted(a, b, c, d);
  }

  lemma PartsAreDotted(a: string, b: string, c: string, d: string)
    requires OctetSpelling(a) && OctetSpelling(b) && OctetSpelling(c) && OctetSpelling(d)
    ensures IsDottedQuad(DottedText(a, b, c, d))
  {
    hide Number, Split, DottedText;
    SplitFour(a, b, c, d);
  }

  lemma CoreOfQuad(quad: string, n: nat)
    requires SpellsV4(quad, n)
    ensures ParseIp(quad) == Some(ParsedIp(V4, n))
  {
    hide ParseIp, SpellsV4, OnlySpace;
    NoSpaces();
    assert SpellsRaw(quad, ParsedIp(V4, n)) && Named(ParsedIp(V4, n)) == ParsedIp(V4, n);
    assert SpellsIp(quad, ParsedIp(V4, n));
    assert quad == "" + (quad + "");
    assert Surrounded(quad, "", quad, "");
    IpExactly(quad, ParsedIp(V4, n));
  }

  lemma NoSpaces()
    ensures OnlySpace("")
  {
  }

  lemma DottedChars(q: string, x: char)
    requires IsDottedQuad(q) && x in q
    ensures x == '.' || '0' <= x <= '9'
  {
    hide Split;
    if x != '.' {
      SplitChars(q, '.', x);
    }
  }

  lemma DottedHasDot(q: string)
    requires IsDottedQuad(q)
    ensures '.' in q
  {
    if '.' !in q { AbsentIndex(q, '.'); }
  }

  // The address before a port is spelled as it stands.
  lemma DottedIsQuad(q: string, ip: ParsedIp)
    requires IsDottedQuad(q) && ParseIp(q) == Some(ip)
    ensures ip.family.V4? && SpellsV4(q, ip.value)
  {
    hide ParseIp, IsDottedQuad, SpellsV4, SpellsLong;
    DottedHasDot(q);
    forall x | x in q ensures x == '.' || '0' <= x <= '9' { DottedChars(q, x); }
    assert q[0] in q && q[|q| - 1] in q;
    TrimOfTrimmed(q);
    NoBracket(q);
    CoreExactly(q, ip);
    var raw :| SpellsRaw(q, raw) && ip == Named(raw);
    if raw.family.V6? { ZonedHasColon(q, raw.value); }
  }

  lemma ZonedHasColon(t: string, v: nat)
    requires SpellsZoned(t, v)
    ensures ':' in t && ('%' !in t ==> SpellsLong(t, v))
  {
    hide SpellsLong;
    var body: string, zone: string :| Zoned(t, body, zone) && SpellsLong(body, v);
    LongChars(body, v);
    assert t != body ==> t[|body|] == '%';
  }

  lemma HostIsSpelled(v: string, ip: ParsedIp)
    requires ParseHost(v) == Some(ip)
    ensures SpellsHost(v, ip)
  {
    hide ParseIp, IsDottedQuad, SpellsV4, IsPort, Port, IndexOf;
    var close, colon := IndexOf(v, ']'), IndexOf(v, ':');
    if 2 <= close < |v| && v[0] == '[' && (close + 1 == |v| || IsPort(v[close + 1..])) {
      ClosesThere(v, close);
      assert Bracketed(v, v[1..close], v[close + 1..]);
    } else if colon < |v| && IsDottedQuad(v[..colon]) && IsPort(v[colon..]) {
      var quad, port := v[..colon], v[colon..];
      PortIs(port);
      DottedIsQuad(quad, ip);
      assert v == quad + port;
    }
  }

  lemma InParts(v: string, close: nat)
    requires 1 <= close < |v|
    ensures v == [v[0]] + (v[1..close] + ([v[close]] + v[close + 1..]))
  {
  }

  lemma ClosesThere(v: string, close: nat)
    requires 2 <= close < |v| && close == IndexOf(v, ']') && v[0] == '['
    requires close + 1 == |v| || IsPort(v[close + 1..])
    ensures Bracketed(v, v[1..close], v[close + 1..])
  {
    hide IsPort, Port;
    PortIs(v[close + 1..]);
    InParts(v, close);
    assert ']' !in v[1..close];
  }

  lemma BracketedIsRead(v: string, t: string, port: string)
    requires Bracketed(v, t, port) && t != ""
    ensures ParseHost(v) == ParseIp(t)
  {
    hide ParseIp, IsDottedQuad;
    IndexOfIs(v, ']', |t| + 1);
    assert v[1..|t| + 1] == t && v[|t| + 2..] == port;
    PortIs(port);
  }

  lemma PortedIsRead(v: string, quad: string, port: string, n: nat)
    requires v == quad + port && Port(port) && SpellsV4(quad, n)
    ensures ParseHost(v) == Some(ParsedIp(V4, n))
  {
    hide ParseIp, IsDottedQuad, SpellsV4;
    QuadChars(quad, n);
    QuadIsDotted(quad, n);
    IndexOfIs(v, ':', |quad|);
    assert v[..|quad|] == quad && v[|quad|..] == port;
    PortIs(port);
  }

  lemma NothingIsNoAddress()
    ensures ParseIp("").None?
  {
  }

  // An address in brackets without a port is the same with and without them.
  lemma BareBrackets(t: string, ip: ParsedIp)
    requires ParseIp(['['] + t + [']']) == Some(ip)
    ensures ParseIp(t) == Some(ip)
  {
    hide ParseIp, SpellsIp, Unbracket, TrimLeft, TrimRight, OnlySpace;
    var b := ['['] + t + [']'];
    NoSpaces();
    assert "" + (b + "") == b && "" + (t + "") == t;
    InBrackets(t, "", "");
    CoreExactly(b, ip);
    assert Surrounded(t, "", t, "");
    IpExactly(t, ip);
  }

  // No address has a port of its own.
  lemma NoPort(v: string, quad: string, port: string, ip: ParsedIp)
    requires Trimmed(v) && v == quad + port && IsDottedQuad(quad) && Port(port)
    ensures ParseIp(v) != Some(ip)
  {
    hide ParseIp, IsDottedQuad, SpellsV4, SpellsV6, GroupChar;
    DottedHasDot(quad);
    if ':' in quad { DottedChars(quad, ':'); }
    forall x | x in v ensures x == '.' || x == ':' || '0' <= x <= '9' {
      if x in quad { DottedChars(quad, x); } else { assert x in port; }
    }
    assert v[0] in v && v[|quad|] == ':';
    assert ':' in v && '%' !in v;
    TrimOfTrimmed(v);
    NoBracket(v);
    assert Unbracket(Trim(v)) == v;
    CoreExactly(v, ip);
    if raw :| SpellsRaw(v, raw) && ip == Named(raw) {
      if raw.family.V4? {
        QuadChars(v, raw.value);
      } else {
        ZonedHasColon(v, raw.value);
        NoLongPort(v, quad, port, raw.value);
      }
    }
  }

  lemma OneColonOnly(quad: string, port: string, front: string, tail: string)
    requires quad + port == front + ([':'] + tail) && ':' !in quad && ':' !in tail && Port(port)
    ensures tail == port[1..]
  {
    var v := quad + port;
    assert v[|quad|] == ':' && v[|front|] == ':';
    assert forall k :: 0 <= k < |quad| ==> v[k] == quad[k];
    assert forall k :: |front| < k < |v| ==> v[k] == tail[k - |front| - 1];
    assert tail == v[|front| + 1..] && port[1..] == v[|quad| + 1..];
  }

  lemma NoLongPort(v: string, quad: string, port: string, n: nat)
    requires v == quad + port && '.' in quad && ':' !in quad && Port(port)
    ensures !SpellsLong(v, n)
  {
    hide SpellsV4, SpellsV6, GroupChar;
    NotGroupChars();
    if SpellsV6(v, n) { V6Chars(v, n); }
    if front: string, tail: string, high: nat, low: nat :|
      SpellsV4(tail, low) && SpellsV6(front + ":0:0", high) && Tailed(front, tail, v, high, low, n)
    {
      QuadChars(tail, low);
      OneColonOnly(quad, port, front, tail);
    }
  }

  lemma HostExactly(v: string, ip: ParsedIp)
    requires Trimmed(v)
    ensures ParseHost(v) == Some(ip) <==> SpellsHost(v, ip)
  {
    hide ParseIp, IsDottedQuad, SpellsV4, Port, Trimmed;
    if ParseHost(v) == Some(ip) { HostIsSpelled(v, ip); }
    if t: string, port: string :| Bracketed(v, t, port) && ParseIp(t) == Some(ip) {
      NothingIsNoAddress();
      BracketedIsRead(v, t, port);
    }
    if quad: string, port: string, n :|
      v == quad + port && Port(port) && SpellsV4(quad, n) && ip == ParsedIp(V4, n)
    {
      PortedIsRead(v, quad, port, n);
    }
    if ParseIp(v) == Some(ip) { PlainIsRead(v, ip); }
  }

  lemma PlainIsRead(v: string, ip: ParsedIp)
    requires Trimmed(v) && ParseIp(v) == Some(ip)
    ensures ParseHost(v) == Some(ip)
  {
    hide ParseIp, IsDottedQuad, SpellsRaw;
    var close, colon := IndexOf(v, ']'), IndexOf(v, ':');
    if 2 <= close < |v| && v[0] == '[' && (close + 1 == |v| || IsPort(v[close + 1..])) {
      if close + 1 == |v| {
        assert v == ['['] + v[1..close] + [']'];
        BareBrackets(v[1..close], ip);
      } else {
        PortIs(v[close + 1..]);
        assert v[|v| - 1] == v[close + 1..][|v| - close - 2];
        TrimOfTrimmed(v);
        CoreExactly(v, ip);
        var raw :| SpellsRaw(v, raw) && ip == Named(raw);
        StartsPlain(v, raw);
      }
    } else if colon < |v| && IsDottedQuad(v[..colon]) && IsPort(v[colon..]) {
      PortIs(v[colon..]);
      assert v == v[..colon] + v[colon..];
      NoPort(v, v[..colon], v[colon..], ip);
    }
  }

  // ---------- the header it comes in ----------

  ghost predicate SpellsQuoted(w: string, ip: ParsedIp) {
    exists inner: string, lead: string, v: string, tail: string ::
      w == ['"'] + inner + ['"'] && Padded(inner, lead, v, tail) && SpellsHost(v, ip)
  }

  // A caller's address with spaces around it, and perhaps in quotes.
  ghost predicate SpellsHeader(s: string, ip: ParsedIp) {
    exists lead: string, w: string, tail: string ::
      Padded(s, lead, w, tail) && (SpellsHost(w, ip) || SpellsQuoted(w, ip))
  }

  lemma NoQuotedHost(w: string, ip: ParsedIp)
    requires Trimmed(w) && w != "" && w[0] == '"'
    ensures !SpellsHost(w, ip)
  {
    hide ParseIp, SpellsRaw, SpellsV4;
    TrimOfTrimmed(w);
    NoBracket(w);
    assert Unbracket(Trim(w)) == w;
    CoreExactly(w, ip);
    if raw :| SpellsRaw(w, raw) && ip == Named(raw) { StartsPlain(w, raw); }
    if quad: string, port: string, n :| w == quad + port && Port(port) && SpellsV4(quad, n) {
      QuadStart(quad, port, n);
    }
  }

  lemma QuadStart(quad: string, rest: string, n: nat)
    requires SpellsV4(quad, n)
    ensures quad + rest != "" && (quad + rest)[0] != '"'
  {
    QuadChars(quad, n);
    assert quad[0] in quad && (quad + rest)[0] == quad[0];
  }

  lemma QuotesGo(s: string, w: string, inner: string)
    requires w == Trim(s) && w == ['"'] + inner + ['"']
    ensures WithoutQuotes(s) == Trim(inner)
  {
    assert w[1..|w| - 1] == inner;
  }

  lemma HeaderIsSpelled(s: string, ip: ParsedIp)
    requires ParseClientAddress(s) == Some(ip)
    ensures SpellsHeader(s, ip)
  {
    hide ParseHost, SpellsHost, Trim, OnlySpace, Trimmed;
    var w := Trim(s);
    TrimPads(s);
    var lead: string, tail: string :| Padded(s, lead, w, tail);
    if |w| >= 2 && w[0] == '"' && w[|w| - 1] == '"' {
      var inner := w[1..|w| - 1];
      TrimPads(inner);
      var l: string, t: string :| Padded(inner, l, Trim(inner), t);
      HostExactly(Trim(inner), ip);
      assert w == ['"'] + inner + ['"'];
      assert SpellsQuoted(w, ip);
    } else {
      HostExactly(w, ip);
    }
  }

  // A header shows a caller's address if and only if it spells it.
  lemma CallerExactly(s: string, ip: ParsedIp)
    ensures ParseClientAddress(s) == Some(ip) <==> SpellsHeader(s, ip)
  {
    hide ParseHost, SpellsHost, Trim, OnlySpace, Trimmed;
    if ParseClientAddress(s) == Some(ip) { HeaderIsSpelled(s, ip); }
    if lead: string, w: string, tail: string :|
      Padded(s, lead, w, tail) && (SpellsHost(w, ip) || SpellsQuoted(w, ip))
    {
      PaddedTrims(s, lead, w, tail);
      if SpellsQuoted(w, ip) {
        var inner: string, l: string, v: string, t: string :|
          w == ['"'] + inner + ['"'] && Padded(inner, l, v, t) && SpellsHost(v, ip);
        PaddedTrims(inner, l, v, t);
        QuotesGo(s, w, inner);
        HostExactly(v, ip);
      } else {
        if w != "" && w[0] == '"' { NoQuotedHost(w, ip); }
        HostExactly(w, ip);
      }
    }
  }

  // A request shows a caller's address if and only if it carries a text that spells it.
  lemma ShownExactly(ctx: Context, ip: ParsedIp)
    ensures ClientIp(ctx) == Some(ip) <==> ctx.clientIp.Some? && SpellsHeader(ctx.clientIp.value, ip)
  {
    hide ParseClientAddress, SpellsHeader;
    if ctx.clientIp.Some? {
      CallerExactly(ctx.clientIp.value, ip);
      NothingIsShown();
    }
  }

  lemma NothingIsShown()
    ensures ParseClientAddress("").None?
  {
    NothingIsNoAddress();
  }
}
