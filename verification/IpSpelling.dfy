// Spellings of addresses: an IPv4-mapped text names the IPv4 prefix, and a truncated address parses
// back to the block the address sits in.
module IpSpelling {
  import opened Wrappers
  import opened Text
  import opened IpAddress

  const TWO80: nat := 0x1_0000_0000_0000_0000_0000

  // ---------- splitting ----------

  lemma {:induction false} SplitChars(s: string, c: char, x: char)
    requires x in s && x != c
    ensures exists p :: p in Split(s, c) && x in p
    decreases |s|
  {
    var k := IndexOf(s, c);
    if k == |s| {
      assert s in Split(s, c);
    } else {
      assert s == s[..k] + [c] + s[k + 1..];
      assert s[..k] in Split(s, c);
      if x !in s[..k] {
        SplitChars(s[k + 1..], c, x);
        var p :| p in Split(s[k + 1..], c) && x in p;
        assert p in Split(s, c);
      }
    }
  }

  lemma V4Chars(d: string, x: char)
    requires ParseV4(d).Some? && x in d
    ensures IsDigit(x) || x == '.'
  {
    if x != '.' {
      SplitChars(d, '.', x);
      var p :| p in Split(d, '.') && x in p;
      assert IsOctet(p);
    }
  }

  lemma V4HasDot(d: string)
    requires ParseV4(d).Some?
    ensures '.' in d && d != []
  {
    var k := IndexOf(d, '.');
    assert k < |d|;
    assert d[k] == '.';
  }

  lemma AbsentIndex(s: string, c: char)
    requires c !in s
    ensures IndexOf(s, c) == |s| && s[..IndexOf(s, c)] == s
  {
  }

  lemma {:induction false} LastColonIs(front: string, back: string)
    requires front != [] && front[|front| - 1] == ':' && ':' !in back
    ensures LastColon(front + back) == |front| - 1
  {
    var s := front + back;
    if back == [] {
      assert s == front;
    } else {
      assert s[|s| - 1] == back[|back| - 1];
      assert s[..|s| - 1] == front + back[..|back| - 1];
      LastColonIs(front, back[..|back| - 1]);
    }
  }

  // ---------- group values ----------

  lemma FoldStep(front: seq<string>, part: string, base: nat, numeral: nat)
    requires Numerals(front, numeral) && IsNumeral(part, numeral)
    ensures Numerals(front + [part], numeral)
    ensures Fold(front + [part], base, numeral) == MulAdd(Fold(front, base, numeral), base, Value(part, numeral))
  {
    assert (front + [part])[..|front|] == front;
  }

  lemma FoldThree(a: string, b: string, c: string)
    requires IsGroup(a) && IsGroup(b) && IsGroup(c)
    ensures GroupTexts([a, b, c]) && Numerals([a, b, c], 16)
    ensures Fold([a, b, c], 65536, 16) == MulAdd(MulAdd(Value(a, 16), 65536, Value(b, 16)), 65536, Value(c, 16))
  {
    FoldStep([], a, 65536, 16);
    FoldStep([a], b, 65536, 16);
    FoldStep([a, b], c, 65536, 16);
    assert [] + [a] == [a] && [a] + [b] == [a, b] && [a, b] + [c] == [a, b, c];
  }

  function ZeroGroups(n: nat): seq<string> { seq(n, _ => "0") }

  predicate AreZero(zeros: seq<string>) {
    forall k :: 0 <= k < |zeros| ==> IsGroup(zeros[k]) && Value(zeros[k], 16) == 0
  }

  lemma ZeroGroup(z: string)
    requires |z| == 1 && z[0] == '0'
    ensures IsGroup(z) && Value(z, 16) == 0
  {
    assert z[..0] == [];
  }

  lemma ZeroGroupsAreZero(n: nat)
    ensures AreZero(ZeroGroups(n))
  {
    var z := "0";
    ZeroGroup(z);
    assert forall k :: 0 <= k < n ==> ZeroGroups(n)[k] == z;
  }

  // x << 16, n times.
  function ShiftUp(x: nat, n: nat): nat {
    if n == 0 then x else MulAdd(ShiftUp(x, n - 1), 65536, 0)
  }

  lemma GroupAppend(front: seq<string>, back: seq<string>)
    requires GroupTexts(front) && GroupTexts(back)
    ensures GroupTexts(front + back) && Numerals(front + back, 16)
  {
  }

  lemma ZeroStep(front: seq<string>, z: string)
    requires Numerals(front, 16) && IsGroup(z) && Value(z, 16) == 0
    ensures Numerals(front + [z], 16)
    ensures Fold(front + [z], 65536, 16) == MulAdd(Fold(front, 65536, 16), 65536, 0)
  {
    FoldStep(front, z, 65536, 16);
  }

  lemma {:induction false} FoldZerosLast(front: seq<string>, zeros: seq<string>)
    requires Numerals(front, 16) && AreZero(zeros)
    ensures Numerals(front + zeros, 16)
    ensures Fold(front + zeros, 65536, 16) == ShiftUp(Fold(front, 65536, 16), |zeros|)
    decreases |zeros|
  {
    if zeros == [] {
      assert front + zeros == front;
    } else {
      var less, z := zeros[..|zeros| - 1], zeros[|zeros| - 1];
      assert AreZero(less) && IsGroup(z) && Value(z, 16) == 0;
      assert front + zeros == (front + less) + [z];
      FoldZerosLast(front, less);
      hide Fold, Value, IsGroup, AreZero, Numerals, MulAdd;
      ZeroStep(front + less, z);
    }
  }

  lemma {:induction false} FoldAfter(zeros: seq<string>, back: seq<string>)
    requires Numerals(zeros, 16) && Fold(zeros, 65536, 16) == 0 && Numerals(back, 16)
    ensures Numerals(zeros + back, 16) && Fold(zeros + back, 65536, 16) == Fold(back, 65536, 16)
  {
    if back == [] {
      assert zeros + back == zeros;
    } else {
      var front, g := back[..|back| - 1], back[|back| - 1];
      FoldAfter(zeros, front);
      FoldStep(zeros + front, g, 65536, 16);
      assert zeros + back == zeros + front + [g];
    }
  }

  lemma ShiftZero(n: nat)
    ensures ShiftUp(0, n) == 0
  {
  }

  lemma ZerosFold(zeros: seq<string>)
    requires AreZero(zeros)
    ensures GroupTexts(zeros) && Numerals(zeros, 16) && Fold(zeros, 65536, 16) == 0
  {
    FoldZerosLast([], zeros);
    assert [] + zeros == zeros;
    ShiftZero(|zeros|);
  }

  // ---------- the mapped spelling ----------

  lemma ValueOfFour(s: string)
    requires |s| == 4 && IsNumeral(s, 16)
    ensures Value(s, 16)
         == ((DigitValue(s[0]) * 16 + DigitValue(s[1])) * 16 + DigitValue(s[2])) * 16 + DigitValue(s[3])
  {
    var a, b, c := s[..1], s[..2], s[..3];
    assert c[..2] == b && b[..1] == a && a[..0] == [];
    assert Value(a, 16) == DigitValue(s[0]);
    assert Value(b, 16) == MulAdd(Value(a, 16), 16, DigitValue(s[1]));
    assert Value(c, 16) == MulAdd(Value(b, 16), 16, DigitValue(s[2]));
  }

  lemma {:induction false} NoDouble(s: string)
    requires forall k :: 0 <= k < |s| - 1 ==> !(s[k] == ':' && s[k + 1] == ':')
    ensures DoubleColon(s) == |s|
  {
    if |s| >= 2 { NoDouble(s[1..]); }
  }

  lemma SplitThree(a: string, b: string, c: string)
    requires ':' !in a && ':' !in b && ':' !in c
    ensures Split(a + [':'] + (b + [':'] + c), ':') == [a, b, c]
  {
    hide Split, IndexOf;
    SplitHead(a, ':', b + [':'] + c);
    SplitHead(b, ':', c);
    SplitHead(c, ':', "");
  }

  // "::ffff:0:0", spelled out.
  function MappedText(f: string, z: string): string {
    [':', ':'] + (f + [':'] + (z + [':'] + z))
  }

  lemma MappedHalves(f: string, z: string)
    requires |f| == 4 && ':' !in f && |z| == 1 && z[0] == '0'
    ensures SplitDouble(MappedText(f, z)) == [[], f + [':'] + (z + [':'] + z)]
  {
    var tail := f + [':'] + (z + [':'] + z);
    var s := MappedText(f, z);
    assert s[..0] == [] && s[2..] == tail;
    assert forall k :: 0 <= k < 4 ==> tail[k] == f[k];
    NoDouble(tail);
    assert SplitDouble(tail) == [tail];
  }

  lemma MappedGroups(f: string, z: string)
    requires |f| == 4 && ':' !in f && |z| == 1 && z[0] == '0'
    ensures Groups(MappedText(f, z)) == Some(ZeroGroups(5) + [f, z, z])
  {
    hide SplitDouble, Split, MappedText;
    MappedHalves(f, z);
    SplitThree(f, z, z);
    assert SplitGroups(f + [':'] + (z + [':'] + z)) == [f, z, z];
    assert SplitGroups([]) == [];
    assert [] + ZeroGroups(5) + [f, z, z] == ZeroGroups(5) + [f, z, z];
  }

  lemma MappedFold(zeros: seq<string>, f: string, z: string)
    requires AreZero(zeros) && IsGroup(f) && Value(f, 16) == 0xffff && IsGroup(z) && Value(z, 16) == 0
    ensures GroupTexts(zeros + [f, z, z]) && Numerals(zeros + [f, z, z], 16)
    ensures Fold(zeros + [f, z, z], 65536, 16) == 0xffff * TWO32
  {
    FoldThree(f, z, z);
    ZerosFold(zeros);
    FoldAfter(zeros, [f, z, z]);
    GroupAppend(zeros, [f, z, z]);
  }

  lemma V6OfGroupsIs(s: string, groups: seq<string>)
    requires Groups(s) == Some(groups) && GroupTexts(groups) && Numerals(groups, 16)
    ensures V6OfGroups(s) == Some(Fold(groups, 65536, 16))
  {
    hide Groups, Fold;
  }

  lemma FfffGroup(f: string)
    requires |f| == 4 && forall k :: 0 <= k < 4 ==> f[k] == 'f'
    ensures IsGroup(f) && Value(f, 16) == 0xffff && ':' !in f
  {
    ValueOfFour(f);
  }

  lemma MappedZero(f: string, z: string)
    requires |f| == 4 && (forall k :: 0 <= k < 4 ==> f[k] == 'f') && |z| == 1 && z[0] == '0'
    ensures V6OfGroups(MappedText(f, z)) == Some(0xffff * TWO32)
  {
    hide *;
    ZeroGroup(z);
    FfffGroup(f);
    MappedGroups(f, z);
    ZeroGroupsAreZero(5);
    MappedFold(ZeroGroups(5), f, z);
    V6OfGroupsIs(MappedText(f, z), ZeroGroups(5) + [f, z, z]);
  }

  lemma FoldOctetsBound(parts: seq<string>)
    requires Octets(parts) && |parts| == 4 && Numerals(parts, 10)
    ensures Fold(parts, 256, 10) < TWO32
  {
    OctetsBound(parts);
    assert Power(256, 4) == 256 * (256 * Power(256, 2));
    assert Power(256, 2) == 65536;
  }

  lemma {:induction false} OctetsBound(parts: seq<string>)
    requires Octets(parts) && Numerals(parts, 10)
    ensures Fold(parts, 256, 10) < Power(256, |parts|)
  {
    if parts != [] {
      OctetsBound(parts[..|parts| - 1]);
      MulStep(Fold(parts[..|parts| - 1], 256, 10), Power(256, |parts| - 1), 256, Value(parts[|parts| - 1], 10));
    }
  }

  predicate IsMappedFront(front: string) {
    && |front| == 7 && front[0] == ':' && front[1] == ':' && front[6] == ':'
    && front[2] == 'f' && front[3] == 'f' && front[4] == 'f' && front[5] == 'f'
  }

  lemma MappedShape(front: string, d: string, z: string)
    requires IsMappedFront(front) && d != [] && (forall x :: x in d ==> IsDigit(x) || x == '.') && '.' in d
    requires z == "0:0"
    ensures var s := front + d;
            && s[..IndexOf(s, '%')] == s && '.' in s && ':' in s
            && LastColon(s) == 6 && s[7..] == d && Trim(s) == s && Unbracket(s) == s
            && ZeroTail(s, 6) == MappedText(front[2..6], z[..1])
  {
    var s := front + d;
    assert forall x :: x in front ==> x == ':' || x == 'f';
    AbsentIndex(s, '%');
    LastColonIs(front, d);
    assert s[0] == ':' && s[|s| - 1] == d[|d| - 1] && d[|d| - 1] in d;
    TrimOfTrimmed(s);
    assert s[..7] == front;
  }

  // ParseV6 on a text with a dotted tail.
  lemma DottedV6(s: string, d: string, base: string, tail: nat, v: nat)
    requires s[..IndexOf(s, '%')] == s && '.' in s && LastColon(s) == 6 && s[7..] == d && ZeroTail(s, 6) == base
    requires ParseV4(d) == Some(tail) && V6OfGroups(base) == Some(v)
    ensures ParseV6(s) == Some(WithTail(v, tail))
    ensures v == 0xffff * TWO32 ==> ParseV6(s) == Some(0xffff * TWO32 + tail)
  {
    hide ParseV4, V6OfGroups, IndexOf, LastColon;
  }

  lemma RawV6(s: string)
    requires Trim(s) == s && Unbracket(s) == s && ':' in s && ParseV6(s).Some?
    ensures ParseRaw(s) == Some(ParsedIp(V6, ParseV6(s).value))
  {
    hide ParseV4, ParseV6, Trim, Unbracket;
  }

  lemma V4Bound(d: string)
    requires ParseV4(d).Some?
    ensures ParseV4(d).value < TWO32
  {
    FoldOctetsBound(Split(d, '.'));
  }

  lemma V4Text(d: string)
    requires ParseV4(d).Some?
    ensures d != [] && '.' in d && '/' !in d && forall x :: x in d ==> IsDigit(x) || x == '.'
  {
    forall x | x in d ensures IsDigit(x) || x == '.' { V4Chars(d, x); }
    V4HasDot(d);
  }

  lemma FrontIsFfff(front: string, z: string)
    requires IsMappedFront(front) && z == "0:0"
    ensures |front[2..6]| == 4 && forall k :: 0 <= k < 4 ==> front[2..6][k] == 'f'
    ensures |z| == 3 && z[0] == '0' && z[1] == ':' && z[2] == '0' && |z[..1]| == 1 && z[..1][0] == '0'
  {
  }

  lemma MappedRaw(front: string, d: string, z: string)
    requires IsMappedFront(front) && ParseV4(d).Some? && z == "0:0"
    ensures ParseV4(d).value < TWO32
    ensures ParseRaw(front + d) == Some(ParsedIp(V6, 0xffff * TWO32 + ParseV4(d).value))
    ensures ParseRaw(d) == Some(ParsedIp(V4, ParseV4(d).value))
  {
    hide *;
    V4Text(d);
    RawV4(d);
    V4Bound(d);
    FrontIsFfff(front, z);
    MappedShape(front, d, z);
    MappedZero(front[2..6], z[..1]);
    DottedV6(front + d, d, MappedText(front[2..6], z[..1]), ParseV4(d).value, 0xffff * TWO32);

    RawV6(front + d);
  }

  lemma UnmapMapped(v: nat)
    requires v < TWO32
    ensures Unmap(ParsedIp(V6, 0xffff * TWO32 + v)) == ParsedIp(V4, v)
    ensures IsMapped(ParsedIp(V6, 0xffff * TWO32 + v))
    ensures Unmap(ParsedIp(V4, v)) == ParsedIp(V4, v)
  {
  }

  lemma IpOfRaw(s: string, ip: ParsedIp)
    requires ParseRaw(s) == Some(ip)
    ensures ParseIp(s) == Some(Unmap(ip))
  {
    hide ParseRaw;
  }

  // a is a spelling, whatever its case, zeros or tail, of the IPv4-mapped address of the IPv4 text d.
  predicate SpellsMapped(a: string, d: string) {
    ParseV4(d).Some? && ParseRaw(a) == Some(ParsedIp(V6, 0xffff * TWO32 + ParseV4(d).value))
  }

  // Every spelling of an IPv4-mapped address is the IPv4 address itself.
  lemma MappedIsV4(a: string, d: string)
    requires SpellsMapped(a, d)
    ensures ParseIp(a) == ParseIp(d) == Some(ParsedIp(V4, ParseV4(d).value))
  {
    hide ParseRaw, ParseV4, ParseIp, Unmap, IsMapped;
    var v := ParseV4(d).value;
    V4Bound(d);
    V4Text(d);
    RawV4(d);
    UnmapMapped(v);
    IpOfRaw(a, ParsedIp(V6, 0xffff * TWO32 + v));
    IpOfRaw(d, ParsedIp(V4, v));
  }

  // In particular an IPv4 text behind "::ffff:".
  lemma DottedIsMapped(front: string, d: string)
    requires front == "::ffff:" && ParseV4(d).Some?
    ensures SpellsMapped(front + d, d) && '/' !in front + d
  {
    NoSlash(front, d);
    hide *;
    MappedRaw(front, d, "0:0");
    IsSpelled(front + d, d);
  }

  lemma IsSpelled(a: string, d: string)
    requires ParseV4(d).Some? && ParseRaw(a) == Some(ParsedIp(V6, 0xffff * TWO32 + ParseV4(d).value))
    ensures SpellsMapped(a, d)
  {
    hide ParseV4, ParseRaw;
  }

  lemma RawV4(d: string)
    requires ParseV4(d).Some? && d != [] && forall x :: x in d ==> IsDigit(x) || x == '.'
    ensures ParseRaw(d) == Some(ParsedIp(V4, ParseV4(d).value))
  {
    assert d[0] in d && d[|d| - 1] in d;
    TrimOfTrimmed(d);
    assert ':' !in d;
  }

  // ---------- printed prefixes ----------

  // What PrefixOf makes of an address and a length.
  function Named(ip: ParsedIp, n: nat): (ParsedIp, nat) {
    if IsMapped(ip) && n >= 96 then (Unmap(ip), n - 96) else (ip, n)
  }

  lemma PrefixParts(s: string, addr: string, digits: string, ip: ParsedIp)
    requires IndexOf(s, '/') == |addr| < |s| && s[..|addr|] == addr && Trim(s[|addr| + 1..]) == digits
    requires digits != [] && AllDigits(digits) && IsNumeral(digits, 10) && ParseRaw(addr) == Some(ip)
    ensures PrefixOf(s) == if |digits| > 3 then None else Some(Named(ip, Value(digits, 10)))
  {
    hide ParseRaw, Trim, IndexOf, IsMapped, Unmap, Value, IsNumeral;
  }

  lemma PrefixPrinted(addr: string, n: nat, ip: ParsedIp)
    requires '/' !in addr && ParseRaw(addr) == Some(ip)
    ensures PrefixOf(addr + ['/'] + Print(n, 10)) == if |Print(n, 10)| > 3 then None else Some(Named(ip, n))
  {
    hide *;
    var digits := Print(n, 10);
    var s := addr + ['/'] + digits;
    PrintRoundTrip(n, 10);
    DecimalDigits(digits);
    DigitsTrim(digits);
    IndexOfIs(s, '/', |addr|);
    assert s[..|addr|] == addr && s[|addr| + 1..] == digits;
    PrefixParts(s, addr, digits, ip);
  }

  lemma DigitsTrim(digits: string)
    requires digits != [] && AllDigits(digits)
    ensures Trim(digits) == digits
  {
    assert IsDigit(digits[0]) && IsDigit(digits[|digits| - 1]);
    TrimOfTrimmed(digits);
  }

  lemma ShortPrint(n: nat)
    requires n < 1000
    ensures |Print(n, 10)| <= 3
  {
    assert Power(10, 3) == 1000;
    PrintLength(n, 10, 3);
  }

  // A prefix of any spelling of an IPv4-mapped address is the IPv4 prefix 96 bits shorter, for every
  // length, legal or not.
  lemma MappedPrefix(a: string, d: string, n: nat)
    requires SpellsMapped(a, d) && '/' !in a
    ensures ParseCidr(a + ['/'] + Print(96 + n, 10)) == ParseCidr(d + ['/'] + Print(n, 10))
  {
    hide ParseRaw, ParseV4, ParseCidr, PrefixOf, Named, Print, Bits;
    var v := ParseV4(d).value;
    var mapped, plain := ParsedIp(V6, 0xffff * TWO32 + v), ParsedIp(V4, v);
    V4Text(d);
    V4Bound(d);
    RawV4(d);
    if n <= 32 { ShortPrint(96 + n); ShortPrint(n); }
    NamedSame(v, n);
    PrefixPrinted(a, 96 + n, mapped);
    PrefixPrinted(d, n, plain);
    LongPrefixIsNone(a + ['/'] + Print(96 + n, 10), plain, n);
    LongPrefixIsNone(d + ['/'] + Print(n, 10), plain, n);
  }

  lemma NamedSame(v: nat, n: nat)
    requires v < TWO32
    ensures Bits(V4) == 32
    ensures Named(ParsedIp(V6, 0xffff * TWO32 + v), 96 + n) == (ParsedIp(V4, v), n) == Named(ParsedIp(V4, v), n)
  {
    UnmapMapped(v);
  }

  lemma NoSlash(front: string, d: string)
    requires front == "::ffff:" && ParseV4(d).Some?
    ensures IsMappedFront(front) && '/' !in d && '/' !in front + d
  {
    V4Text(d);
  }

  lemma LongPrefixIsNone(s: string, ip: ParsedIp, n: nat)
    requires PrefixOf(s).None? || PrefixOf(s) == Some((ip, n))
    ensures n > Bits(ip.family) ==> ParseCidr(s) == None
    ensures PrefixOf(s) == Some((ip, n)) && n <= Bits(ip.family) ==>
              ParseCidr(s) == if n < MinPrefix(ip.family) then None else Some(Block(ip, n))
  {
    hide PrefixOf, Block;
  }

  // ---------- printing and truncating ----------

  function Octet(v: nat, shift: nat): nat
    requires shift > 0
  {
    v / shift % 256
  }

  function DottedText(a: string, b: string, c: string, d: string): string {
    a + ['.'] + (b + ['.'] + (c + ['.'] + d))
  }

  function FormatV4(v: nat): string {
    DottedText(Print(Octet(v, 0x100_0000), 10), Print(Octet(v, 0x1_0000), 10), Print(Octet(v, 0x100), 10),
               Print(Octet(v, 1), 10))
  }

  function Group(top: nat, shift: nat): nat
    requires shift > 0
  {
    top / shift % 65536
  }

  function ColonText(a: string, b: string, c: string): string {
    a + [':'] + (b + [':'] + c)
  }

  // The /24 or /48 an address sits in.
  function TruncateIp(ip: ParsedIp): string {
    if ip.family.V4? then FormatV4(ip.value % TWO32 / 256 * 256) + ['/'] + Print(24, 10)
    else
      var top := ip.value / TWO80;
      ColonText(Print(Group(top, 0x1_0000_0000), 16), Print(Group(top, 0x1_0000), 16), Print(Group(top, 1), 16))
      + [':', ':'] + ['/'] + Print(48, 10)
  }

  lemma OctetText(n: nat)
    requires n < 256
    ensures IsOctet(Print(n, 10)) && Value(Print(n, 10), 10) == n
    ensures forall x :: x in Print(n, 10) ==> IsDigit(x)
  {
    PrintRoundTrip(n, 10);
    DecimalDigits(Print(n, 10));
    ShortPrint(n);
  }

  lemma GroupText(n: nat)
    requires n < 65536
    ensures IsGroup(Print(n, 16)) && Value(Print(n, 16), 16) == n
    ensures forall x :: x in Print(n, 16) ==> IsHexDigit(x)
  {
    PrintRoundTrip(n, 16);
    assert Power(16, 2) == 256;
    assert Power(16, 4) == 16 * (16 * Power(16, 2));
    PrintLength(n, 16, 4);
  }

  lemma SplitFour(a: string, b: string, c: string, d: string)
    requires '.' !in a && '.' !in b && '.' !in c && '.' !in d
    ensures Split(DottedText(a, b, c, d), '.') == [a, b, c, d]
  {
    hide Split, IndexOf;
    SplitHead(a, '.', b + ['.'] + (c + ['.'] + d));
    SplitHead(b, '.', c + ['.'] + d);
    SplitHead(c, '.', d);
    SplitHead(d, '.', "");
  }

  lemma FoldFour(a: string, b: string, c: string, d: string)
    requires IsOctet(a) && IsOctet(b) && IsOctet(c) && IsOctet(d)
    ensures Octets([a, b, c, d]) && Numerals([a, b, c, d], 10)
    ensures Fold([a, b, c, d], 256, 10)
         == ((Value(a, 10) * 256 + Value(b, 10)) * 256 + Value(c, 10)) * 256 + Value(d, 10)
  {
    FoldStep([], a, 256, 10);
    FoldStep([a], b, 256, 10);
    FoldStep([a, b], c, 256, 10);
    FoldStep([a, b, c], d, 256, 10);
    assert [] + [a] == [a] && [a] + [b] == [a, b] && [a, b] + [c] == [a, b, c] && [a, b, c] + [d] == [a, b, c, d];
  }

  lemma OctetsOf(v: nat)
    requires v < TWO32
    ensures ((Octet(v, 0x100_0000) * 256 + Octet(v, 0x1_0000)) * 256 + Octet(v, 0x100)) * 256 + Octet(v, 1) == v
  {
    var q1, q2, q3 := v / 256, v / 0x1_0000, v / 0x100_0000;
    assert v == q1 * 256 + v % 256;
    assert q1 == q2 * 256 + q1 % 256;
    assert q2 == q3 * 256 + q2 % 256;
  }

  // Every IPv4 address prints to a text that parses back to it.
  lemma FormatV4RoundTrip(v: nat)
    requires v < TWO32
    ensures ParseV4(FormatV4(v)) == Some(v)
  {
    var a, b, c, d := Octet(v, 0x100_0000), Octet(v, 0x1_0000), Octet(v, 0x100), Octet(v, 1);
    OctetText(a);
    OctetText(b);
    OctetText(c);
    OctetText(d);
    OctetsOf(v);
    hide Print, Fold, Octets, IsOctet, Numerals, Octet, DottedText, Split, Value;
    SplitFour(Print(a, 10), Print(b, 10), Print(c, 10), Print(d, 10));
    FoldFour(Print(a, 10), Print(b, 10), Print(c, 10), Print(d, 10));
  }

  // ---------- truncated addresses parse back ----------

  lemma CidrOf(addr: string, bits: nat, ip: ParsedIp)
    requires '/' !in addr && ParseRaw(addr) == Some(ip) && !IsMapped(ip)
    requires MinPrefix(ip.family) <= bits <= Bits(ip.family)
    ensures ParseCidr(addr + ['/'] + Print(bits, 10)) == Some(Block(ip, bits))
  {
    hide ParseRaw, IsMapped, Block, PrefixOf, ParseCidr, Print, Unmap;
    ShortPrint(bits);
    PrefixPrinted(addr, bits, ip);
    LongPrefixIsNone(addr + ['/'] + Print(bits, 10), ip, bits);
  }

  lemma SmallPowers()
    ensures Power(2, 8) == 256 && Power(2, 80) == TWO80
  {
    assert Power(2, 4) == 16;
    hide *;
    PowerAdd(4, 4);
    PowerAdd(8, 8);
    PowerAdd(16, 16);
    PowerAdd(32, 32);
    PowerAdd(64, 16);
  }

  lemma {:induction false} PowerAdd(a: nat, b: nat)
    ensures Power(2, a + b) == Power(2, a) * Power(2, b)
  {
    if a > 0 { PowerAdd(a - 1, b); }
  }

  lemma TruncateV4(v: nat)
    requires v < TWO32
    ensures ParseCidr(TruncateIp(ParsedIp(V4, v))) == Some(Cidr(V4, v / 256 * 256, v / 256 * 256 + 255))
  {
    hide *;
    var w := v / 256 * 256;
    TruncateV4Text(v);
    BlockV4(w);
    FormatV4RoundTrip(w);
    V4Text(FormatV4(w));
    RawV4(FormatV4(w));
    CidrOf(FormatV4(w), 24, ParsedIp(V4, w));
  }

  lemma TruncateV4Text(v: nat)
    requires v < TWO32
    ensures v / 256 * 256 < TWO32 && v / 256 * 256 % 256 == 0
    ensures TruncateIp(ParsedIp(V4, v)) == FormatV4(v / 256 * 256) + ['/'] + Print(24, 10)
  {
    hide FormatV4, Print;
  }

  lemma BlockV4(w: nat)
    requires w % 256 == 0
    ensures Bits(V4) == 32 && MinPrefix(V4) == 12 && !IsMapped(ParsedIp(V4, w))
    ensures Block(ParsedIp(V4, w), 24) == Cidr(V4, w, w + 255)
  {
    SmallPowers();
  }

  lemma BlockV6(top: nat)
    ensures Bits(V6) == 128 && MinPrefix(V6) == 28 && !IsMapped(ParsedIp(V6, top * TWO80))
    ensures Block(ParsedIp(V6, top * TWO80), 48) == Cidr(V6, top * TWO80, top * TWO80 + (TWO80 - 1))
  {
    SmallPowers();
    assert top * TWO80 / TWO80 == top;
    assert top * TWO80 / TWO32 == top * 0x1_0000_0000_0000;
  }

  predicate NoPair(s: string) { forall k :: 0 <= k < |s| - 1 ==> !(s[k] == ':' && s[k + 1] == ':') }

  lemma {:induction false} DoubleAtEnd(body: string)
    requires NoPair(body) && body != [] && body[|body| - 1] != ':'
    ensures DoubleColon(body + [':', ':']) == |body|
  {
    var s := body + [':', ':'];
    if |body| == 1 {
      assert s[1..] == [':', ':'];
      assert DoubleColon(s[1..]) == 0;
    } else {
      assert s[1..] == body[1..] + [':', ':'];
      DoubleAtEnd(body[1..]);
    }
  }

  // Hex digits and single colons, none of them at an end.
  predicate Tidy(s: string) {
    && NoPair(s) && s != [] && s[0] != ':' && s[|s| - 1] != ':'
    && forall x :: x in s ==> x == ':' || IsHexDigit(x)
  }

  lemma TidyGroup(a: string)
    requires IsGroup(a)
    ensures Tidy(a) && ':' !in a
  {
  }

  lemma TidyJoin(a: string, b: string)
    requires Tidy(a) && Tidy(b)
    ensures Tidy(a + [':'] + b)
  {
    hide IsHexDigit;
    var s := a + [':'] + b;
    forall k | 0 <= k < |s| - 1 ensures !(s[k] == ':' && s[k + 1] == ':') {
      assert k < |a| ==> s[k] == a[k];
      assert k > |a| ==> s[k] == b[k - |a| - 1];
    }
  }

  lemma HexBody(a: string, b: string, c: string)
    requires IsGroup(a) && IsGroup(b) && IsGroup(c)
    ensures var body := ColonText(a, b, c);
            && NoPair(body) && body != [] && body[|body| - 1] != ':' && Split(body, ':') == [a, b, c]
            && forall x :: x in body ==> x == ':' || IsHexDigit(x)
  {
    TidyGroup(a);
    TidyGroup(b);
    TidyGroup(c);
    SplitThree(a, b, c);
    assert Tidy(ColonText(a, b, c)) by {
      hide Tidy;
      TidyJoin(b, c);
      TidyJoin(a, b + [':'] + c);
    }
    hide NoPair, Split, IsHexDigit, IsGroup;
  }

  lemma HalvesAtEnd(body: string, empty: string)
    requires NoPair(body) && body != [] && body[|body| - 1] != ':' && empty == []
    ensures SplitDouble(body + [':', ':']) == [body, empty]
  {
    hide NoPair, DoubleColon;
    var s := body + [':', ':'];
    DoubleAtEnd(body);
    NoDoubleIn(empty);
    SplitAt(s, |body|);
    assert s[..|body|] == body && s[|body| + 2..] == empty;
    assert [body] + [empty] == [body, empty];
  }

  lemma NoDoubleIn(empty: string)
    requires empty == []
    ensures SplitDouble(empty) == [empty]
  {
  }

  lemma SplitAt(s: string, k: nat)
    requires DoubleColon(s) == k < |s|
    ensures k + 2 <= |s| && SplitDouble(s) == [s[..k]] + SplitDouble(s[k + 2..])
  {
    hide DoubleColon;
  }

  lemma HexGroups(a: string, b: string, c: string)
    requires IsGroup(a) && IsGroup(b) && IsGroup(c)
    ensures Groups(ColonText(a, b, c) + [':', ':']) == Some([a, b, c] + ZeroGroups(5))
  {
    hide Split, IsGroup, ColonText, SplitDouble;
    HexBody(a, b, c);
    HalvesAtEnd(ColonText(a, b, c), []);
    assert [a, b, c] + ZeroGroups(5) + [] == [a, b, c] + ZeroGroups(5);
  }

  lemma ShiftFive(x: nat)
    ensures ShiftUp(x, 5) == x * TWO80
  {
    assert ShiftUp(x, 1) == MulAdd(ShiftUp(x, 0), 65536, 0) == x * 65536;
    assert ShiftUp(x, 2) == MulAdd(ShiftUp(x, 1), 65536, 0);
    assert ShiftUp(x, 3) == MulAdd(ShiftUp(x, 2), 65536, 0);
    assert ShiftUp(x, 4) == MulAdd(ShiftUp(x, 3), 65536, 0);
  }

  lemma ZeroTexts(zeros: seq<string>)
    requires AreZero(zeros)
    ensures GroupTexts(zeros)
  {
  }

  lemma HexFold(a: string, b: string, c: string, zeros: seq<string>)
    requires IsGroup(a) && IsGroup(b) && IsGroup(c) && AreZero(zeros) && |zeros| == 5
    ensures GroupTexts([a, b, c] + zeros) && Numerals([a, b, c] + zeros, 16)
    ensures Fold([a, b, c] + zeros, 65536, 16)
         == MulAdd(MulAdd(Value(a, 16), 65536, Value(b, 16)), 65536, Value(c, 16)) * TWO80
  {
    hide *;
    FoldThree(a, b, c);
    ZeroTexts(zeros);
    GroupAppend([a, b, c], zeros);
    FoldZerosLast([a, b, c], zeros);
    ShiftFive(Fold([a, b, c], 65536, 16));
  }

  lemma PlainV6(s: string, v: nat)
    requires '%' !in s && '.' !in s && V6OfGroups(s) == Some(v)
    ensures ParseV6(s) == Some(v)
  {
    hide V6OfGroups, IndexOf;
    AbsentIndex(s, '%');
  }

  lemma HexText(a: string, b: string, c: string)
    requires IsGroup(a) && IsGroup(b) && IsGroup(c)
    ensures var s := ColonText(a, b, c) + [':', ':'];
            '%' !in s && '.' !in s && '/' !in s && ':' in s && Trim(s) == s && Unbracket(s) == s
  {
    var body := ColonText(a, b, c);
    var s := body + [':', ':'];
    HexBody(a, b, c);
    assert body[0] == a[0];
    assert forall x :: x in s ==> x == ':' || IsHexDigit(x);
    hide IsGroup, ColonText, Trim;
    assert s[0] == body[0] && s[|s| - 1] == ':';
    assert s[|s| - 1] in s;
    TrimOfTrimmed(s);
  }

  lemma HexParses(a: string, b: string, c: string)
    requires IsGroup(a) && IsGroup(b) && IsGroup(c)
    ensures ParseRaw(ColonText(a, b, c) + [':', ':'])
         == Some(ParsedIp(V6, MulAdd(MulAdd(Value(a, 16), 65536, Value(b, 16)), 65536, Value(c, 16)) * TWO80))
  {
    hide *;
    var s := ColonText(a, b, c) + [':', ':'];
    HexText(a, b, c);
    HexGroups(a, b, c);
    ZeroGroupsAreZero(5);
    ZeroGroupsCount(5);
    HexFold(a, b, c, ZeroGroups(5));
    V6OfGroupsIs(s, [a, b, c] + ZeroGroups(5));
    PlainV6(s, Fold([a, b, c] + ZeroGroups(5), 65536, 16));
    RawV6(s);
  }

  lemma ZeroGroupsCount(n: nat)
    ensures |ZeroGroups(n)| == n
  {
  }

  lemma GroupsOf(top: nat)
    requires top < 0x1_0000_0000_0000
    ensures Group(top, 0x1_0000_0000) < 65536 && Group(top, 0x1_0000) < 65536 && Group(top, 1) < 65536
    ensures MulAdd(MulAdd(Group(top, 0x1_0000_0000), 65536, Group(top, 0x1_0000)), 65536, Group(top, 1)) == top
  {
    var q1, q2 := top / 0x1_0000, top / 0x1_0000_0000;
    DivideTwice(top);
    assert q2 < 65536;
    assert top == q1 * 0x1_0000 + top % 0x1_0000;
    assert q1 == q2 * 0x1_0000 + q1 % 0x1_0000;
  }

  lemma DivideTwice(top: nat)
    ensures top / 0x1_0000 / 0x1_0000 == top / 0x1_0000_0000
  {
  }

  lemma TruncateV6Text(v: nat)
    ensures TruncateIp(ParsedIp(V6, v)) ==
      var top := v / TWO80;
      ColonText(Print(Group(top, 0x1_0000_0000), 16), Print(Group(top, 0x1_0000), 16), Print(Group(top, 1), 16))
      + [':', ':'] + ['/'] + Print(48, 10)
  {
    hide ColonText, Print, Group;
  }

  lemma TruncateV6(v: nat)
    requires v / TWO80 < 0x1_0000_0000_0000
    ensures ParseCidr(TruncateIp(ParsedIp(V6, v))) == Some(Cidr(V6, v / TWO80 * TWO80, v / TWO80 * TWO80 + (TWO80 - 1)))
  {
    var top := v / TWO80;
    hide *;
    TruncateV6Text(v);
    TopBlock(top);
  }

  lemma TopBlock(top: nat)
    requires top < 0x1_0000_0000_0000
    ensures ParseCidr(ColonText(Print(Group(top, 0x1_0000_0000), 16), Print(Group(top, 0x1_0000), 16),
                                Print(Group(top, 1), 16)) + [':', ':'] + ['/'] + Print(48, 10))
         == Some(Cidr(V6, top * TWO80, top * TWO80 + (TWO80 - 1)))
  {
    hide *;
    var a, b, c := Print(Group(top, 0x1_0000_0000), 16), Print(Group(top, 0x1_0000), 16), Print(Group(top, 1), 16);
    GroupsOf(top);
    GroupText(Group(top, 0x1_0000_0000));
    GroupText(Group(top, 0x1_0000));
    GroupText(Group(top, 1));
    HexParses(a, b, c);
    HexText(a, b, c);
    BlockV6(top);
    CidrOf(ColonText(a, b, c) + [':', ':'], 48, ParsedIp(V6, top * TWO80));
  }

  // A truncated address is a prefix of the address's own family that contains it, /24 or /48 wide.
  lemma TruncatedBlock(ip: ParsedIp)
    requires ValidIp(ip)
    ensures var c := ParseCidr(TruncateIp(ip));
            && c.Some? && c.value.family == ip.family && Contains(c.value, ip)
            && c.value.last - c.value.first + 1 == if ip.family.V4? then 256 else TWO80
  {
    if ip.family.V4? {
      TruncateV4(ip.value);
    } else {
      assert ip.value / TWO80 < 0x1_0000_0000_0000;
      TruncateV6(ip.value);
      assert ip.value == ip.value / TWO80 * TWO80 + ip.value % TWO80;
    }
    hide ParseCidr, TruncateIp;
  }

  lemma {:induction false} GroupsBound(parts: seq<string>)
    requires GroupTexts(parts) && Numerals(parts, 16)
    ensures Fold(parts, 65536, 16) < Power(65536, |parts|)
  {
    if parts != [] {
      var g := parts[|parts| - 1];
      GroupsBound(parts[..|parts| - 1]);
      ValueBound(g, 16);
      PowerOf16(|g|);
      MulStep(Fold(parts[..|parts| - 1], 65536, 16), Power(65536, |parts| - 1), 65536, Value(g, 16));
    }
  }

  lemma PowerOf16(e: nat)
    requires e <= 4
    ensures Power(16, e) <= 65536
  {
    assert Power(16, 2) == 256;
    assert Power(16, 4) == 16 * (16 * Power(16, 2));
    assert Power(16, 3) == 16 * Power(16, 2);
  }

  lemma EightGroups()
    ensures Power(65536, 8) == TWO128
  {
    assert Power(65536, 2) == 65536 * 65536;
    assert Power(65536, 4) == 65536 * (65536 * Power(65536, 2));
    assert Power(65536, 6) == 65536 * (65536 * Power(65536, 4));
    assert Power(65536, 8) == 65536 * (65536 * Power(65536, 6));
  }

  lemma V6GroupsBound(s: string)
    requires V6OfGroups(s).Some?
    ensures V6OfGroups(s).value < TWO128
  {
    var groups := Groups(s).value;
    EightGroups();
    hide Fold, Power, Groups;
    GroupsCount(s);
    GroupsBound(groups);
  }

  lemma GroupsCount(s: string)
    requires Groups(s).Some?
    ensures |Groups(s).value| == 8
  {
    hide SplitDouble, SplitGroups;
  }

  lemma TailBound(v: nat, tail: nat)
    requires v < TWO128 && tail < TWO32
    ensures WithTail(v, tail) < TWO128
  {
  }

  lemma V6Bound(s: string)
    requires ParseV6(s).Some?
    ensures ParseV6(s).value < TWO128
  {
    var t := s[..IndexOf(s, '%')];
    hide ParseV4, V6OfGroups, IndexOf, LastColon, WithTail, ZeroTail;
    if '.' in t {
      var k := LastColon(t);
      V4Bound(t[k + 1..]);
      V6GroupsBound(ZeroTail(t, k));
      TailBound(V6OfGroups(ZeroTail(t, k)).value, ParseV4(t[k + 1..]).value);
    } else {
      V6GroupsBound(t);
    }
  }

  lemma RawIsValid(s: string)
    requires ParseRaw(s).Some?
    ensures ValidIp(ParseRaw(s).value)
  {
    var t := Unbracket(Trim(s));
    hide ParseV4, ParseV6, Trim, Unbracket;
    if ':' in t { V6Bound(t); } else { V4Bound(t); }
  }

  // A truncated address says which block the address is in, and nothing else about it.
  lemma TruncationForgets(a: ParsedIp, b: ParsedIp)
    requires ValidIp(a) && ValidIp(b)
    ensures TruncateIp(a) == TruncateIp(b)
       <==> && a.family == b.family
            && if a.family.V4? then a.value / 256 == b.value / 256 else a.value / TWO80 == b.value / TWO80
  {
    if a.family.V4? {
      TruncateV4(a.value);
      TruncateV4Text(a.value);
    } else {
      BelowTop(a.value);
      TruncateV6(a.value);
      TruncateV6Text(a.value);
    }
    if b.family.V4? {
      TruncateV4(b.value);
      TruncateV4Text(b.value);
    } else {
      BelowTop(b.value);
      TruncateV6(b.value);
      TruncateV6Text(b.value);
    }
    hide ParseCidr, TruncateIp, FormatV4, ColonText, Print, Group;
  }

  lemma BelowTop(v: nat)
    requires v < TWO128
    ensures v / TWO80 < 0x1_0000_0000_0000
  {
  }

  // Any text that parses can be truncated, and what it truncates to is a prefix that contains it.
  lemma ParsedTruncates(s: string)
    requires ParseIp(s).Some?
    ensures var ip := ParseIp(s).value;
            ValidIp(ip) && ParseCidr(TruncateIp(ip)).Some? && Contains(ParseCidr(TruncateIp(ip)).value, ip)
  {
    RawIsValid(s);
    hide ParseRaw, ParseCidr, TruncateIp, Contains;
    TruncatedBlock(ParseIp(s).value);
  }
}
