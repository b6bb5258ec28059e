// When the caller's address may be judged: not from inside a listed proxy range, nor from a reserved block.
module PublicAddress {
  import opened Wrappers
  import opened Text
  import opened IpAddress
  import opened IpSpelling
  import opened RangeSets
  import opened Identity

  // ---------- the reserved blocks ----------

  // Never a caller's own address, as intervals: "this network", private, shared, loopback, link-local,
  // documentation, benchmarking, multicast and reserved.
  predicate ReservedV4(v: nat) {
    || v <= 0x00ff_ffff
    || 0x0a00_0000 <= v <= 0x0aff_ffff
    || 0x6440_0000 <= v <= 0x647f_ffff
    || 0x7f00_0000 <= v <= 0x7fff_ffff
    || 0xa9fe_0000 <= v <= 0xa9fe_ffff
    || 0xac10_0000 <= v <= 0xac1f_ffff
    || 0xc000_0000 <= v <= 0xc000_00ff
    || 0xc000_0200 <= v <= 0xc000_02ff
    || 0xc0a8_0000 <= v <= 0xc0a8_ffff
    || 0xc612_0000 <= v <= 0xc613_ffff
    || 0xc633_6400 <= v <= 0xc633_64ff
    || 0xcb00_7100 <= v <= 0xcb00_71ff
    || 0xe000_0000 <= v <= 0xefff_ffff
    || 0xf000_0000 <= v <= 0xffff_ffff
  }

  const TWO112: nat := 0x1_0000_0000_0000_0000_0000_0000_0000
  const TWO96: nat := 0x1_0000_0000_0000_0000_0000_0000

  // Unspecified, loopback, translated IPv4, discard, documentation, unique local, link-local, multicast.
  predicate ReservedV6(v: nat) {
    || v <= 1
    || 0x64_ff9b * TWO96 <= v <= 0x64_ff9b * TWO96 + 0xffff_ffff
    || 0x100 * TWO112 <= v <= 0x100 * TWO112 + 0xffff_ffff_ffff_ffff
    || 0x2001_0db8 * TWO96 <= v < 0x2001_0db9 * TWO96
    || 0xfc00 * TWO112 <= v < 0xfe00 * TWO112
    || 0xfe80 * TWO112 <= v < 0xfec0 * TWO112
    || 0xff00 * TWO112 <= v < 0x1_0000 * TWO112
  }

  predicate Reserved(ip: ParsedIp) { if ip.family.V4? then ReservedV4(ip.value) else ReservedV6(ip.value) }

  // ---------- numbers as texts ----------

  function Tens(n: nat): string
    requires n < 1000
  {
    if n < 10 then [DigitChar(n)]
    else if n < 100 then [DigitChar(n / 10), DigitChar(n % 10)]
    else [DigitChar(n / 100), DigitChar(n / 10 % 10), DigitChar(n % 10)]
  }

  lemma PrintStep(n: nat, base: nat)
    requires 2 <= base <= 16
    ensures n < base ==> Print(n, base) == [DigitChar(n)]
    ensures n >= base ==> n % base < 16 && Print(n, base) == Print(n / base, base) + [DigitChar(n % base)]
  {
    assert Quotient(n, base) == n / base && Remainder(n, base) == n % base;
  }

  lemma PrintsTens(n: nat)
    requires n < 1000
    ensures Print(n, 10) == Tens(n)
  {
    hide Print, DigitChar;
    PrintStep(n, 10);
    PrintStep(n / 10, 10);
    PrintStep(n / 10 / 10, 10);
    assert n / 10 / 10 == n / 100;
  }

  function Hex(n: nat): string
    requires n < 65536
  {
    if n < 16 then [DigitChar(n)]
    else if n < 256 then [DigitChar(n / 16), DigitChar(n % 16)]
    else if n < 4096 then [DigitChar(n / 256), DigitChar(n / 16 % 16), DigitChar(n % 16)]
    else [DigitChar(n / 4096), DigitChar(n / 256 % 16), DigitChar(n / 16 % 16), DigitChar(n % 16)]
  }

  lemma PrintsHex(n: nat)
    requires n < 65536
    ensures Print(n, 16) == Hex(n)
  {
    hide Print, DigitChar;
    PrintStep(n, 16);
    PrintStep(n / 16, 16);
    PrintStep(n / 16 / 16, 16);
    PrintStep(n / 16 / 16 / 16, 16);
    assert n / 16 / 16 == n / 256 && n / 16 / 16 / 16 == n / 4096;
  }

  // ---------- what each text names ----------

  lemma WithBits(addr: string, bits: nat, ip: ParsedIp)
    requires '/' !in addr && ParseRaw(addr) == Some(ip) && !IsMapped(ip) && bits <= Bits(ip.family)
    ensures ParseCidrWith(addr + ['/'] + Tens(bits), AnyLength) == Some(Block(ip, bits))
  {
    hide ParseRaw, IsMapped, Block, PrefixOf, Print, Unmap, Tens;
    PrintsTens(bits);
    ShortPrint(bits);
    PrefixPrinted(addr, bits, ip);
  }

  lemma BlockIs(ip: ParsedIp, bits: nat, size: nat)
    requires bits <= Bits(ip.family) && size == Power(2, Bits(ip.family) - bits) && size > 0 && ip.value % size == 0
    ensures Block(ip, bits) == Cidr(ip.family, ip.value, ip.value + size - 1)
  {
    assert ip.value / size * size == ip.value;
  }

  lemma Quad(a: nat, b: nat, c: nat, d: nat, bits: nat, size: nat)
    requires a < 256 && b < 256 && c < 256 && d < 256 && bits <= 32 && size == Power(2, 32 - bits) && size > 0
    requires (((a * 256 + b) * 256 + c) * 256 + d) % size == 0
    ensures var v := ((a * 256 + b) * 256 + c) * 256 + d;
      ParseCidrWith(DottedText(Tens(a), Tens(b), Tens(c), Tens(d)) + ['/'] + Tens(bits), AnyLength)
        == Some(Cidr(V4, v, v + size - 1))
  {
    hide *;
    var v := ((a * 256 + b) * 256 + c) * 256 + d;
    var text := DottedText(Tens(a), Tens(b), Tens(c), Tens(d));
    QuadParses(a, b, c, d);
    V4Text(text);
    RawV4(text);
    V4IsPlain(v);
    WithBits(text, bits, ParsedIp(V4, v));
    BlockIs(ParsedIp(V4, v), bits, size);
  }

  lemma V4IsPlain(v: nat)
    ensures !IsMapped(ParsedIp(V4, v)) && Bits(V4) == 32 && Bits(V6) == 128
  {
  }

  lemma QuadParses(a: nat, b: nat, c: nat, d: nat)
    requires a < 256 && b < 256 && c < 256 && d < 256
    ensures ParseV4(DottedText(Tens(a), Tens(b), Tens(c), Tens(d))) == Some(((a * 256 + b) * 256 + c) * 256 + d)
  {
    hide Print, Fold, Octets, IsOctet, Numerals, DottedText, Split, Value, Tens;
    PrintsTens(a);
    PrintsTens(b);
    PrintsTens(c);
    PrintsTens(d);
    OctetText(a);
    OctetText(b);
    OctetText(c);
    OctetText(d);
    SplitFour(Tens(a), Tens(b), Tens(c), Tens(d));
    FoldFour(Tens(a), Tens(b), Tens(c), Tens(d));
  }

  // A body of groups with "::" behind it.
  lemma ZeroEnded(body: string, head: seq<string>, x: nat, v: nat)
    requires Tidy(body) && Split(body, ':') == head && 1 <= |head| <= 7
    requires GroupTexts(head) && Numerals(head, 16) && Fold(head, 65536, 16) == x && ShiftUp(x, 8 - |head|) == v
    ensures var s := body + [':', ':'];
      '/' !in s && ParseRaw(s) == Some(ParsedIp(V6, v))
  {
    var s, n := body + [':', ':'], 8 - |head|;
    TidyText(body);
    hide *;
    EndGroups(body, head);
    ZeroGroupsAreZero(n);
    ZeroGroupsCount(n);
    ZeroTexts(ZeroGroups(n));
    GroupAppend(head, ZeroGroups(n));
    FoldZerosLast(head, ZeroGroups(n));
    V6OfGroupsIs(s, head + ZeroGroups(n));
    PlainV6(s, v);
    RawV6(s);
  }

  lemma EndGroups(body: string, head: seq<string>)
    requires Tidy(body) && Split(body, ':') == head && 1 <= |head| <= 7
    ensures Groups(body + [':', ':']) == Some(head + ZeroGroups(8 - |head|))
  {
    hide Split, SplitDouble;
    HalvesAtEnd(body, []);
    assert head + ZeroGroups(8 - |head|) + [] == head + ZeroGroups(8 - |head|);
  }

  lemma TidyText(body: string)
    requires Tidy(body)
    ensures var s := body + [':', ':'];
      '%' !in s && '.' !in s && '/' !in s && ':' in s && Trim(s) == s && Unbracket(s) == s
  {
    var s := body + [':', ':'];
    assert forall x :: x in s ==> x == ':' || IsHexDigit(x);
    hide Trim;
    assert s[0] == body[0] && s[|s| - 1] == ':' && body[0] in body;
    assert s[|s| - 1] in s;
    TrimOfTrimmed(s);
  }

  lemma HexGroup(g: nat)
    requires g < 65536
    ensures IsGroup(Hex(g)) && Value(Hex(g), 16) == g && Tidy(Hex(g)) && ':' !in Hex(g)
  {
    hide Print, Value, Hex, Tidy;
    PrintsHex(g);
    GroupText(g);
    TidyGroup(Hex(g));
  }

  lemma ShiftUps(x: nat)
    ensures ShiftUp(x, 6) == x * TWO96 && ShiftUp(x, 7) == x * TWO112
  {
    ShiftFive(x);
    assert ShiftUp(x, 6) == MulAdd(ShiftUp(x, 5), 65536, 0);
    assert ShiftUp(x, 7) == MulAdd(ShiftUp(x, 6), 65536, 0);
  }

  lemma OneGroup(g: nat)
    requires g < 65536
    ensures var s := Hex(g) + [':', ':']; '/' !in s && ParseRaw(s) == Some(ParsedIp(V6, g * TWO112))
  {
    HexGroup(g);
    ShiftUps(g);
    hide *;
    FoldOne(Hex(g));
    SplitOne(Hex(g));
    ZeroEnded(Hex(g), [Hex(g)], g, g * TWO112);
  }

  lemma FoldOne(a: string)
    requires IsGroup(a)
    ensures GroupTexts([a]) && Numerals([a], 16) && Fold([a], 65536, 16) == Value(a, 16)
  {
    FoldStep([], a, 65536, 16);
    assert [] + [a] == [a];
  }

  lemma SplitOne(a: string)
    requires ':' !in a
    ensures Split(a, ':') == [a]
  {
    SplitHead(a, ':', "");
  }

  lemma TwoGroups(g: nat, h: nat)
    requires g < 65536 && h < 65536
    ensures var s := Hex(g) + [':'] + Hex(h) + [':', ':'];
      '/' !in s && ParseRaw(s) == Some(ParsedIp(V6, (g * 65536 + h) * TWO96))
  {
    HexGroup(g);
    HexGroup(h);
    ShiftUps(g * 65536 + h);
    hide *;
    TidyJoin(Hex(g), Hex(h));
    FoldTwo(Hex(g), Hex(h));
    SplitTwo(Hex(g), Hex(h));
    ZeroEnded(Hex(g) + [':'] + Hex(h), [Hex(g), Hex(h)], g * 65536 + h, (g * 65536 + h) * TWO96);
  }

  lemma FoldTwo(a: string, b: string)
    requires IsGroup(a) && IsGroup(b)
    ensures GroupTexts([a, b]) && Numerals([a, b], 16)
    ensures Fold([a, b], 65536, 16) == Value(a, 16) * 65536 + Value(b, 16)
  {
    FoldStep([], a, 65536, 16);
    FoldStep([a], b, 65536, 16);
    assert [] + [a] == [a] && [a] + [b] == [a, b];
  }

  lemma SplitTwo(a: string, b: string)
    requires ':' !in a && ':' !in b
    ensures Split(a + [':'] + b, ':') == [a, b]
  {
    hide Split, IndexOf;
    SplitHead(a, ':', b);
    SplitHead(b, ':', "");
  }

  lemma ZeroHalves(s: string)
    requires s == "::"
    ensures Groups(s) == Some(ZeroGroups(8))
    ensures '%' !in s && '.' !in s && '/' !in s && ':' in s && Trim(s) == s && Unbracket(s) == s
  {
    assert DoubleColon(s) == 0 && s[..0] == "" && s[2..] == "";
    NoDoubleIn(s[2..]);
    assert SplitDouble(s) == [s[..0]] + SplitDouble(s[2..]) == ["", ""];
    hide SplitDouble, Split, Trim;
    assert [] + ZeroGroups(8) + [] == ZeroGroups(8);
    TrimOfTrimmed(s);
  }

  lemma ZerosAlone(s: string)
    requires s == "::"
    ensures '/' !in s && ParseRaw(s) == Some(ParsedIp(V6, 0))
  {
    hide *;
    ZeroHalves(s);
    ZeroGroupsAreZero(8);
    ZerosFold(ZeroGroups(8));
    V6OfGroupsIs(s, ZeroGroups(8));
    PlainV6(s, 0);
    RawV6(s);
  }

  lemma OneIsGroup(one: string)
    requires one == "1"
    ensures IsGroup(one) && Value(one, 16) == 1 && ':' !in one && '/' !in "::" + one
    ensures Trim("::" + one) == "::" + one && Unbracket("::" + one) == "::" + one
  {
    assert Value(one[..0], 16) == 0;
    TrimOfTrimmed("::" + one);
  }

  lemma OneHalves(one: string)
    requires one == "1"
    ensures Groups("::" + one) == Some(ZeroGroups(7) + [one])
  {
    var s := "::" + one;
    assert DoubleColon(one) == 1 && DoubleColon(s) == 0;
    assert SplitDouble(one) == [one];
    assert s[..0] == "" && s[2..] == one;
    assert SplitDouble(s) == [s[..0]] + SplitDouble(s[2..]) == ["", one];
    SplitOne(one);
    hide SplitDouble, Split;
    assert [] + ZeroGroups(7) + [one] == ZeroGroups(7) + [one];
  }

  lemma OneAlone(one: string)
    requires one == "1"
    ensures var s := "::" + one; '/' !in s && ParseRaw(s) == Some(ParsedIp(V6, 1))
  {
    var s := "::" + one;
    assert '%' !in s && '.' !in s && ':' in s;
    hide *;
    OneIsGroup(one);
    OneHalves(one);
    FoldOne(one);
    ZeroGroupsAreZero(7);
    ZerosFold(ZeroGroups(7));
    GroupAppend(ZeroGroups(7), [one]);
    FoldAfter(ZeroGroups(7), [one]);
    V6OfGroupsIs(s, ZeroGroups(7) + [one]);
    PlainV6(s, 1);
    RawV6(s);
  }

  // ---------- the list ----------

  // The block each reserved text names.
  const BLOCKS: seq<Cidr> := [
    Cidr(V4, 0, 0x00ff_ffff), Cidr(V4, 0x0a00_0000, 0x0aff_ffff), Cidr(V4, 0x6440_0000, 0x647f_ffff),
    Cidr(V4, 0x7f00_0000, 0x7fff_ffff), Cidr(V4, 0xa9fe_0000, 0xa9fe_ffff), Cidr(V4, 0xac10_0000, 0xac1f_ffff),
    Cidr(V4, 0xc000_0000, 0xc000_00ff), Cidr(V4, 0xc000_0200, 0xc000_02ff), Cidr(V4, 0xc0a8_0000, 0xc0a8_ffff),
    Cidr(V4, 0xc612_0000, 0xc613_ffff), Cidr(V4, 0xc633_6400, 0xc633_64ff), Cidr(V4, 0xcb00_7100, 0xcb00_71ff),
    Cidr(V4, 0xe000_0000, 0xefff_ffff), Cidr(V4, 0xf000_0000, 0xffff_ffff),
    Cidr(V6, 0, 0), Cidr(V6, 1, 1),
    Cidr(V6, 0x64_ff9b * TWO96, 0x64_ff9b * TWO96 + 0xffff_ffff),
    Cidr(V6, 0x100 * TWO112, 0x100 * TWO112 + 0xffff_ffff_ffff_ffff),
    Cidr(V6, 0x2001_0db8 * TWO96, 0x2001_0db9 * TWO96 - 1), Cidr(V6, 0xfc00 * TWO112, 0xfe00 * TWO112 - 1),
    Cidr(V6, 0xfe80 * TWO112, 0xfec0 * TWO112 - 1), Cidr(V6, 0xff00 * TWO112, 0x1_0000 * TWO112 - 1) ]

  lemma Powers()
    ensures Power(2, 0) == 1 && Power(2, 8) == 0x100 && Power(2, 16) == 0x1_0000 && Power(2, 17) == 0x2_0000
    ensures Power(2, 20) == 0x10_0000 && Power(2, 22) == 0x40_0000 && Power(2, 24) == 0x100_0000
    ensures Power(2, 28) == 0x1000_0000 && Power(2, 32) == TWO32 && Power(2, 64) == 0x1_0000_0000_0000_0000
    ensures Power(2, 96) == TWO96 && Power(2, 118) == 0x40 * TWO112
    ensures Power(2, 120) == 0x100 * TWO112 && Power(2, 121) == 0x200 * TWO112
  {
    assert Power(2, 1) == 2 && Power(2, 2) == 4 && Power(2, 4) == 16;
    hide *;
    PowerAdd(4, 2);
    PowerAdd(4, 4);
    PowerAdd(8, 8);
    PowerAdd(16, 1);
    PowerAdd(16, 4);
    PowerAdd(20, 2);
    PowerAdd(16, 8);
    PowerAdd(24, 4);
    PowerAdd(16, 16);
    PowerAdd(32, 32);
    PowerAdd(64, 32);
    PowerAdd(96, 16);
    PowerAdd(112, 6);
    PowerAdd(112, 8);
    PowerAdd(120, 1);
  }

  predicate ParsesTo(text: string, c: Cidr) { ParseCidrWith(text, AnyLength) == Some(c) }

  // How many addresses a block of these lengths holds.
  function SizeV4(bits: nat): nat {
    match bits
    case 4 => 0x1000_0000
    case 8 => 0x100_0000
    case 10 => 0x40_0000
    case 12 => 0x10_0000
    case 15 => 0x2_0000
    case 16 => 0x1_0000
    case 24 => 0x100
    case _ => 0
  }

  function SizeV6(bits: nat): nat {
    match bits
    case 7 => 0x200 * TWO112
    case 8 => 0x100 * TWO112
    case 10 => 0x40 * TWO112
    case 32 => TWO96
    case 64 => 0x1_0000_0000_0000_0000
    case 96 => TWO32
    case 128 => 1
    case _ => 0
  }

  lemma SizesAre(bits: nat)
    ensures SizeV4(bits) > 0 ==> bits <= 32 && SizeV4(bits) == Power(2, 32 - bits)
    ensures SizeV6(bits) > 0 ==> bits <= 128 && SizeV6(bits) == Power(2, 128 - bits)
  {
    hide Power;
    Powers();
  }

  // A reserved IPv4 text and its block.
  lemma QuadText(text: string, a: nat, b: nat, c: nat, d: nat, bits: nat, first: nat, last: nat)
    requires a < 256 && b < 256 && c < 256 && d < 256 && bits <= 32 && SizeV4(bits) > 0
    requires first == ((a * 256 + b) * 256 + c) * 256 + d && first % SizeV4(bits) == 0
    requires last == first + SizeV4(bits) - 1
    requires text == Tens(a) + ['.'] + (Tens(b) + ['.'] + (Tens(c) + ['.'] + Tens(d))) + ['/'] + Tens(bits)
    ensures ParsesTo(text, Cidr(V4, first, last))
  {
    hide Tens, Power, ParseCidrWith, SizeV4;
    SizesAre(bits);
    Quad(a, b, c, d, bits, SizeV4(bits));
  }

  lemma V6Text(text: string, addr: string, v: nat, bits: nat, last: nat)
    requires '/' !in addr && ParseRaw(addr) == Some(ParsedIp(V6, v)) && v / TWO32 != 0xffff
    requires bits <= 128 && SizeV6(bits) > 0 && v % SizeV6(bits) == 0 && last == v + SizeV6(bits) - 1
    requires text == addr + ['/'] + Tens(bits)
    ensures ParsesTo(text, Cidr(V6, v, last))
  {
    hide Tens, Power, ParseCidrWith, ParseRaw, SizeV6;
    SizesAre(bits);
    WithBits(addr, bits, ParsedIp(V6, v));
    BlockIs(ParsedIp(V6, v), bits, SizeV6(bits));
  }

  lemma ThisNetworkTexts()
    ensures ParsesTo("0.0.0.0/8", Cidr(V4, 0x0000_0000, 0x00ff_ffff))
    ensures ParsesTo("10.0.0.0/8", Cidr(V4, 0x0a00_0000, 0x0aff_ffff))
  {
    hide ParsesTo;
    QuadText("0.0.0.0/8", 0, 0, 0, 0, 8, 0x0000_0000, 0x00ff_ffff);
    QuadText("10.0.0.0/8", 10, 0, 0, 0, 8, 0x0a00_0000, 0x0aff_ffff);
  }

  lemma SharedTexts()
    ensures ParsesTo("100.64.0.0/10", Cidr(V4, 0x6440_0000, 0x647f_ffff))
    ensures ParsesTo("127.0.0.0/8", Cidr(V4, 0x7f00_0000, 0x7fff_ffff))
  {
    hide ParsesTo;
    QuadText("100.64.0.0/10", 100, 64, 0, 0, 10, 0x6440_0000, 0x647f_ffff);
    QuadText("127.0.0.0/8", 127, 0, 0, 0, 8, 0x7f00_0000, 0x7fff_ffff);
  }

  lemma LinkLocalTexts()
    ensures ParsesTo("169.254.0.0/16", Cidr(V4, 0xa9fe_0000, 0xa9fe_ffff))
    ensures ParsesTo("172.16.0.0/12", Cidr(V4, 0xac10_0000, 0xac1f_ffff))
  {
    hide ParsesTo;
    QuadText("169.254.0.0/16", 169, 254, 0, 0, 16, 0xa9fe_0000, 0xa9fe_ffff);
    QuadText("172.16.0.0/12", 172, 16, 0, 0, 12, 0xac10_0000, 0xac1f_ffff);
  }

  lemma ProtocolTexts()
    ensures ParsesTo("192.0.0.0/24", Cidr(V4, 0xc000_0000, 0xc000_00ff))
    ensures ParsesTo("192.0.2.0/24", Cidr(V4, 0xc000_0200, 0xc000_02ff))
  {
    hide ParsesTo;
    QuadText("192.0.0.0/24", 192, 0, 0, 0, 24, 0xc000_0000, 0xc000_00ff);
    QuadText("192.0.2.0/24", 192, 0, 2, 0, 24, 0xc000_0200, 0xc000_02ff);
  }

  lemma PrivateTexts()
    ensures ParsesTo("192.168.0.0/16", Cidr(V4, 0xc0a8_0000, 0xc0a8_ffff))
    ensures ParsesTo("198.18.0.0/15", Cidr(V4, 0xc612_0000, 0xc613_ffff))
  {
    hide ParsesTo;
    QuadText("192.168.0.0/16", 192, 168, 0, 0, 16, 0xc0a8_0000, 0xc0a8_ffff);
    QuadText("198.18.0.0/15", 198, 18, 0, 0, 15, 0xc612_0000, 0xc613_ffff);
  }

  lemma TestTexts()
    ensures ParsesTo("198.51.100.0/24", Cidr(V4, 0xc633_6400, 0xc633_64ff))
    ensures ParsesTo("203.0.113.0/24", Cidr(V4, 0xcb00_7100, 0xcb00_71ff))
  {
    hide ParsesTo;
    QuadText("198.51.100.0/24", 198, 51, 100, 0, 24, 0xc633_6400, 0xc633_64ff);
    QuadText("203.0.113.0/24", 203, 0, 113, 0, 24, 0xcb00_7100, 0xcb00_71ff);
  }

  lemma MulticastTexts()
    ensures ParsesTo("224.0.0.0/4", Cidr(V4, 0xe000_0000, 0xefff_ffff))
    ensures ParsesTo("240.0.0.0/4", Cidr(V4, 0xf000_0000, 0xffff_ffff))
  {
    hide ParsesTo;
    QuadText("224.0.0.0/4", 224, 0, 0, 0, 4, 0xe000_0000, 0xefff_ffff);
    QuadText("240.0.0.0/4", 240, 0, 0, 0, 4, 0xf000_0000, 0xffff_ffff);
  }

  lemma ShortTexts()
    ensures ParsesTo("::/128", Cidr(V6, 0, 0)) && ParsesTo("::1/128", Cidr(V6, 1, 1))
  {
    hide ParsesTo, ParseRaw;
    ZerosAlone("::");
    OneAlone("1");
    V6Text("::/128", "::", 0, 128, 0);
    V6Text("::1/128", "::" + "1", 1, 128, 1);
  }

  lemma OneGroupText(text: string, g: nat, bits: nat, last: nat)
    requires g < 65536 && g != 0 && bits <= 16 && SizeV6(bits) > 0
    requires g * TWO112 % SizeV6(bits) == 0 && last == g * TWO112 + SizeV6(bits) - 1
    requires text == Hex(g) + [':', ':'] + ['/'] + Tens(bits)
    ensures ParsesTo(text, Cidr(V6, g * TWO112, last))
  {
    hide Hex, Tens, ParseRaw, ParsesTo, SizeV6;
    OneGroup(g);
    FarFromMapped(g * 65536);
    V6Text(text, Hex(g) + [':', ':'], g * TWO112, bits, last);
  }

  lemma FarFromMapped(x: nat)
    requires x > 0
    ensures x * TWO96 / TWO32 != 0xffff
  {
    assert x * TWO96 == x * 0x1_0000_0000_0000_0000 * TWO32;
    assert x * TWO96 / TWO32 == x * 0x1_0000_0000_0000_0000;
  }

  lemma TwoGroupsText(text: string, g: nat, h: nat, bits: nat, last: nat)
    requires g < 65536 && h < 65536 && g != 0 && SizeV6(bits) > 0 && bits <= 128
    requires var v := (g * 65536 + h) * TWO96; v % SizeV6(bits) == 0 && last == v + SizeV6(bits) - 1
    requires text == Hex(g) + [':'] + Hex(h) + [':', ':'] + ['/'] + Tens(bits)
    ensures ParsesTo(text, Cidr(V6, (g * 65536 + h) * TWO96, last))
  {
    hide Hex, Tens, ParseRaw, ParsesTo, SizeV6;
    TwoGroups(g, h);
    FarFromMapped(g * 65536 + h);
    V6Text(text, Hex(g) + [':'] + Hex(h) + [':', ':'], (g * 65536 + h) * TWO96, bits, last);
  }

  lemma TwoGroupTexts()
    ensures ParsesTo("64:ff9b::/96", Cidr(V6, 0x64_ff9b * TWO96, 0x64_ff9b * TWO96 + 0xffff_ffff))
    ensures ParsesTo("2001:db8::/32", Cidr(V6, 0x2001_0db8 * TWO96, 0x2001_0db9 * TWO96 - 1))
  {
    hide ParsesTo;
    TwoGroupsText("64:ff9b::/96", 0x64, 0xff9b, 96, 0x64_ff9b * TWO96 + 0xffff_ffff);
    TwoGroupsText("2001:db8::/32", 0x2001, 0xdb8, 32, 0x2001_0db9 * TWO96 - 1);
  }

  lemma OneGroupTexts()
    ensures ParsesTo("fc00::/7", Cidr(V6, 0xfc00 * TWO112, 0xfe00 * TWO112 - 1))
    ensures ParsesTo("fe80::/10", Cidr(V6, 0xfe80 * TWO112, 0xfec0 * TWO112 - 1))
    ensures ParsesTo("ff00::/8", Cidr(V6, 0xff00 * TWO112, 0x1_0000 * TWO112 - 1))
  {
    hide ParsesTo;
    OneGroupText("fc00::/7", 0xfc00, 7, 0xfe00 * TWO112 - 1);
    OneGroupText("fe80::/10", 0xfe80, 10, 0xfec0 * TWO112 - 1);
    OneGroupText("ff00::/8", 0xff00, 8, 0x1_0000 * TWO112 - 1);
  }

  lemma DiscardText()
    ensures ParsesTo("100::/64", Cidr(V6, 0x100 * TWO112, 0x100 * TWO112 + 0xffff_ffff_ffff_ffff))
  {
    hide ParsesTo, ParseRaw;
    OneGroup(0x100);
    V6Text("100::/64", Hex(0x100) + [':', ':'], 0x100 * TWO112, 64, 0x100 * TWO112 + 0xffff_ffff_ffff_ffff);
  }

  lemma ReservedTexts()
    ensures |RESERVED| == |BLOCKS| == 22 && forall k :: 0 <= k < 22 ==> ParsesTo(RESERVED[k], BLOCKS[k])
  {
    hide ParsesTo;
    ThisNetworkTexts();
    SharedTexts();
    LinkLocalTexts();
    ProtocolTexts();
    PrivateTexts();
    TestTexts();
    MulticastTexts();
    ShortTexts();
    TwoGroupTexts();
    OneGroupTexts();
    DiscardText();
  }

  lemma BlocksAreReserved(ip: ParsedIp)
    ensures (exists k :: 0 <= k < |BLOCKS| && Contains(BLOCKS[k], ip)) <==> Reserved(ip)
  {
    if Reserved(ip) {
      var k := if ip.family.V4? then BlockOfV4(ip.value) else BlockOfV6(ip.value);
      assert Contains(BLOCKS[k], ip);
    }
  }

  function BlockOfV4(v: nat): (k: nat)
    ensures k < 14
  {
    if v <= 0x00ff_ffff then 0
    else if v <= 0x0aff_ffff then 1
    else if v <= 0x647f_ffff then 2
    else if v <= 0x7fff_ffff then 3
    else if v <= 0xa9fe_ffff then 4
    else if v <= 0xac1f_ffff then 5
    else if v <= 0xc000_00ff then 6
    else if v <= 0xc000_02ff then 7
    else if v <= 0xc0a8_ffff then 8
    else if v <= 0xc613_ffff then 9
    else if v <= 0xc633_64ff then 10
    else if v <= 0xcb00_71ff then 11
    else if v <= 0xefff_ffff then 12
    else 13
  }

  function BlockOfV6(v: nat): (k: nat)
    ensures 14 <= k < 22
  {
    if v == 0 then 14
    else if v == 1 then 15
    else if v < 0x65_0000 * TWO96 then 16
    else if v < 0x101 * TWO112 then 17
    else if v < 0x2001_0db9 * TWO96 then 18
    else if v < 0xfe00 * TWO112 then 19
    else if v < 0xfec0 * TWO112 then 20
    else 21
  }

  // The compiled list of reserved prefixes holds exactly the addresses of those intervals.
  lemma ReservedIsExact(ip: ParsedIp)
    ensures FromCidrs(Parsed(RESERVED, AnyLength)).Has(ip) <==> Reserved(ip)
  {
    hide FromCidrs, Parsed, Contains, Reserved, ParsesTo;
    ReservedTexts();
    BlocksAreReserved(ip);
    TextsAreBlocks(RESERVED, BLOCKS, ip);
  }

  lemma TextsAreBlocks(texts: seq<string>, blocks: seq<Cidr>, ip: ParsedIp)
    requires |texts| == |blocks| && forall k :: 0 <= k < |texts| ==> ParsesTo(texts[k], blocks[k])
    ensures FromCidrs(Parsed(texts, AnyLength)).Has(ip) <==> exists k :: 0 <= k < |blocks| && Contains(blocks[k], ip)
  {
    hide FromCidrs, Parsed, Contains, ParseCidrWith;
    var cidrs := Parsed(texts, AnyLength);
    ParsedMembers(texts, AnyLength, Cidr(V4, 0, 0));
    HasIsContained(cidrs, ip);
    if AnyContains(cidrs, ip) {
      var i :| 0 <= i < |cidrs| && Contains(cidrs[i], ip);
      ParsedMembers(texts, AnyLength, cidrs[i]);
      var t :| t in texts && ParseCidrWith(t, AnyLength) == Some(cidrs[i]);
      var k :| 0 <= k < |texts| && texts[k] == t;
      assert ParsesTo(texts[k], blocks[k]);
    }
    if k :| 0 <= k < |blocks| && Contains(blocks[k], ip) {
      assert ParsesTo(texts[k], blocks[k]) && texts[k] in texts;
      ParsedMembers(texts, AnyLength, blocks[k]);
      var i :| 0 <= i < |cidrs| && cidrs[i] == blocks[k];
    }
  }

  // ---------- the caller's own public address ----------

  // Some text of some proxy list of the document names the address.
  ghost predicate FromProxy(doc: Document, ip: ParsedIp) {
    exists k, t :: 0 <= k < |doc.proxies| && t in doc.proxies[k] && Names(t, ip)
  }

  // A request is judged by its address exactly when it shows one that no listed proxy text names and no
  // reserved block holds.
  lemma UsableExactly(doc: Document, ctx: Context, ip: ParsedIp)
    requires ctx.ranges == Some(CompileRanges(doc))
    ensures UsableIp(ctx) == Some(ip) <==> ClientIp(ctx) == Some(ip) && !FromProxy(doc, ip) && !Reserved(ip)
  {
    hide Names, Reserved, ClientIp, FromStrings, FromCidrs, Parsed;
    ReservedIsExact(ip);
    var proxies := CompileRanges(doc).proxies;
    forall k | 0 <= k < |proxies| ensures proxies[k].Has(ip) <==> exists t :: t in doc.proxies[k] && Names(t, ip) {
      HasIsListed(doc.proxies[k], ip);
    }
    assert |proxies| == |doc.proxies|;
    assert (exists k :: 0 <= k < |proxies| && proxies[k].Has(ip)) <==> FromProxy(doc, ip);
  }

  // From an address a listed proxy text names, or a reserved one, no claim is judged by address: none is
  // called forged and none verified by it.
  lemma ProxiesAreNotJudged(doc: Document, ua: string, signerHost: Option<string>, ctx: Context, ip: ParsedIp)
    requires ctx.ranges == Some(CompileRanges(doc)) && ClientIp(ctx) == Some(ip)
    requires FromProxy(doc, ip) || Reserved(ip)
    requires CheckIdentity(ua, signerHost, ctx).Some?
    ensures forall claim :: claim in CheckIdentity(ua, signerHost, ctx).value.claims ==>
      claim.check != Forged && claim.check != IpVerified
  {
    hide CheckIdentity, CompileRanges, FromProxy, Reserved, ClientIp;
    UsableExactly(doc, ctx, ip);
    UsableIsClient(ctx);
    forall claim | claim in CheckIdentity(ua, signerHost, ctx).value.claims
      ensures claim.check != Forged && claim.check != IpVerified
    {
      ClaimIsChecked(ua, signerHost, ctx, claim);
      Unjudged(claim.operatorId, claim.fragment, signerHost, ctx);
    }
  }

  lemma Unjudged(id: string, fragment: string, signerHost: Option<string>, ctx: Context)
    requires UsableIp(ctx).None?
    ensures var check := CheckClaim(id, fragment, signerHost, ctx); check != Forged && check != IpVerified
  {
    hide UsableIp, Operator;
  }
}
