// Address and prefix arithmetic for both families. Bitwise steps of the source are written as the
// division and remainder by a power of two that they compute.
module IpAddress {
  import opened Wrappers
  import opened Text

  datatype Family = V4 | V6

  datatype ParsedIp = ParsedIp(family: Family, value: nat)

  datatype Cidr = Cidr(family: Family, first: nat, last: nat)

  const MIN_PREFIX_V4: nat := 12
  const MIN_PREFIX_V6: nat := 28
  const TWO32: nat := 0x1_0000_0000

  const TWO128: nat := 0x1_0000_0000_0000_0000_0000_0000_0000_0000

  // A value its family has room for.
  predicate ValidIp(ip: ParsedIp) { ip.value < if ip.family.V4? then TWO32 else TWO128 }

  function Bits(family: Family): nat { if family.V4? then 32 else 128 }

  function MinPrefix(family: Family): nat { if family.V4? then MIN_PREFIX_V4 else MIN_PREFIX_V6 }

  // ---------- addresses ----------

  predicate IsOctet(p: string) { 1 <= |p| <= 3 && AllDigits(p) && IsNumeral(p, 10) && Value(p, 10) <= 255 }

  predicate IsGroup(g: string) { 1 <= |g| <= 4 && IsNumeral(g, 16) }

  predicate Numerals(parts: seq<string>, numeral: nat) {
    forall k :: 0 <= k < |parts| ==> IsNumeral(parts[k], numeral)
  }

  // ((p0 << 8 | p1) << 8 | ...) over the parts, in the given base.
  function Fold(parts: seq<string>, base: nat, numeral: nat): nat
    requires Numerals(parts, numeral)
  {
    if parts == [] then 0
    else MulAdd(Fold(parts[..|parts| - 1], base, numeral), base, Value(parts[|parts| - 1], numeral))
  }

  predicate Octets(parts: seq<string>) { forall k :: 0 <= k < |parts| ==> IsOctet(parts[k]) }

  predicate GroupTexts(parts: seq<string>) { forall k :: 0 <= k < |parts| ==> IsGroup(parts[k]) }

  function ParseV4(s: string): Option<nat> {
    var parts := Split(s, '.');
    if |parts| == 4 && Octets(parts) then Some(Fold(parts, 256, 10)) else None
  }

  method ParseV4Loop(s: string) returns (r: Option<nat>)
    ensures r == ParseV4(s)
  {
    var parts := Split(s, '.');
    if |parts| != 4 { return None; }
    var v, i := 0, 0;
    while i < |parts|
      invariant 0 <= i <= |parts| && Octets(parts[..i])
      invariant Numerals(parts[..i], 10) && v == Fold(parts[..i], 256, 10)
    {
      if !IsOctet(parts[i]) { return None; }
      assert parts[..i + 1][..i] == parts[..i];
      v := v * 256 + Value(parts[i], 10);
      i := i + 1;
    }
    assert parts[..4] == parts;
    return Some(v);
  }

  function SplitDouble(s: string): (parts: seq<string>)
    ensures |parts| > 0
    decreases |s|
  {
    var k := DoubleColon(s);
    if k == |s| then [s] else [s[..k]] + SplitDouble(s[k + 2..])
  }

  // Where "::" first stands; |s| when nowhere.
  function DoubleColon(s: string): (k: nat)
    ensures k <= |s| && (k < |s| ==> k + 2 <= |s| && s[k] == ':' && s[k + 1] == ':')
  {
    if |s| < 2 then |s|
    else if s[0] == ':' && s[1] == ':' then 0
    else 1 + DoubleColon(s[1..])
  }

  function LastColon(s: string): (k: int)
    ensures -1 <= k < |s| && (k >= 0 ==> s[k] == ':')
  {
    if s == [] then -1 else if s[|s| - 1] == ':' then |s| - 1 else LastColon(s[..|s| - 1])
  }

  function SplitGroups(half: string): seq<string> {
    if half == [] then [] else Split(half, ':')
  }

  // The eight groups of a v6 text without zone or dotted tail.
  function Groups(s: string): Option<seq<string>> {
    var halves := SplitDouble(s);
    var head := SplitGroups(halves[0]);
    if |halves| > 2 then None
    else if |halves| == 1 then (if |head| == 8 then Some(head) else None)
    else
      var rest := SplitGroups(halves[1]);
      if |head| + |rest| > 7 then None
      else Some(head + seq(8 - |head| - |rest|, _ => "0") + rest)
  }

  function V6OfGroups(s: string): Option<nat> {
    match Groups(s)
    case None => None
    case Some(groups) =>
      if GroupTexts(groups) then Some(Fold(groups, 65536, 16)) else None
  }

  // The text up to its last colon, with two zero groups where the dotted tail stood.
  function ZeroTail(s: string, k: nat): string
    requires k < |s|
  {
    s[..k + 1] + "0:0"
  }

  // The low 32 bits replaced by the dotted tail's.
  function WithTail(v: nat, tail: nat): nat { v - v % TWO32 + tail }

  function ParseV6(input: string): Option<nat> {
    var s := input[..IndexOf(input, '%')];
    if '.' !in s then V6OfGroups(s)
    else
      var k := LastColon(s);
      if k < 0 then None
      else
        match ParseV4(s[k + 1..])
        case None => None
        case Some(tail) =>
          match V6OfGroups(ZeroTail(s, k))
          case None => None
          case Some(v) => Some(WithTail(v, tail))
  }

  method FoldGroups(groups: seq<string>) returns (r: Option<nat>)
    ensures r == if GroupTexts(groups) then Some(Fold(groups, 65536, 16)) else None
  {
    var v, i := 0, 0;
    while i < |groups|
      invariant 0 <= i <= |groups| && GroupTexts(groups[..i])
      invariant Numerals(groups[..i], 16) && v == Fold(groups[..i], 65536, 16)
    {
      if !IsGroup(groups[i]) { return None; }
      assert groups[..i + 1][..i] == groups[..i];
      v := v * 65536 + Value(groups[i], 16);
      i := i + 1;
    }
    assert groups[..|groups|] == groups;
    return Some(v);
  }

  method ParseV6Loop(input: string) returns (r: Option<nat>)
    ensures r == ParseV6(input)
  {
    var s := input[..IndexOf(input, '%')];
    var tail: Option<nat> := None;
    if '.' in s {
      var k := LastColon(s);
      if k < 0 { return None; }
      tail := ParseV4Loop(s[k + 1..]);
      if tail.None? { return None; }
      s := ZeroTail(s, k);
    }
    var groups := Groups(s);
    if groups.None? { return None; }
    var v := FoldGroups(groups.value);
    if v.None? || tail.None? { return v; }
    return Some(WithTail(v.value, tail.value));
  }

  function Unbracket(s: string): string {
    if |s| >= 2 && s[0] == '[' && s[|s| - 1] == ']' then s[1..|s| - 1] else s
  }

  function ParseRaw(input: string): Option<ParsedIp> {
    var s := Unbracket(Trim(input));
    if s == [] then None
    else if ':' in s then
      match ParseV6(s)
      case None => None
      case Some(v) => Some(ParsedIp(V6, v))
    else
      match ParseV4(s)
      case None => None
      case Some(v) => Some(ParsedIp(V4, v))
  }

  predicate IsMapped(ip: ParsedIp) { ip.family.V6? && ip.value / TWO32 == 0xffff }

  function Unmap(ip: ParsedIp): ParsedIp {
    if IsMapped(ip) then ParsedIp(V4, ip.value % TWO32) else ip
  }

  function ParseIp(s: string): Option<ParsedIp> {
    match ParseRaw(s)
    case None => None
    case Some(ip) => Some(Unmap(ip))
  }

  // ---------- prefixes ----------

  // The address and prefix length a text names, an IPv4-mapped one as the IPv4 prefix it is.
  function PrefixOf(s: string): Option<(ParsedIp, nat)> {
    var slash := IndexOf(s, '/');
    if slash == |s| then None
    else
      var lenStr := Trim(s[slash + 1..]);
      if !(1 <= |lenStr| <= 3 && AllDigits(lenStr) && IsNumeral(lenStr, 10)) then None
      else
        match ParseRaw(s[..slash])
        case None => None
        case Some(ip) =>
          var bits := Value(lenStr, 10);
          if IsMapped(ip) && bits >= 96 then Some((Unmap(ip), bits - 96)) else Some((ip, bits))
  }

  function Leading(v: nat, size: nat): nat
    requires size > 0
  {
    v / size
  }

  // v with its low bits cleared, for a block of `size` addresses.
  function FloorTo(v: nat, size: nat): nat
    requires size > 0
  {
    Leading(v, size) * size
  }

  function BlockSize(family: Family, bits: nat): (size: nat)
    requires bits <= Bits(family)
    ensures size > 0
  {
    PowerPositive(Bits(family) - bits);
    Power(2, Bits(family) - bits)
  }

  function Block(ip: ParsedIp, bits: nat): Cidr
    requires bits <= Bits(ip.family)
  {
    var size := BlockSize(ip.family, bits);
    var first := FloorTo(ip.value, size);
    Cidr(ip.family, first, first + size - 1)
  }

  function ParseCidrWith(s: string, min: Family -> nat): Option<Cidr> {
    match PrefixOf(s)
    case None => None
    case Some((ip, bits)) =>
      if bits > Bits(ip.family) || bits < min(ip.family) then None else Some(Block(ip, bits))
  }

  function ParseCidr(s: string): Option<Cidr> { ParseCidrWith(s, MinPrefix) }

  lemma {:induction false} PowerPositive(e: nat)
    ensures Power(2, e) > 0
  {
    if e > 0 { PowerPositive(e - 1); }
  }

  predicate Contains(c: Cidr, ip: ParsedIp) {
    c.family == ip.family && c.first <= ip.value <= c.last
  }

  // Same family, and the same leading bits.
  predicate AgreeOnBits(a: ParsedIp, b: ParsedIp, bits: nat)
    requires bits <= Bits(a.family)
  {
    a.family == b.family
    && Leading(a.value, BlockSize(a.family, bits)) == Leading(b.value, BlockSize(a.family, bits))
  }

  lemma LeadingIsFloor(a: nat, b: nat, size: nat)
    requires size > 0
    ensures Leading(a, size) == Leading(b, size) <==> FloorTo(a, size) <= b <= FloorTo(a, size) + size - 1
  {
    var q, p, t := a / size, b / size, b % size;
    assert b == p * size + t;
    MulOrder(q, p, size);
    MulOrder(p, q, size);
  }

  lemma MulOrder(q: nat, p: nat, size: nat)
    ensures q < p ==> q * size + size <= p * size
  {
    MulMonotone(q + 1, p, size);
  }

  // A prefix holds exactly the addresses that agree with it on its leading bits.
  lemma PrefixIsItsLeadingBits(s: string, ip: ParsedIp)
    requires ParseCidr(s).Some?
    ensures PrefixOf(s).Some?
    ensures var (named, bits) := PrefixOf(s).value;
            && bits <= Bits(named.family)
            && (Contains(ParseCidr(s).value, ip) <==> AgreeOnBits(named, ip, bits))
  {
    var (named, bits) := PrefixOf(s).value;
    LeadingIsFloor(named.value, ip.value, BlockSize(named.family, bits));
  }

  lemma CidrIsOrdered(s: string, min: Family -> nat)
    requires ParseCidrWith(s, min).Some?
    ensures ParseCidrWith(s, min).value.first <= ParseCidrWith(s, min).value.last
  {
  }
}
