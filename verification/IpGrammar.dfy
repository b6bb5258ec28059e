// The addresses that are understood, spelled out: four decimal parts, or up to eight hexadecimal groups
// with at most one run of zeros left out.
module IpGrammar {
  import opened Wrappers
  import opened Text
  import opened IpAddress
  import opened IpSpelling

  // ---------- IPv4 ----------

  predicate OctetSpelling(s: string) { 1 <= |s| <= 3 && Digits(s) && Number(s) <= 255 }

  lemma OctetIsSpelled(s: string)
    ensures IsOctet(s) <==> OctetSpelling(s)
    ensures IsOctet(s) ==> Value(s, 10) == Number(s)
  {
    if Digits(s) { NumberIsValue(s); }
  }

  lemma {:induction false} SplitRejoins(s: string, c: char)
    ensures Join(Split(s, c), [c]) == s
    decreases |s|
  {
    var k := IndexOf(s, c);
    if k < |s| {
      SplitRejoins(s[k + 1..], c);
      assert s == s[..k] + [c] + s[k + 1..];
      assert ([s[..k]] + Split(s[k + 1..], c))[1..] == Split(s[k + 1..], c);
    }
  }

  lemma FourJoined(a: string, b: string, c: string, d: string)
    ensures Join([a, b, c, d], ['.']) == DottedText(a, b, c, d)
  {
    assert [a, b, c, d][1..] == [b, c, d] && [b, c, d][1..] == [c, d] && [c, d][1..] == [d];
    assert Join([d], ['.']) == d;
    assert Join([c, d], ['.']) == c + ['.'] + d;
    assert Join([b, c, d], ['.']) == b + ['.'] + (c + ['.'] + d);
    assert Join([a, b, c, d], ['.']) == a + ['.'] + (b + ['.'] + (c + ['.'] + d));
  }

  predicate QuadSpells(a: string, b: string, c: string, d: string, s: string, v: nat) {
    && s == DottedText(a, b, c, d)
    && OctetSpelling(a) && OctetSpelling(b) && OctetSpelling(c) && OctetSpelling(d)
    && v == Number(a) * 0x100_0000 + Number(b) * 0x1_0000 + Number(c) * 0x100 + Number(d)
  }

  // A text is read as an IPv4 address if and only if it is four numbers up to 255, in at most three digits
  // each, with stops between them.
  lemma V4Exactly(s: string, v: nat)
    ensures ParseV4(s) == Some(v)
       <==> exists a: string, b: string, c: string, d: string :: QuadSpells(a, b, c, d, s, v)
  {
    hide Split, Join, Fold, IsOctet, Number, Value, OctetSpelling, DottedText;
    if ParseV4(s) == Some(v) {
      var parts := Split(s, '.');
      SplitRejoins(s, '.');
      var a, b, c, d := parts[0], parts[1], parts[2], parts[3];
      assert parts == [a, b, c, d];
      FourJoined(a, b, c, d);
      QuadValue(a, b, c, d);
      assert QuadSpells(a, b, c, d, s, v);
    }
    if a: string, b: string, c: string, d: string :| QuadSpells(a, b, c, d, s, v) {
      NoStops(a);
      NoStops(b);
      NoStops(c);
      NoStops(d);
      SplitFour(a, b, c, d);
      OctetIsSpelled(a);
      OctetIsSpelled(b);
      OctetIsSpelled(c);
      OctetIsSpelled(d);
      QuadValue(a, b, c, d);
    }
  }

  lemma NoStops(s: string)
    requires OctetSpelling(s)
    ensures '.' !in s
  {
  }

  lemma QuadValue(a: string, b: string, c: string, d: string)
    requires IsOctet(a) && IsOctet(b) && IsOctet(c) && IsOctet(d)
    ensures OctetSpelling(a) && OctetSpelling(b) && OctetSpelling(c) && OctetSpelling(d)
    ensures Octets([a, b, c, d]) && Numerals([a, b, c, d], 10)
    ensures Fold([a, b, c, d], 256, 10)
         == Number(a) * 0x100_0000 + Number(b) * 0x1_0000 + Number(c) * 0x100 + Number(d)
  {
    hide Fold, IsOctet, Number, Value, OctetSpelling;
    OctetIsSpelled(a);
    OctetIsSpelled(b);
    OctetIsSpelled(c);
    OctetIsSpelled(d);
    FoldFour(a, b, c, d);
  }

  // ---------- IPv6 ----------

  predicate HexDigit(c: char) { '0' <= c <= '9' || 'a' <= c <= 'f' || 'A' <= c <= 'F' }

  function HexValue(c: char): nat
    requires HexDigit(c)
  {
    if c <= '9' then c as int - '0' as int
    else if c <= 'F' then c as int - 'A' as int + 10
    else c as int - 'a' as int + 10
  }

  predicate GroupSpelling(s: string) { 1 <= |s| <= 4 && forall k :: 0 <= k < |s| ==> HexDigit(s[k]) }

  function HexNumber(s: string): nat
    requires forall k :: 0 <= k < |s| ==> HexDigit(s[k])
  {
    if s == [] then 0 else HexNumber(s[..|s| - 1]) * 16 + HexValue(s[|s| - 1])
  }

  predicate GroupSpellings(groups: seq<string>) { forall k :: 0 <= k < |groups| ==> GroupSpelling(groups[k]) }

  // The number the groups stand for, sixteen bits each.
  function GroupsNumber(groups: seq<string>): nat
    requires GroupSpellings(groups)
  {
    if groups == [] then 0 else GroupsNumber(groups[..|groups| - 1]) * 0x1_0000 + HexNumber(groups[|groups| - 1])
  }

  lemma {:induction false} HexIsValue(s: string)
    requires forall k :: 0 <= k < |s| ==> HexDigit(s[k])
    ensures IsNumeral(s, 16) && Value(s, 16) == HexNumber(s)
  {
    if s != [] { HexIsValue(s[..|s| - 1]); }
  }

  lemma GroupIsSpelled(s: string)
    ensures IsGroup(s) <==> GroupSpelling(s)
    ensures IsGroup(s) ==> Value(s, 16) == HexNumber(s)
  {
    if forall k :: 0 <= k < |s| ==> HexDigit(s[k]) { HexIsValue(s); }
  }

  lemma {:induction false} GroupsAreSpelled(groups: seq<string>)
    ensures GroupTexts(groups) <==> GroupSpellings(groups)
    ensures GroupTexts(groups) ==> Numerals(groups, 16) && Fold(groups, 65536, 16) == GroupsNumber(groups)
  {
    hide IsGroup, GroupSpelling, Value, HexNumber;
    forall k | 0 <= k < |groups| ensures IsGroup(groups[k]) <==> GroupSpelling(groups[k]) { GroupIsSpelled(groups[k]); }
    if groups != [] {
      GroupsAreSpelled(groups[..|groups| - 1]);
      GroupIsSpelled(groups[|groups| - 1]);
      if GroupTexts(groups) { NumeralGroups(groups); }
    }
  }

  lemma NumeralGroups(groups: seq<string>)
    requires GroupTexts(groups)
    ensures Numerals(groups, 16)
  {
  }

  function Colons(groups: seq<string>): string { Join(groups, [':']) }

  // No two colons side by side.
  lemma {:induction false} ColonsAreTidy(groups: seq<string>)
    requires GroupSpellings(groups) && groups != []
    ensures Tidy(Colons(groups)) && Split(Colons(groups), ':') == groups
  {
    var first := groups[0];
    GroupIsSpelled(first);
    TidyGroup(first);
    hide Tidy, Split, GroupSpelling, IsGroup, Colons;
    if |groups| == 1 {
      OneColon(groups);
      SplitHead(first, ':', "");
    } else {
      var rest := Colons(groups[1..]);
      ColonsAreTidy(groups[1..]);
      ColonsCons(groups);
      TidyJoin(first, rest);
      SplitHead(first, ':', rest);
    }
  }

  lemma OneColon(groups: seq<string>)
    requires |groups| == 1
    ensures Colons(groups) == groups[0] && groups == [groups[0]]
  {
  }

  lemma ColonsCons(groups: seq<string>)
    requires |groups| > 1
    ensures Colons(groups) == groups[0] + [':'] + Colons(groups[1..]) && groups == [groups[0]] + groups[1..]
  {
  }

  lemma GroupsOfColons(groups: seq<string>)
    requires GroupSpellings(groups)
    ensures SplitGroups(Colons(groups)) == groups && NoPair(Colons(groups))
    ensures Colons(groups) == [] <==> groups == []
    ensures Colons(groups) != [] ==> Colons(groups)[0] != ':' && Colons(groups)[|Colons(groups)| - 1] != ':'
  {
    hide Split;
    if groups != [] { ColonsAreTidy(groups); }
  }

  lemma {:induction false} NoPairNoDouble(s: string)
    requires NoPair(s)
    ensures DoubleColon(s) == |s| && SplitDouble(s) == [s]
  {
    if |s| >= 2 { NoPairNoDouble(s[1..]); }
  }

  lemma {:induction false} FirstDouble(head: string, tail: string)
    requires NoPair(head) && (head != [] ==> head[|head| - 1] != ':')
    ensures DoubleColon(head + "::" + tail) == |head|
  {
    var s := head + "::" + tail;
    if |head| >= 1 {
      assert s[1..] == head[1..] + "::" + tail;
      FirstDouble(head[1..], tail);
    }
  }

  lemma HalvesOf(head: string, tail: string)
    requires NoPair(head) && NoPair(tail) && (head != [] ==> head[|head| - 1] != ':')
    ensures SplitDouble(head + "::" + tail) == [head, tail]
  {
    var s := head + "::" + tail;
    FirstDouble(head, tail);
    NoPairNoDouble(tail);
    hide NoPair, DoubleColon;
    SplitAt(s, |head|);
    assert s[..|head|] == head && s[|head| + 2..] == tail;
    assert [head] + [tail] == [head, tail];
  }

  lemma {:induction false} DoubleRejoins(s: string)
    ensures |SplitDouble(s)| == 1 ==> SplitDouble(s) == [s]
    ensures |SplitDouble(s)| == 2 ==> s == SplitDouble(s)[0] + "::" + SplitDouble(s)[1]
  {
    var k := DoubleColon(s);
    if k < |s| {
      assert s == s[..k] + "::" + s[k + 2..];
      assert |SplitDouble(s)| == 1 + |SplitDouble(s[k + 2..])|;
      if |SplitDouble(s[k + 2..])| == 1 { OneHalf(s[k + 2..]); }
    }
  }

  lemma OneHalf(s: string)
    requires |SplitDouble(s)| == 1
    ensures SplitDouble(s) == [s]
  {
    SplitsSomething(s);
  }

  lemma SplitsSomething(s: string)
    ensures DoubleColon(s) < |s| ==> |SplitDouble(s)| > 1
  {
  }

  lemma GroupsRejoin(half: string)
    ensures Colons(SplitGroups(half)) == half
  {
    hide Split, Join;
    if half == [] {
      JoinNothing();
    } else {
      SplitRejoins(half, ':');
    }
  }

  lemma JoinNothing()
    ensures Colons([]) == []
  {
  }

  // The number with zeros where groups are left out.
  function Spread(head: seq<string>, rest: seq<string>): nat
    requires GroupSpellings(head) && GroupSpellings(rest) && |head| + |rest| <= 8
  {
    GroupsNumber(head) * Power(0x1_0000, 8 - |head|) + GroupsNumber(rest)
  }

  // Eight groups with colons between them, or at most seven with "::" in one place.
  ghost predicate SpellsV6(s: string, v: nat) {
    || (exists groups: seq<string> ::
          GroupSpellings(groups) && |groups| == 8 && s == Colons(groups) && v == GroupsNumber(groups))
    || (exists head: seq<string>, rest: seq<string> ::
          && GroupSpellings(head) && GroupSpellings(rest) && |head| + |rest| <= 7
          && s == Colons(head) + "::" + Colons(rest) && v == Spread(head, rest))
  }

  lemma {:induction false} ShiftIsPower(x: nat, n: nat)
    ensures ShiftUp(x, n) == x * Power(0x1_0000, n)
  {
    if n > 0 {
      ShiftIsPower(x, n - 1);
      Shifted(x, Power(0x1_0000, n - 1));
    }
  }

  lemma Shifted(x: nat, p: nat)
    ensures MulAdd(x * p, 65536, 0) == x * (0x1_0000 * p)
  {
  }

  lemma {:induction false} FoldAppend(front: seq<string>, back: seq<string>)
    requires Numerals(front, 16) && Numerals(back, 16)
    ensures Numerals(front + back, 16)
    ensures Fold(front + back, 65536, 16) == ShiftUp(Fold(front, 65536, 16), |back|) + Fold(back, 65536, 16)
    decreases |back|
  {
    if back == [] {
      assert front + back == front;
    } else {
      var less, g := back[..|back| - 1], back[|back| - 1];
      FoldAppend(front, less);
      assert front + back == (front + less) + [g];
      hide Fold, Value, IsNumeral;
      FoldStep(front + less, g, 65536, 16);
      FoldStep(less, g, 65536, 16);
      assert less + [g] == back;
      assert ShiftUp(Fold(front, 65536, 16), |back|) == MulAdd(ShiftUp(Fold(front, 65536, 16), |less|), 65536, 0);
    }
  }

  // The groups with zeros put in.
  lemma FilledNumber(head: seq<string>, rest: seq<string>)
    requires GroupSpellings(head) && GroupSpellings(rest) && |head| + |rest| <= 7
    ensures var groups := head + ZeroGroups(8 - |head| - |rest|) + rest;
      GroupTexts(groups) && Numerals(groups, 16) && Fold(groups, 65536, 16) == Spread(head, rest)
  {
    hide Fold, GroupTexts, Numerals, GroupSpellings, GroupsNumber, ShiftUp, Power;
    var n := 8 - |head| - |rest|;
    GroupsAreSpelled(head);
    GroupsAreSpelled(rest);
    ZeroGroupsAreZero(n);
    ZeroGroupsCount(n);
    ZerosFold(ZeroGroups(n));
    GroupAppend(ZeroGroups(n), rest);
    FoldAfter(ZeroGroups(n), rest);
    GroupAppend(head, ZeroGroups(n) + rest);
    FoldAppend(head, ZeroGroups(n) + rest);
    ShiftIsPower(GroupsNumber(head), 8 - |head|);
    assert head + ZeroGroups(n) + rest == head + (ZeroGroups(n) + rest);
  }

  lemma SpelledIsRead(s: string, v: nat)
    requires SpellsV6(s, v)
    ensures V6OfGroups(s) == Some(v)
  {
    hide GroupSpellings, GroupsNumber, Spread, SplitGroups, SplitDouble, Colons, Fold, GroupTexts, Numerals, NoPair;
    if groups: seq<string> :|
      GroupSpellings(groups) && |groups| == 8 && s == Colons(groups) && v == GroupsNumber(groups)
    {
      GroupsOfColons(groups);
      NoPairNoDouble(s);
      GroupsAreSpelled(groups);
      V6OfGroupsIs(s, groups);
    } else {
      var head: seq<string>, rest: seq<string> :|
        && GroupSpellings(head) && GroupSpellings(rest) && |head| + |rest| <= 7
        && s == Colons(head) + "::" + Colons(rest) && v == Spread(head, rest);
      GroupsOfColons(head);
      GroupsOfColons(rest);
      HalvesOf(Colons(head), Colons(rest));
      FilledNumber(head, rest);
      V6OfGroupsIs(s, head + ZeroGroups(8 - |head| - |rest|) + rest);
    }
  }

  lemma ReadIsSpelled(s: string)
    requires V6OfGroups(s).Some?
    ensures SpellsV6(s, V6OfGroups(s).value)
  {
    hide GroupSpellings, GroupsNumber, Spread, SplitGroups, SplitDouble, Colons, Fold, GroupTexts, Numerals;
    var halves, v := SplitDouble(s), V6OfGroups(s).value;
    var groups := Groups(s).value;
    DoubleRejoins(s);
    var head := SplitGroups(halves[0]);
    GroupsRejoin(halves[0]);
    GroupsAreSpelled(groups);
    if |halves| == 1 {
      assert groups == head;
      assert SpellsV6(s, v);
    } else {
      var rest := SplitGroups(halves[1]);
      var n := 8 - |head| - |rest|;
      GroupsRejoin(halves[1]);
      assert groups == head + ZeroGroups(n) + rest;
      PartsAreSpelled(head, ZeroGroups(n), rest);
      FilledNumber(head, rest);
    }
  }

  lemma PartsAreSpelled(head: seq<string>, zeros: seq<string>, rest: seq<string>)
    requires GroupSpellings(head + zeros + rest)
    ensures GroupSpellings(head) && GroupSpellings(rest)
  {
    var all := head + zeros + rest;
    assert forall k :: 0 <= k < |head| ==> all[k] == head[k];
    assert forall k :: 0 <= k < |rest| ==> all[|head| + |zeros| + k] == rest[k];
  }

  // A text without zone or dotted tail is read as an IPv6 address if and only if it spells one.
  lemma V6Exactly(s: string, v: nat)
    ensures V6OfGroups(s) == Some(v) <==> SpellsV6(s, v)
  {
    hide SpellsV6, V6OfGroups;
    if V6OfGroups(s) == Some(v) { ReadIsSpelled(s); }
    if SpellsV6(s, v) { SpelledIsRead(s, v); }
  }
}
