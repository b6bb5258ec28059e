// The signature base of a signed request, as the verifier rebuilds it and as the signer built it
// (RFC 9421, sections 2.5 and 4.1).
module SignedRequests {
  import opened Wrappers
  import opened Text
  import opened StructuredFields
  import opened BotAuth

  datatype Facts = Facts(authority: string, verb: string, path: string, targetUri: string, headers: map<string, string>)

  // ---------- one member of a dictionary header ----------

  datatype DictItem = DictItem(key: string, raw: string)

  // A byte sequence or a bare item.
  function SkipValue(s: string): (r: Option<nat>)
    ensures r.Some? ==> r.value <= |s|
  {
    if s != "" && s[0] == ':' then
      var end := 1 + IndexOf(s[1..], ':');
      if end == |s| then None else Some(end + 1)
    else
      var item := ParseBareItem(s);
      if item.None? then None else Some(item.value.used)
  }

  function ParseDictItem(s: string): (r: Option<Parsed<DictItem>>)
    ensures r.Some? ==> 0 < r.value.used <= |s|
  {
    var key := ParseKey(s);
    if key.None? then None
    else
      var m := key.value.used + 1;
      if m > |s| || s[m - 1] != '=' then None
      else
        var v := SkipValue(s[m..]);
        if v.None? then None
        else
          var params := ParseParams(s[m + v.value..], map[]);
          if params.None? then None
          else
            var used := m + v.value + params.value.used;
            Some(Parsed(DictItem(key.value.value, s[m..used]), used))
  }

  // Over a comma, with the spaces around it.
  function SkipComma(s: string): (r: Option<nat>)
    ensures r.Some? ==> 0 < r.value <= |s|
  {
    var sp := Span(s, IsSp);
    if sp == |s| || s[sp] != ',' then None else Some(sp + 1 + Span(s[sp + 1..], IsSp))
  }

  // The text of the first member under `key`; nothing after it is read.
  function DictMember(s: string, key: string): Option<string>
    decreases |s|
  {
    var item := ParseDictItem(s);
    if item.None? then None
    else if item.value.value.key == key then Some(item.value.value.raw)
    else
      var comma := SkipComma(s[item.value.used..]);
      if comma.None? then None else DictMember(s[item.value.used..][comma.value..], key)
  }

  function DictMemberRaw(headerValue: string, key: string): Option<string> {
    DictMember(headerValue[Span(headerValue, IsSp)..], key)
  }

  method ReadDictMember(headerValue: string, key: string) returns (r: Option<string>)
    ensures r == DictMemberRaw(headerValue, key)
  {
    hide ParseDictItem, Span, SkipComma, DictMember;
    var c := new Cursor(headerValue);
    assert headerValue[0..] == headerValue;
    c.SkipSp();
    ghost var member := DictMember(headerValue[c.i..], key);
    assert DictMemberRaw(headerValue, key) == member;
    hide DictMemberRaw;
    while true
      invariant c.Valid() && c.s == headerValue
      invariant member == DictMember(headerValue[c.i..], key)
      decreases |headerValue| - c.i
    {
      DictUnfolds(headerValue, c.i, key);
      var item := ReadDictItem(c);
      if item.None? { return None; }
      if item.value.key == key { return Some(item.value.raw); }
      var more := ReadComma(c);
      if !more { return None; }
    }
  }

  lemma DictUnfolds(s: string, i: nat, key: string)
    requires i <= |s|
    ensures DictMember(s[i..], key)
         == var item := ParseDictItem(s[i..]);
            if item.None? then None
            else if item.value.value.key == key then Some(item.value.value.raw)
            else
              var comma := SkipComma(s[i + item.value.used..]);
              if comma.None? then None else DictMember(s[i + item.value.used + comma.value..], key)
  {
    hide ParseDictItem, SkipComma;
    var item := ParseDictItem(s[i..]);
    if item.Some? {
      var j := i + item.value.used;
      assert s[i..][item.value.used..] == s[j..];
      var comma := SkipComma(s[j..]);
      if comma.Some? { assert s[j..][comma.value..] == s[j + comma.value..]; }
    }
  }

  method ReadComma(c: Cursor) returns (more: bool)
    requires c.Valid()
    modifies c
    ensures c.Valid()
    ensures var p := SkipComma(old(c.Rest())); more == p.Some? && (more ==> c.i == old(c.i) + p.value)
  {
    hide Span;
    ghost var start := c.i;
    c.SkipSp();
    if c.i >= |c.s| || !c.At(',') { return false; }
    c.i := c.i + 1;
    assert c.s[start..][c.i - start..] == c.s[c.i..];
    c.SkipSp();
    return true;
  }

  method ReadSkippedValue(c: Cursor) returns (ok: bool)
    requires c.Valid()
    modifies c
    ensures c.Valid()
    ensures var p := SkipValue(old(c.Rest())); ok == p.Some? && (ok ==> c.i == old(c.i) + p.value)
  {
    hide ParseBareItem;
    if c.At(':') {
      assert c.s[c.i..][1..] == c.s[c.i + 1..];
      var end := c.i + 1 + IndexOf(c.s[c.i + 1..], ':');
      if end == |c.s| { return false; }
      c.i := end + 1;
      return true;
    }
    var item := c.ReadBareItem();
    return item.Some?;
  }

  method ReadDictItem(c: Cursor) returns (r: Option<DictItem>)
    requires c.Valid()
    modifies c
    ensures c.Valid()
    ensures var p := ParseDictItem(old(c.Rest()));
            r.Some? == p.Some? && (p.Some? ==> r.value == p.value.value && c.i == old(c.i) + p.value.used)
  {
    hide ParseKey, ParseParams, SkipValue;
    ghost var start := c.i;
    ghost var all := c.s[start..];
    var name := c.ReadKey();
    if name.None? || !c.At('=') { return None; }
    c.i := c.i + 1;
    var member := c.i;
    assert all[c.i - start..] == c.s[c.i..];
    var ok := ReadSkippedValue(c);
    if !ok { return None; }
    assert all[c.i - start..] == c.s[c.i..];
    var params := c.ReadParams();
    if params.None? { return None; }
    SliceOfRest(c.s, start, member, c.i);
    return Some(DictItem(name.value, c.s[member..c.i]));
  }

  // ---------- the base, rebuilt ----------

  function ComponentValue(c: Component, facts: Facts): Option<string> {
    if c.name != "" && c.name[0] == '@' then
      if c.key.Some? then None
      else if c.name == "@authority" then Some(Lower(facts.authority))
      else if c.name == "@method" then Some(Upper(facts.verb))
      else if c.name == "@path" then Some(facts.path)
      else if c.name == "@target-uri" then Some(facts.targetUri)
      else None
    else if Lower(c.name) !in facts.headers then None
    else if c.key.Some? then DictMemberRaw(facts.headers[Lower(c.name)], c.key.value)
    else Some(Trim(facts.headers[Lower(c.name)]))
  }

  function Line(raw: string, value: string): string { raw + ": " + value }

  function BaseLines(components: seq<Component>, facts: Facts): Option<seq<string>> {
    if components == [] then Some([])
    else
      var n := |components| - 1;
      var before, v := BaseLines(components[..n], facts), ComponentValue(components[n], facts);
      if before.None? || v.None? then None else Some(before.value + [Line(components[n].raw, v.value)])
  }

  function ParamsLine(member: string): string { Line(Quoted("@signature-params"), member) }

  function BuildSignatureBase(entry: Entry, facts: Facts): Option<string> {
    var lines := BaseLines(entry.components, facts);
    if lines.None? then None else Some(Join(lines.value + [ParamsLine(entry.rawMemberText)], "\n"))
  }

  method BuildSignatureBaseLoop(entry: Entry, facts: Facts) returns (r: Option<string>)
    ensures r == BuildSignatureBase(entry, facts)
  {
    hide Join, DictMemberRaw;
    var lines := [];
    var i := 0;
    while i < |entry.components|
      invariant 0 <= i <= |entry.components|
      invariant BaseLines(entry.components[..i], facts) == Some(lines)
    {
      var c := entry.components[i];
      assert entry.components[..i + 1][..i] == entry.components[..i];
      var value := ReadComponentValue(c, facts);
      if value.None? {
        NoLines(entry.components, i + 1, facts);
        return None;
      }
      lines := lines + [Line(c.raw, value.value)];
      i := i + 1;
    }
    assert entry.components[..i] == entry.components;
    return Some(Join(lines + [ParamsLine(entry.rawMemberText)], "\n"));
  }

  method ReadComponentValue(c: Component, facts: Facts) returns (r: Option<string>)
    ensures r == ComponentValue(c, facts)
  {
    if (c.name != "" && c.name[0] == '@') || Lower(c.name) !in facts.headers || c.key.None? {
      return ComponentValue(c, facts);
    }
    r := ReadDictMember(facts.headers[Lower(c.name)], c.key.value);
  }

  // One component without a value and there is no base.
  lemma {:induction false} NoLines(components: seq<Component>, i: nat, facts: Facts)
    requires i <= |components| && BaseLines(components[..i], facts).None?
    ensures BaseLines(components, facts).None?
    decreases |components|
  {
    if i == |components| {
      assert components[..i] == components;
    } else {
      var n := |components| - 1;
      assert components[..n][..i] == components[..i];
      NoLines(components[..n], i, facts);
    }
  }

  // ---------- the signer ----------

  datatype SignParams = SignParams(
    sigLabel: string, authority: string, path: Option<string>, headers: seq<(string, string)>,
    keyid: string, tag: string, created: int, validity: int)

  datatype Covered = Covered(name: string, value: string)

  function CoveredHeaders(headers: seq<(string, string)>): seq<Covered> {
    seq(|headers|, k requires 0 <= k < |headers| => Covered(Lower(headers[k].0), Trim(headers[k].1)))
  }

  function CoveredBy(p: SignParams): seq<Covered> {
    [Covered("@authority", Lower(p.authority))]
    + (if p.path.Some? then [Covered("@path", p.path.value)] else [])
    + CoveredHeaders(p.headers)
  }

  function QuotedNames(covered: seq<Covered>): seq<string> {
    seq(|covered|, k requires 0 <= k < |covered| => Quoted(covered[k].name))
  }

  function ParamText(key: string, item: string): string { [';'] + key + ['='] + item }

  function ParamsText(p: SignParams): string {
    ParamText("created", Decimal(p.created)) + (ParamText("expires", Decimal(p.created + p.validity))
    + (ParamText("keyid", Quoted(p.keyid)) + ParamText("tag", Quoted(p.tag))))
  }

  function MemberText(p: SignParams): string {
    ['('] + (Join(QuotedNames(CoveredBy(p)), " ") + ([')'] + ParamsText(p)))
  }

  function SignatureInput(p: SignParams): string { p.sigLabel + (['='] + MemberText(p)) }

  function SignedLines(covered: seq<Covered>): seq<string> {
    seq(|covered|, k requires 0 <= k < |covered| => Line(Quoted(covered[k].name), covered[k].value))
  }

  // What is signed.
  function SignedBase(p: SignParams): string {
    Join(SignedLines(CoveredBy(p)) + ["\"@signature-params\": " + MemberText(p)], "\n")
  }

  lemma ParamsLineIs(member: string)
    ensures ParamsLine(member) == "\"@signature-params\": " + member
  {
    assert Quoted("@signature-params") + ": " == "\"@signature-params\": ";
  }

  // ---------- what was printed parses back ----------

  function Plain(covered: seq<Covered>): seq<Component> {
    seq(|covered|, k requires 0 <= k < |covered| => Component(covered[k].name, None, Quoted(covered[k].name)))
  }

  predicate CleanNames(covered: seq<Covered>) {
    forall k :: 0 <= k < |covered| ==> Clean(covered[k].name)
  }

  function Spaced(covered: seq<Covered>): string {
    if covered == [] then "" else [' '] + Quoted(covered[0].name) + Spaced(covered[1..])
  }

  lemma ComponentReadsBack(name: string, rest: string)
    requires Clean(name) && rest != "" && rest[0] != ';'
    ensures ParseComponent(Quoted(name) + rest) == Some(Parsed(Component(name, None, Quoted(name)), |name| + 2))
  {
    QuotedReadsBack(name, rest);
    var s := Quoted(name) + rest;
    assert s[|name| + 2..] == rest;
    assert s[..|name| + 2 + 0] == Quoted(name);
  }

  // A component after at most one space.
  lemma NextReadsBack(spaced: bool, name: string, rest: string)
    requires Clean(name) && rest != "" && rest[0] != ';'
    ensures var lead := if spaced then " " else "";
      ParseNext(lead + (Quoted(name) + rest))
        == Some(Parsed(Some(Component(name, None, Quoted(name))), |lead| + |name| + 2))
  {
    hide ParseComponent;
    var lead := if spaced then " " else "";
    var s := lead + (Quoted(name) + rest);
    SpanIs(lead, Quoted(name) + rest, IsSp);
    ComponentReadsBack(name, rest);
    assert s[|lead|..] == Quoted(name) + rest;
  }

  lemma SpacedCons(covered: seq<Covered>, rest: string)
    requires covered != []
    ensures Spaced(covered) + rest == " " + (Quoted(covered[0].name) + (Spaced(covered[1..]) + rest))
    ensures |Spaced(covered)| == |covered[0].name| + 3 + |Spaced(covered[1..])|
    ensures Plain(covered) == [Component(covered[0].name, None, Quoted(covered[0].name))] + Plain(covered[1..])
  {
  }

  lemma {:induction false} SpacedReadsBack(covered: seq<Covered>, rest: string)
    requires CleanNames(covered)
    ensures ParseComponents(Spaced(covered) + ([')'] + rest)) == Some(Parsed(Plain(covered), |Spaced(covered)| + 1))
  {
    hide ParseComponents, Clean, Spaced, Plain;
    if covered == [] {
      NoneSpaced(rest);
    } else {
      SpacedReadsBack(covered[1..], rest);
      OneSpaced(covered, rest);
    }
  }

  lemma NoneSpaced(rest: string)
    ensures ParseComponents(Spaced([]) + ([')'] + rest)) == Some(Parsed(Plain([]), |Spaced([])| + 1))
  {
    hide ParseNext;
    assert Spaced([]) + ([')'] + rest) == [')'] + rest;
    CloseReadsBack(rest);
    assert Plain([]) == [];
  }

  lemma OneSpaced(covered: seq<Covered>, rest: string)
    requires covered != [] && CleanNames(covered)
    requires ParseComponents(Spaced(covered[1..]) + ([')'] + rest))
          == Some(Parsed(Plain(covered[1..]), |Spaced(covered[1..])| + 1))
    ensures ParseComponents(Spaced(covered) + ([')'] + rest)) == Some(Parsed(Plain(covered), |Spaced(covered)| + 1))
  {
    hide ParseNext, ParseComponents, Clean, Spaced, Plain, Quoted;
    var name, more := covered[0].name, Spaced(covered[1..]) + ([')'] + rest);
    SpacedCons(covered, [')'] + rest);
    StopsName(covered[1..], rest);
    NextReadsBack(true, name, more);
    SpacedDrop(name, more);
    ComponentsStep(" " + (Quoted(name) + more), Component(name, None, Quoted(name)), |name| + 3, more);
  }

  lemma StopsName(covered: seq<Covered>, rest: string)
    ensures var more := Spaced(covered) + ([')'] + rest); more != "" && more[0] != ';'
  {
  }

  lemma SpacedDrop(name: string, more: string)
    ensures |name| + 3 <= |" " + (Quoted(name) + more)| && (" " + (Quoted(name) + more))[|name| + 3..] == more
  {
  }

  lemma ComponentsStep(s: string, c: Component, used: nat, more: string)
    requires ParseNext(s) == Some(Parsed(Some(c), used)) && used <= |s| && s[used..] == more
    ensures ParseComponents(s) == Prepend([c], used, ParseComponents(more))
  {
    hide ParseNext, Prepend;
  }

  lemma CloseReadsBack(rest: string)
    ensures ParseNext([')'] + rest) == Some(Parsed(None, 1))
  {
  }

  lemma {:induction false} JoinIsSpaced(covered: seq<Covered>)
    requires covered != []
    ensures Join(QuotedNames(covered), " ") == Quoted(covered[0].name) + Spaced(covered[1..])
  {
    if |covered| == 1 {
      assert Spaced(covered[1..]) == "";
    } else {
      JoinIsSpaced(covered[1..]);
      assert QuotedNames(covered)[1..] == QuotedNames(covered[1..]);
    }
  }

  lemma ListReadsBack(covered: seq<Covered>, rest: string)
    requires covered != [] && CleanNames(covered)
    ensures var text := Join(QuotedNames(covered), " ");
            ParseComponents(text + ([')'] + rest)) == Some(Parsed(Plain(covered), |text| + 1))
  {
    hide ParseNext, Clean, Join;
    JoinIsSpaced(covered);
    var name, more := covered[0].name, Spaced(covered[1..]) + ([')'] + rest);
    var s := Quoted(name) + more;
    assert Join(QuotedNames(covered), " ") + ([')'] + rest) == s;
    SpacedReadsBack(covered[1..], rest);
    NextReadsBack(false, name, more);
    assert "" + s == s;
    assert s[|name| + 2..] == more;
    ComponentsStep(s, Component(name, None, Quoted(name)), |name| + 2, more);
    hide ParseComponents;
    assert Plain(covered) == [Component(name, None, Quoted(name))] + Plain(covered[1..]);
  }

  function FourParams(k1: string, a: int, k2: string, b: int, k3: string, c: string, k4: string, d: string)
    : map<string, BareItem>
  {
    map[][k1 := Num(a)][k2 := Num(b)][k3 := Str(c)][k4 := Str(d)]
  }

  lemma FourReadBack(k1: string, a: int, k2: string, b: int, k3: string, c: string, k4: string, d: string)
    requires IsKey(k1) && IsKey(k2) && IsKey(k3) && IsKey(k4) && Clean(c) && Clean(d)
    ensures var s := ParamText(k1, Decimal(a))
        + (ParamText(k2, Decimal(b)) + (ParamText(k3, Quoted(c)) + ParamText(k4, Quoted(d))));
            ParseParams(s, map[]) == Some(Parsed(FourParams(k1, a, k2, b, k3, c, k4, d), |s|))
  {
    hide ParseBareItem, Decimal, IsKey, Clean, ParseParams;
    var s4 := ParamText(k4, Quoted(d));
    var s3 := ParamText(k3, Quoted(c)) + s4;
    var s2 := ParamText(k2, Decimal(b)) + s3;
    var s1 := ParamText(k1, Decimal(a)) + s2;
    var m1 := map[][k1 := Num(a)];
    var m2 := m1[k2 := Num(b)];
    var m3 := m2[k3 := Str(c)];
    IntegerReadsBack(a, s2);
    ParamReadsBack(k1, Decimal(a), Num(a), s2, map[]);
    IntegerReadsBack(b, s3);
    ParamReadsBack(k2, Decimal(b), Num(b), s3, m1);
    QuotedReadsBack(c, s4);
    ParamReadsBack(k3, Quoted(c), Str(c), s4, m2);
    QuotedReadsBack(d, "");
    ParamReadsBack(k4, Quoted(d), Str(d), "", m3);
    NoParams(m3[k4 := Str(d)]);
    assert s4 + "" == s4;
  }

  lemma NoParams(out: map<string, BareItem>)
    ensures ParseParams("", out) == Some(Parsed(out, 0))
  {
  }

  lemma NamesAreKeys()
    ensures IsKey("created") && IsKey("expires") && IsKey("keyid") && IsKey("tag")
    ensures "created" != "expires"
  {
    assert "created"[0] == 'c' && "expires"[0] == 'e';
  }

  lemma FourParamsOf(a: int, b: int, c: string, d: string)
    ensures ParamsOf(FourParams("created", a, "expires", b, "keyid", c, "tag", d))
         == SignatureParams(Some(a), Some(b), Some(c), Some(d), None, None)
  {
    NamesAreKeys();
    assert "alg"[0] != "tag"[0] && "nonce"[0] != "keyid"[0];
  }

  // What the verifier should have read.
  function EntryOf(p: SignParams): Entry {
    Entry(p.sigLabel, Plain(CoveredBy(p)),
          SignatureParams(Some(p.created), Some(p.created + p.validity), Some(p.keyid), Some(p.tag), None, None),
          MemberText(p))
  }

  // A structured-field key for a label, no quote or backslash in names, key id and tag, and covered
  // header names that are not derived components.
  predicate Signable(p: SignParams) {
    && IsKey(p.sigLabel) && Clean(p.keyid) && Clean(p.tag)
    && forall k :: 0 <= k < |p.headers| ==> Clean(p.headers[k].0) && (p.headers[k].0 == "" || p.headers[k].0[0] != '@')
  }

  lemma LowerKeepsClean(s: string)
    requires Clean(s)
    ensures Clean(Lower(s))
  {
    forall k | 0 <= k < |s| ensures Lower(s)[k] != '"' && Lower(s)[k] != '\\' { assert s[k] in s; }
  }

  lemma CoveredIsClean(p: SignParams)
    requires Signable(p)
    ensures CleanNames(CoveredBy(p))
  {
    assert Clean("@authority") && Clean("@path");
    forall k | 0 <= k < |p.headers| ensures Clean(Lower(p.headers[k].0)) { LowerKeepsClean(p.headers[k].0); }
  }

  lemma MemberReadsBack(p: SignParams)
    requires Signable(p)
    ensures ParseMember(SignatureInput(p)) == Some(Parsed(EntryOf(p), |SignatureInput(p)|))
  {
    hide Join, Plain, CoveredBy, Clean, ParamsText, ParamsOf, ParseComponents, ParseParams, ParseKey;
    var s, covered, params := SignatureInput(p), CoveredBy(p), ParamsText(p);
    var list := Join(QuotedNames(covered), " ");
    KeyReadsBack(p.sigLabel, ['='] + MemberText(p));
    var m := |p.sigLabel| + 1;
    CoveredIsClean(p);
    CoveredNonEmpty(p);
    ListReadsBack(covered, params);
    assert s[m..] == MemberText(p);
    assert s[m + 1..] == list + ([')'] + params);
    assert s[m + 1 + |list| + 1..] == params;
    ParamsReadBack(p);
    assert s[m..|s|] == MemberText(p);
  }

  lemma CoveredNonEmpty(p: SignParams)
    ensures CoveredBy(p) != []
  {
  }

  lemma ParamsReadBack(p: SignParams)
    requires Signable(p)
    ensures var r := ParseParams(ParamsText(p), map[]);
      && r.Some? && r.value.used == |ParamsText(p)|
      && ParamsOf(r.value.value)
         == SignatureParams(Some(p.created), Some(p.created + p.validity), Some(p.keyid), Some(p.tag), None, None)
  {
    hide ParseParams, ParamText, IsKey, Clean, FourParams, ParamsOf;
    NamesAreKeys();
    FourReadBack("created", p.created, "expires", p.created + p.validity, "keyid", p.keyid, "tag", p.tag);
    FourParamsOf(p.created, p.created + p.validity, p.keyid, p.tag);
  }

  // The printed header parses to exactly one entry: the same label, components and parameters, and the
  // very text that was signed.
  lemma SignedTextParsesBack(p: SignParams)
    requires Signable(p)
    ensures ParseSignatureInput(SignatureInput(p)) == Some([EntryOf(p)])
  {
    hide ParseMember, SignatureInput, EntryOf;
    var s := SignatureInput(p);
    MemberReadsBack(p);
    assert s[|s|..] == "";
    StartsWithLabel(p);
    assert s[0..] == s;
  }

  // ---------- exactly when it parses back ----------

  // Reading a quoted text that holds no quote: it is refused, or ends at its own quote, one character
  // shorter for every backslash, or takes that quote for an escaped one and runs on into what follows.
  lemma {:induction false} BodyOf(text: string, rest: string)
    requires '"' !in text
    ensures var r := QuotedBody(text + ['"'] + rest);
      || r.None?
      || (r.value.used == |text| + 1 && |r.value.value| <= |text| && ('\\' in text ==> |r.value.value| < |text|))
      || (QuotedBody(rest).Some? && r.value.used == |text| + 1 + QuotedBody(rest).value.used)
  {
    var s := text + ['"'] + rest;
    if text != "" {
      assert text[0] in text;
      if text[0] == '\\' {
        if |text| == 1 {
          assert s[2..] == rest;
        } else {
          assert text[1] in text;
          assert text[2..] + ['"'] + rest == s[2..];
          assert forall c :: c in text[2..] ==> c in text;
          BodyOf(text[2..], rest);
        }
      } else {
        assert text[1..] + ['"'] + rest == s[1..];
        assert forall c :: c in text[1..] ==> c in text;
        assert text == [text[0]] + text[1..];
        BodyOf(text[1..], rest);
      }
    }
  }

  // With a backslash in it, the printed key id does not survive: what is read stops short of the text,
  // or a shorter key id is read.
  predicate Garbled(r: Option<Parsed<map<string, BareItem>>>, length: nat, key: string, text: string) {
    r.None? || r.value.used < length
    || (key in r.value.value && r.value.value[key].Str? && |r.value.value[key].text| < |text|)
  }

  predicate StartsPlainly(tag: string) { tag != "" && tag[0] != ';' }

  lemma KeyidIsGarbled(k3: string, keyid: string, k4: string, tag: string, out: map<string, BareItem>)
    requires IsKey(k3) && IsKey(k4) && k3 != k4 && '"' !in keyid && '\\' in keyid
    requires Clean(tag) && StartsPlainly(tag) && Clean(k4)
    ensures var s := ParamText(k3, Quoted(keyid)) + ParamText(k4, Quoted(tag));
            Garbled(ParseParams(s, out), |s|, k3, keyid)
  {
    hide ParseParams, IsKey, Clean, ParseQuotedString, ParseParam, Garbled, StartsPlainly, Shift;
    var s4 := ParamText(k4, Quoted(tag));
    var item := Quoted(keyid) + s4;
    var s := [';'] + k3 + (['='] + item);
    assert s == ParamText(k3, Quoted(keyid)) + s4;
    BadParam(k3, item);
    var q := ParseQuotedString(item);
    KeyidEnds(keyid, k4, tag);
    if q.None? {
      ParamFails(s, out);
      NoneIsGarbled(|s|, k3, keyid);
    } else {
      var used, v := |k3| + 2 + q.value.used, q.value.value;
      ParamStep(s, out, (k3, Str(v)), used);
      if q.value.used == |keyid| + 2 {
        assert s[used..] == s4;
        ShortKeyid(k3, v, keyid, k4, tag, out, used, |s|);
      } else {
        assert s[used..] == tag + ['"'];
        StopsAt(tag + ['"'], out[k3 := Str(v)]) by { PlainStart(tag); }
        StopsShort(used, |s|, k3, keyid, out[k3 := Str(v)]);
      }
    }
  }

  lemma PlainStart(tag: string)
    requires StartsPlainly(tag)
    ensures (tag + ['"'])[0] != ';'
  {
  }

  // Where the quoted key id ends in the printed text.
  lemma KeyidEnds(keyid: string, k4: string, tag: string)
    requires '"' !in keyid && '\\' in keyid && Clean(k4)
    ensures var s4 := ParamText(k4, Quoted(tag)); var q := ParseQuotedString(Quoted(keyid) + s4);
      || q.None?
      || (q.value.used == |keyid| + 2 && |q.value.value| < |keyid|)
      || q.value.used == |keyid| + 2 + |k4| + 3
  {
    hide QuotedBody, Clean;
    var s4 := ParamText(k4, Quoted(tag));
    BodyOf(keyid, s4);
    assert (Quoted(keyid) + s4)[1..] == keyid + ['"'] + s4;
    TagOpens(k4, tag);
  }

  lemma NoneIsGarbled(length: nat, key: string, text: string)
    ensures Garbled(None, length, key, text)
  {
  }

  lemma StopsShort(used: nat, length: nat, key: string, text: string, out: map<string, BareItem>)
    requires used < length
    ensures Garbled(Shift(used, Some(Parsed(out, 0))), length, key, text)
  {
  }

  lemma ShortKeyid(k3: string, v: string, keyid: string, k4: string, tag: string, out: map<string, BareItem>,
                   used: nat, length: nat)
    requires IsKey(k4) && k3 != k4 && |v| < |keyid| && Clean(tag)
    ensures Garbled(Shift(used, ParseParams(ParamText(k4, Quoted(tag)), out[k3 := Str(v)])), length, k3, keyid)
  {
    hide ParseParams, IsKey, Clean;
    var s4 := ParamText(k4, Quoted(tag));
    QuotedReadsBack(tag, "");
    ParamReadsBack(k4, Quoted(tag), Str(tag), "", out[k3 := Str(v)]);
    NoParams(out[k3 := Str(v)][k4 := Str(tag)]);
    assert s4 + "" == s4;
  }

  lemma ParamFails(s: string, out: map<string, BareItem>)
    requires s != "" && s[0] == ';' && ParseParam(s).None?
    ensures ParseParams(s, out).None?
  {
  }

  // Running on into the next parameter, the reading ends at the quote that opens its value.
  lemma TagOpens(key: string, tag: string)
    requires Clean(key)
    ensures QuotedBody(ParamText(key, Quoted(tag))) == Some(Parsed([';'] + key + ['='], |key| + 3))
  {
    var before := [';'] + key + ['='];
    assert Clean(before);
    BodyReadsBack(before, tag + ['"']);
    assert before + ['"'] + (tag + ['"']) == ParamText(key, Quoted(tag));
  }

  lemma StopsAt(s: string, out: map<string, BareItem>)
    requires s == "" || s[0] != ';'
    ensures ParseParams(s, out) == Some(Parsed(out, 0))
  {
  }

  lemma BadParam(key: string, item: string)
    requires IsKey(key) && item != "" && item[0] == '"'
    ensures var r, q := ParseParam([';'] + key + (['='] + item)), ParseQuotedString(item);
            if q.None? then r.None? else r == Some(Parsed((key, Str(q.value.value)), |key| + 2 + q.value.used))
  {
    hide ParseQuotedString, ParseKey, Span, KeyChar;
    var after := ['='] + item;
    var s := [';'] + key + after;
    assert s[1..] == key + after;
    NoSpaces(key, after);
    assert s[1 + 0..] == key + after;
    KeyReadsBack(key, after) by { NotKeyChar(); }
    assert s[1 + |key|..] == after;
    assert after[1..] == item;
  }

  lemma NotKeyChar()
    ensures !KeyChar('=')
  {
  }

  lemma ParamStep(s: string, out: map<string, BareItem>, p: (string, BareItem), used: nat)
    requires s != "" && s[0] == ';' && ParseParam(s) == Some(Parsed(p, used))
    ensures used <= |s| && ParseParams(s, out) == Shift(used, ParseParams(s[used..], out[p.0 := p.1]))
  {
    hide ParseParam;
  }

  lemma GarbledShift(used: nat, r: Option<Parsed<map<string, BareItem>>>, length: nat, key: string, text: string)
    requires Garbled(r, length, key, text)
    ensures Garbled(Shift(used, r), used + length, key, text)
  {
  }

  lemma ParamsGarbled(p: SignParams)
    requires '"' !in p.keyid && '\\' in p.keyid && Clean(p.tag) && StartsPlainly(p.tag)
    ensures Garbled(ParseParams(ParamsText(p), map[]), |ParamsText(p)|, "keyid", p.keyid)
  {
    hide ParseParams, IsKey, Clean, Garbled, Decimal, ParseBareItem, StartsPlainly, Shift;
    NamesAreKeys();
    KeyidName();
    var a, b := p.created, p.created + p.validity;
    var s3 := ParamText("keyid", Quoted(p.keyid)) + ParamText("tag", Quoted(p.tag));
    var s2 := ParamText("expires", Decimal(b)) + s3;
    var m1 := map[]["created" := Num(a)];
    var m2 := m1["expires" := Num(b)];
    IntegerReadsBack(a, s2);
    ParamReadsBack("created", Decimal(a), Num(a), s2, map[]);
    IntegerReadsBack(b, s3);
    ParamReadsBack("expires", Decimal(b), Num(b), s3, m1);
    KeyidIsGarbled("keyid", p.keyid, "tag", p.tag, m2);
    GarbledShift(|"expires"| + |Decimal(b)| + 2, ParseParams(s3, m2), |s3|, "keyid", p.keyid);
    GarbledShift(|"created"| + |Decimal(a)| + 2, ParseParams(s2, m1), |s2|, "keyid", p.keyid);
  }

  lemma KeyidName()
    ensures "keyid" != "tag" && Clean("tag")
  {
  }

  // Everything a signable request needs but the key id.
  predicate SignableBut(p: SignParams) { Signable(p.(keyid := "")) }

  lemma MemberGarbled(p: SignParams)
    requires SignableBut(p) && StartsPlainly(p.tag) && '"' !in p.keyid && '\\' in p.keyid
    ensures var m := ParseMember(SignatureInput(p)); m.None? || m.value.value != EntryOf(p)
  {
    hide Join, Plain, CoveredBy, Clean, ParamsText, ParseComponents, ParseParams, ParseKey, StartsPlainly;
    var s, covered, params := SignatureInput(p), CoveredBy(p), ParamsText(p);
    var list := Join(QuotedNames(covered), " ");
    SignableAnyway(p);
    KeyReadsBack(p.sigLabel, ['='] + MemberText(p)) by { NotKeyChar(); }
    var m := |p.sigLabel| + 1;
    CoveredNonEmpty(p);
    ListReadsBack(covered, params);
    assert s[m..] == MemberText(p);
    assert s[m + 1..] == list + ([')'] + params);
    assert s[m + 1 + |list| + 1..] == params;
    ParamsGarbled(p);
    assert |MemberText(p)| == |s| - m;
  }

  lemma SignableAnyway(p: SignParams)
    requires SignableBut(p)
    ensures IsKey(p.sigLabel) && Clean(p.tag) && CleanNames(CoveredBy(p))
  {
    CoveredIsClean(p.(keyid := ""));
    assert CoveredBy(p) == CoveredBy(p.(keyid := ""));
  }

  // For a key id without quotes, the printed header parses back exactly when there is no backslash in
  // it either: the signer does not escape and the parser does unescape.
  lemma ParsesBackExactlyWhen(p: SignParams)
    requires SignableBut(p) && StartsPlainly(p.tag) && '"' !in p.keyid
    ensures ParseSignatureInput(SignatureInput(p)) == Some([EntryOf(p)]) <==> '\\' !in p.keyid
  {
    if '\\' !in p.keyid {
      SignedTextParsesBack(p);
    } else if ParseSignatureInput(SignatureInput(p)) == Some([EntryOf(p)]) {
      MemberGarbled(p);
      FirstIsMember(p);
    }
  }

  lemma FirstIsMember(p: SignParams)
    requires SignableBut(p) && ParseSignatureInput(SignatureInput(p)).Some?
    ensures ParseSignatureInput(SignatureInput(p)).value != []
    ensures ParseMember(SignatureInput(p)).Some?
    ensures ParseSignatureInput(SignatureInput(p)).value[0] == ParseMember(SignatureInput(p)).value.value
  {
    hide ParseMember, SignatureInput, EntryOf;
    StartsWithLabel(p);
    assert SignatureInput(p)[0..] == SignatureInput(p);
  }

  lemma StartsWithLabel(p: SignParams)
    requires SignableBut(p)
    ensures SignatureInput(p) != "" && Span(SignatureInput(p), IsSp) == 0
  {
    assert SignatureInput(p)[0] == p.sigLabel[0];
  }

  // ---------- both sides build the same base ----------

  function HeaderOf(facts: Facts, name: string): Option<string> {
    if name in facts.headers then Some(Trim(facts.headers[name])) else None
  }

  // What the verifier takes for a covered name on this request.
  function Seen(name: string, facts: Facts): Option<string> {
    ComponentValue(Component(name, None, Quoted(name)), facts)
  }

  // The request is the one that was signed, as far as the signature covers it.
  predicate Matches(p: SignParams, facts: Facts) {
    forall k :: 0 <= k < |CoveredBy(p)| ==> Seen(CoveredBy(p)[k].name, facts) == Some(CoveredBy(p)[k].value)
  }

  // In terms of the request: the authority up to case, the path if it was covered, and each covered
  // header up to the case of its name and the spaces around its value.
  lemma MatchesIs(p: SignParams, facts: Facts)
    requires Signable(p)
    ensures Matches(p, facts)
       <==> (&& Lower(facts.authority) == Lower(p.authority)
             && (p.path.Some? ==> facts.path == p.path.value)
             && forall k :: 0 <= k < |p.headers| ==>
                  HeaderOf(facts, Lower(p.headers[k].0)) == Some(Trim(p.headers[k].1)))
  {
    hide Trim, Lower;
    var covered := CoveredBy(p);
    var first := if p.path.Some? then 2 else 1;
    AuthoritySeen(facts);
    assert covered[0] == Covered("@authority", Lower(p.authority));
    assert p.path.Some? ==> covered[1] == Covered("@path", p.path.value);
    forall k | 0 <= k < |p.headers|
      ensures covered[first + k] == Covered(Lower(p.headers[k].0), Trim(p.headers[k].1))
      ensures Seen(covered[first + k].name, facts) == HeaderOf(facts, Lower(p.headers[k].0))
    {
      HeaderSeen(p.headers[k].0, facts);
    }
    assert forall j :: first <= j < |covered| ==> covered[j] == covered[first + (j - first)];
  }

  lemma AuthoritySeen(facts: Facts)
    ensures Seen("@authority", facts) == Some(Lower(facts.authority))
    ensures Seen("@path", facts) == Some(facts.path)
  {
    assert "@path"[1] == 'p' && "@authority"[1] == 'a' && "@method"[1] == 'm';
  }

  lemma HeaderSeen(name: string, facts: Facts)
    requires name == "" || name[0] != '@'
    ensures Seen(Lower(name), facts) == HeaderOf(facts, Lower(name))
  {
    assert name != "" ==> Lower(name)[0] != '@';
    assert Lower(Lower(name)) == Lower(name);
  }

  lemma {:induction false} LinesAre(covered: seq<Covered>, facts: Facts)
    ensures BaseLines(Plain(covered), facts).Some?
       <==> forall k :: 0 <= k < |covered| ==> Seen(covered[k].name, facts).Some?
    ensures BaseLines(Plain(covered), facts).Some? ==>
      var lines := BaseLines(Plain(covered), facts).value;
      && |lines| == |covered|
      && forall k :: 0 <= k < |covered| ==>
           lines[k] == Line(Quoted(covered[k].name), Seen(covered[k].name, facts).value)
  {
    hide ComponentValue;
    if covered != [] {
      var n := |covered| - 1;
      LinesAre(covered[..n], facts);
      assert Plain(covered)[..n] == Plain(covered[..n]);
      assert forall k :: 0 <= k < n ==> covered[..n][k] == covered[k];
    }
  }

  lemma LineIsInjective(raw: string, a: string, b: string)
    requires Line(raw, a) == Line(raw, b)
    ensures a == b
  {
    var x, y := Line(raw, a), Line(raw, b);
    assert x[|raw| + 2..] == a && y[|raw| + 2..] == b;
  }

  // On a request that matches, the verifier rebuilds the signed base character for character.
  lemma BothSidesBuildTheSameBase(p: SignParams, facts: Facts)
    requires Matches(p, facts)
    ensures BuildSignatureBase(EntryOf(p), facts) == Some(SignedBase(p))
  {
    hide ComponentValue, CoveredBy, Join, MemberText, Line;
    LinesAre(CoveredBy(p), facts);
    ParamsLineIs(MemberText(p));
    var lines := BaseLines(Plain(CoveredBy(p)), facts).value;
    assert lines == SignedLines(CoveredBy(p));
  }

  // ---------- and no other request gives it ----------

  predicate OneLine(s: string) { '\n' !in s }

  predicate OneLineEach(lines: seq<string>) {
    forall k :: 0 <= k < |lines| ==> OneLine(lines[k])
  }

  lemma {:induction false} JoinIsInjective(a: seq<string>, b: seq<string>)
    requires |a| == |b| && OneLineEach(a) && OneLineEach(b) && Join(a, "\n") == Join(b, "\n")
    ensures a == b
  {
    if |a| == 1 {
      assert a == [a[0]] && b == [b[0]];
    } else if |a| > 1 {
      var x, y := Join(a[1..], "\n"), Join(b[1..], "\n");
      assert OneLine(a[0]) && OneLine(b[0]);
      FirstLine(a[0], x, b[0], y);
      JoinIsInjective(a[1..], b[1..]);
      assert a == [a[0]] + a[1..] && b == [b[0]] + b[1..];
    }
  }

  lemma FirstLine(a: string, x: string, b: string, y: string)
    requires OneLine(a) && OneLine(b) && a + "\n" + x == b + "\n" + y
    ensures a == b && x == y
  {
    var s := a + "\n" + x;
    IndexOfIs(s, '\n', |a|);
    IndexOfIs(b + "\n" + y, '\n', |b|);
    assert a == s[..|a|] && b == s[..|b|];
    assert x == s[|a| + 1..] && y == s[|b| + 1..];
  }

  // Header fields, paths and names hold no line feed.
  predicate OneLineFacts(facts: Facts) {
    && OneLine(facts.authority) && OneLine(facts.path) && OneLine(facts.verb) && OneLine(facts.targetUri)
    && forall h :: h in facts.headers ==> OneLine(facts.headers[h])
  }

  predicate OneLineParams(p: SignParams) {
    && OneLineEach(SignedLines(CoveredBy(p))) && OneLine(ParamsLine(MemberText(p)))
  }

  lemma OneLineSeen(name: string, facts: Facts)
    requires OneLine(name) && OneLineFacts(facts) && Seen(name, facts).Some?
    ensures OneLine(Line(Quoted(name), Seen(name, facts).value))
  {
    var c := Component(name, None, Quoted(name));
    if Lower(name) in facts.headers { TrimIsOneLine(facts.headers[Lower(name)]); }
    CaseIsOneLine(facts.authority);
    CaseIsOneLine(facts.verb);
  }

  lemma CaseIsOneLine(s: string)
    requires OneLine(s)
    ensures OneLine(Lower(s)) && OneLine(Upper(s))
  {
    forall k | 0 <= k < |s| ensures Lower(s)[k] != '\n' && Upper(s)[k] != '\n' { assert s[k] in s; }
  }

  lemma {:induction false} TrimIsOneLine(s: string)
    requires OneLine(s)
    ensures OneLine(Trim(s))
  {
    LeftPart(s);
    RightPart(TrimLeft(s));
  }

  lemma {:induction false} LeftPart(s: string)
    ensures forall c :: c in TrimLeft(s) ==> c in s
  {
    if s != "" && IsSpace(s[0]) { LeftPart(s[1..]); }
  }

  lemma {:induction false} RightPart(s: string)
    ensures forall c :: c in TrimRight(s) ==> c in s
  {
    if s != "" && IsSpace(s[|s| - 1]) { RightPart(s[..|s| - 1]); }
  }

  lemma NameIsOneLine(name: string, value: string)
    requires OneLine(Line(Quoted(name), value))
    ensures OneLine(name)
  {
    forall k | 0 <= k < |name| ensures name[k] != '\n' {
      assert Line(Quoted(name), value)[1 + k] == name[k];
    }
  }

  // The verifier's base is the signed one exactly on the requests that match: nothing the signature
  // covers can differ, and nothing it does not cover matters.
  lemma BaseBindsTheRequest(p: SignParams, facts: Facts)
    requires OneLineParams(p) && OneLineFacts(facts)
    ensures BuildSignatureBase(EntryOf(p), facts) == Some(SignedBase(p)) <==> Matches(p, facts)
  {
    hide ComponentValue, CoveredBy, Join, MemberText, Line, ParamsLine, OneLine, OneLineFacts, Seen, BaseLines;
    var covered := CoveredBy(p);
    if BuildSignatureBase(EntryOf(p), facts) == Some(SignedBase(p)) {
      LinesAre(covered, facts);
      var lines, signed := BaseLines(Plain(covered), facts).value, SignedLines(covered);
      var last := ParamsLine(MemberText(p));
      ParamsLineIs(MemberText(p));
      forall k | 0 <= k < |covered| ensures OneLine(lines[k]) {
        assert signed[k] == Line(Quoted(covered[k].name), covered[k].value);
        NameIsOneLine(covered[k].name, covered[k].value);
        OneLineSeen(covered[k].name, facts);
      }
      JoinIsInjective(lines + [last], signed + [last]);
      forall k | 0 <= k < |covered| ensures Seen(covered[k].name, facts) == Some(covered[k].value) {
        assert (lines + [last])[k] == lines[k] && (signed + [last])[k] == signed[k];
        LineIsInjective(Quoted(covered[k].name), Seen(covered[k].name, facts).value, covered[k].value);
      }
    } else if Matches(p, facts) {
      BothSidesBuildTheSameBase(p, facts);
    }
  }
}
