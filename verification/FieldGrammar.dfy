// What a Signature-Input header may be, written out as a grammar (RFC 8941, sections 3.1 and 3.2, in the
// subset that is read here), and that the parser reads exactly what it writes.
module FieldGrammar {
  import opened Wrappers
  import opened Text
  import opened StructuredFields
  import opened BotAuth

  datatype Item =
    | StringItem(text: string)
    | TokenItem(text: string)
    | IntegerItem(minus: bool, digits: string)
    | FlagItem(on: bool)

  datatype Param = Param(gap: string, key: string, item: Option<Item>)

  datatype Listed = Listed(gap: string, name: string, params: seq<Param>)

  // `after` and `next` are the spaces before and after the comma that follows.
  datatype Member = Member(
    key: string, listed: seq<Listed>, gap: string, params: seq<Param>, after: string, next: string)

  // ---------- which of them are written ----------

  predicate Letter(c: char) { 'a' <= c <= 'z' || 'A' <= c <= 'Z' }

  predicate Keyed(s: string) {
    && s != "" && ('a' <= s[0] <= 'z' || s[0] == '*')
    && forall k :: 0 <= k < |s| ==> 'a' <= s[k] <= 'z' || '0' <= s[k] <= '9' || s[k] in "_-.*"
  }

  predicate Token(s: string) {
    && s != "" && (Letter(s[0]) || s[0] == '*')
    && forall k :: 0 <= k < |s| ==> Letter(s[k]) || '0' <= s[k] <= '9' || s[k] in "!#$%&'*+-.^_`|~:/"
  }

  predicate Gap(s: string) { forall k :: 0 <= k < |s| ==> s[k] == ' ' || s[k] == '\t' }

  predicate GoodItem(x: Item) {
    match x
    case TokenItem(t) => Token(t)
    case IntegerItem(_, d) => d != "" && Digits(d)
    case _ => true
  }

  predicate GoodParam(p: Param) { Gap(p.gap) && Keyed(p.key) && (p.item.Some? ==> GoodItem(p.item.value)) }

  predicate GoodParams(ps: seq<Param>) { forall k :: 0 <= k < |ps| ==> GoodParam(ps[k]) }

  predicate GoodListed(cs: seq<Listed>) {
    forall k :: 0 <= k < |cs| ==> Gap(cs[k].gap) && GoodParams(cs[k].params)
  }

  predicate GoodMember(m: Member) {
    && Keyed(m.key) && GoodListed(m.listed) && GoodParams(m.params)
    && Gap(m.gap) && Gap(m.after) && Gap(m.next)
  }

  predicate GoodMembers(ms: seq<Member>) { forall k :: 0 <= k < |ms| ==> GoodMember(ms[k]) }

  // ---------- their text ----------

  function Escaped(s: string): string {
    if s == "" then ""
    else (if s[0] == '"' || s[0] == '\\' then ['\\', s[0]] else [s[0]]) + Escaped(s[1..])
  }

  function StringText(s: string): string { ['"'] + (Escaped(s) + ['"']) }

  function ItemText(x: Item): string {
    match x
    case StringItem(t) => StringText(t)
    case TokenItem(t) => t
    case IntegerItem(minus, d) => (if minus then "-" else "") + d
    case FlagItem(on) => if on then "?1" else "?0"
  }

  function ValueText(item: Option<Item>): string { if item.None? then "" else ['='] + ItemText(item.value) }

  function ParamText(p: Param): string { [';'] + (p.gap + (p.key + ValueText(p.item))) }

  function ParamsText(ps: seq<Param>): string { if ps == [] then "" else ParamText(ps[0]) + ParamsText(ps[1..]) }

  function ComponentText(c: Listed): string { StringText(c.name) + ParamsText(c.params) }

  function ListText(cs: seq<Listed>): string {
    if cs == [] then "" else (cs[0].gap + ComponentText(cs[0])) + ListText(cs[1..])
  }

  // A member's value: the inner list and its parameters.
  function InnerText(m: Member): string {
    ['('] + ((ListText(m.listed) + (m.gap + [')'])) + ParamsText(m.params))
  }

  function MemberText(m: Member): string { m.key + (['='] + InnerText(m)) }

  function MembersText(ms: seq<Member>): string {
    if ms == [] then ""
    else
      MemberText(ms[0]) + (ms[0].after + if |ms| == 1 then "" else [','] + (ms[0].next + MembersText(ms[1..])))
  }

  // ---------- their meaning ----------

  function ItemMeans(x: Item): BareItem
    requires GoodItem(x)
  {
    match x
    case StringItem(t) => Str(t)
    case TokenItem(t) => Str(t)
    case IntegerItem(minus, d) => Num(if minus then 0 - Number(d) else Number(d))
    case FlagItem(on) => Flag(on)
  }

  // A key without a value is true.
  function ParamMeans(p: Param): BareItem
    requires GoodParam(p)
  {
    if p.item.None? then Flag(true) else ItemMeans(p.item.value)
  }

  // The value last given under a key.
  function Last(ps: seq<Param>, key: string): Option<BareItem>
    requires GoodParams(ps)
  {
    if ps == [] then None
    else
      var later := Last(ps[1..], key);
      if later.Some? then later else if ps[0].key == key then Some(ParamMeans(ps[0])) else None
  }

  function TextUnder(ps: seq<Param>, key: string): Option<string>
    requires GoodParams(ps)
  {
    match Last(ps, key)
    case Some(Str(t)) => Some(t)
    case _ => None
  }

  function NumberUnder(ps: seq<Param>, key: string): Option<int>
    requires GoodParams(ps)
  {
    match Last(ps, key)
    case Some(Num(n)) => Some(n)
    case _ => None
  }

  function ComponentMeans(c: Listed): Component
    requires GoodParams(c.params)
  {
    Component(c.name, TextUnder(c.params, "key"), ComponentText(c))
  }

  function ComponentsMean(cs: seq<Listed>): seq<Component>
    requires GoodListed(cs)
  {
    seq(|cs|, k requires 0 <= k < |cs| => ComponentMeans(cs[k]))
  }

  function EntryMeans(m: Member): Entry
    requires GoodMember(m)
  {
    var ps := m.params;
    Entry(m.key,
          ComponentsMean(m.listed),
          SignatureParams(NumberUnder(ps, "created"), NumberUnder(ps, "expires"), TextUnder(ps, "keyid"),
                          TextUnder(ps, "tag"), TextUnder(ps, "alg"), TextUnder(ps, "nonce")),
          InnerText(m))
  }

  function EntriesMean(ms: seq<Member>): seq<Entry>
    requires GoodMembers(ms)
  {
    seq(|ms|, k requires 0 <= k < |ms| => EntryMeans(ms[k]))
  }

  // ---------- what is written is read ----------

  // What may follow an item: nothing, or a character no key, token or number goes on with.
  predicate Ends(rest: string) { rest == "" || rest[0] in " \t;,)\"" }

  lemma EndsEverything(rest: string)
    requires Ends(rest) && rest != ""
    ensures !KeyChar(rest[0]) && !TokenChar(rest[0]) && !IsDigit(rest[0]) && rest[0] != '='
  {
    var c := rest[0];
    assert c == ' ' || c == '\t' || c == ';' || c == ',' || c == ')' || c == '"';
  }

  lemma {:induction false} EscapedReads(text: string, rest: string)
    ensures QuotedBody(Escaped(text) + ['"'] + rest) == Some(Parsed(text, |Escaped(text)| + 1))
  {
    var s := Escaped(text) + ['"'] + rest;
    if text != "" {
      EscapedReads(text[1..], rest);
      var n := if text[0] == '"' || text[0] == '\\' then 2 else 1;
      assert s[n..] == Escaped(text[1..]) + ['"'] + rest;
      assert [text[0]] + text[1..] == text;
    }
  }

  lemma StringReads(text: string, rest: string)
    ensures ParseQuotedString(StringText(text) + rest) == Some(Parsed(text, |StringText(text)|))
  {
    EscapedReads(text, rest);
    assert (StringText(text) + rest)[1..] == Escaped(text) + ['"'] + rest;
  }

  lemma KeyedIsKey(s: string)
    ensures Keyed(s) <==> IsKey(s)
  {
    if IsKey(s) {
      forall k | 0 <= k < |s| ensures 'a' <= s[k] <= 'z' || '0' <= s[k] <= '9' || s[k] in "_-.*" {
        assert KeyChar(s[k]);
      }
    }
    if Keyed(s) {
      forall k | 0 <= k < |s| ensures KeyChar(s[k]) {
        assert s[k] in "_-.*" ==> s[k] == '_' || s[k] == '-' || s[k] == '.' || s[k] == '*';
      }
    }
  }

  lemma TokenReads(t: string, rest: string)
    requires Token(t) && Ends(rest)
    ensures ParseBareItem(t + rest) == Some(Parsed(Str(t), |t|))
  {
    if rest != "" { EndsEverything(rest); }
    forall k | 0 <= k < |t| ensures TokenChar(t[k]) {}
    var s := t + rest;
    assert s[1..] == t[1..] + rest;
    SpanIs(t[1..], rest, TokenChar);
    assert s[..|t|] == t;
  }

  lemma DigitsRead(d: string, rest: string)
    requires d != "" && Digits(d) && Ends(rest)
    ensures AllDigits(d) && Span(d + rest, IsDigit) == |d| && DigitsValue(d) == Number(d)
  {
    if rest != "" { EndsEverything(rest); }
    SpanIs(d, rest, IsDigit);
    NumberIsValue(d);
  }

  lemma IntegerReads(minus: bool, d: string, rest: string)
    requires d != "" && Digits(d) && Ends(rest)
    ensures var x := IntegerItem(minus, d);
      ParseBareItem(ItemText(x) + rest) == Some(Parsed(ItemMeans(x), |ItemText(x)|))
  {
    hide Span, DigitsValue, Number;
    var s := ItemText(IntegerItem(minus, d)) + rest;
    DigitsRead(d, rest);
    SignedValue(d);
    if minus {
      assert s[1..] == d + rest;
      assert s[..1 + |d|] == ['-'] + d;
    } else {
      assert s[0..] == d + rest;
      assert s[..0 + |d|] == d;
    }
  }

  lemma ItemReads(x: Item, rest: string)
    requires GoodItem(x) && Ends(rest)
    ensures ParseBareItem(ItemText(x) + rest) == Some(Parsed(ItemMeans(x), |ItemText(x)|))
    ensures ItemText(x) != ""
  {
    hide ParseQuotedString, Number, Ends;
    match x
    case StringItem(t) => { StringReads(t, rest); }
    case TokenItem(t) => { TokenReads(t, rest); }
    case IntegerItem(minus, d) => { IntegerReads(minus, d, rest); }
    case FlagItem(on) => {}
  }

  lemma GapSpan(gap: string, rest: string)
    requires Gap(gap) && (rest == "" || !IsSp(rest[0]))
    ensures Span(gap + rest, IsSp) == |gap|
  {
    SpanIs(gap, rest, IsSp);
  }

  lemma ValueReads(item: Option<Item>, rest: string)
    requires (item.Some? ==> GoodItem(item.value)) && Ends(rest)
    ensures var v := if item.None? then Flag(true) else ItemMeans(item.value);
      ParseValue(ValueText(item) + rest) == Some(Parsed(v, |ValueText(item)|))
  {
    hide ParseBareItem, ItemText, ItemMeans;
    if item.None? {
      assert "" + rest == rest;
      if rest != "" { EndsEverything(rest); }
    } else {
      ItemReads(item.value, rest);
      assert (ValueText(item) + rest)[1..] == ItemText(item.value) + rest;
    }
  }

  lemma ParamReads(p: Param, rest: string)
    requires GoodParam(p) && Ends(rest)
    ensures ParseParam(ParamText(p) + rest) == Some(Parsed((p.key, ParamMeans(p)), |ParamText(p)|))
  {
    hide ParseValue, ParseKey, Span, ValueText, Keyed, IsSp;
    var s, after := ParamText(p) + rest, ValueText(p.item) + rest;
    assert s[1..] == p.gap + (p.key + after);
    assert s[1 + |p.gap|..] == p.key + after;
    assert s[1 + |p.gap| + |p.key|..] == after;
    KeyStartsNoGap(p.key, after);
    GapSpan(p.gap, p.key + after);
    KeyEnds(p.item, rest);
    KeyedIsKey(p.key);
    KeyReadsBack(p.key, after);
    ValueReads(p.item, rest);
  }

  lemma KeyStartsNoGap(key: string, rest: string)
    requires Keyed(key)
    ensures key + rest != "" && !IsSp((key + rest)[0])
  {
  }

  lemma KeyEnds(item: Option<Item>, rest: string)
    requires Ends(rest)
    ensures var after := ValueText(item) + rest; after == "" || !KeyChar(after[0])
  {
    hide ItemText;
    if item.None? {
      assert "" + rest == rest;
      if rest != "" { EndsEverything(rest); }
    }
  }

  function MapOf(ps: seq<Param>, out: map<string, BareItem>): map<string, BareItem>
    requires GoodParams(ps)
  {
    if ps == [] then out else MapOf(ps[1..], out[ps[0].key := ParamMeans(ps[0])])
  }

  lemma {:induction false} MapIsLast(ps: seq<Param>, out: map<string, BareItem>, key: string)
    requires GoodParams(ps)
    ensures key in MapOf(ps, out) <==> Last(ps, key).Some? || key in out
    ensures key in MapOf(ps, out) ==>
      MapOf(ps, out)[key] == if Last(ps, key).Some? then Last(ps, key).value else out[key]
  {
    if ps != [] { MapIsLast(ps[1..], out[ps[0].key := ParamMeans(ps[0])], key); }
  }

  lemma UnderIsMap(ps: seq<Param>, key: string)
    requires GoodParams(ps)
    ensures AsString(MapOf(ps, map[]), key) == TextUnder(ps, key)
    ensures AsInt(MapOf(ps, map[]), key) == NumberUnder(ps, key)
  {
    MapIsLast(ps, map[], key);
  }

  lemma ParamsStartEnds(ps: seq<Param>, rest: string)
    requires Ends(rest)
    ensures Ends(ParamsText(ps) + rest)
  {
    if ps == [] { assert "" + rest == rest; } else { assert (ParamsText(ps) + rest)[0] == ';'; }
  }

  lemma NoParams(rest: string, out: map<string, BareItem>)
    requires rest != "" ==> rest[0] != ';'
    ensures ParseParams(ParamsText([]) + rest, out) == Some(Parsed(out, 0))
  {
    assert "" + rest == rest;
  }

  lemma ParamsCons(ps: seq<Param>, rest: string)
    requires ps != []
    ensures ParamsText(ps) + rest == ParamText(ps[0]) + (ParamsText(ps[1..]) + rest)
  {
    hide ParamText;
  }

  lemma {:induction false} ParamsRead(ps: seq<Param>, rest: string, out: map<string, BareItem>)
    requires GoodParams(ps) && Ends(rest) && (rest != "" ==> rest[0] != ';')
    ensures ParseParams(ParamsText(ps) + rest, out) == Some(Parsed(MapOf(ps, out), |ParamsText(ps)|))
    decreases |ps|
  {
    hide ParseParam, ParseParams, ParamText, ParamMeans, GoodParam, Ends;
    if ps == [] {
      NoParams(rest, out);
    } else {
      var more := ParamsText(ps[1..]) + rest;
      ParamsCons(ps, rest);
      ParamsStartEnds(ps[1..], rest);
      ParamReads(ps[0], more);
      ParamsStep(ps[0], more, out);
      ParamsRead(ps[1..], rest, out[ps[0].key := ParamMeans(ps[0])]);
    }
  }

  lemma ParamsStep(p: Param, more: string, out: map<string, BareItem>)
    requires GoodParam(p)
    requires ParseParam(ParamText(p) + more) == Some(Parsed((p.key, ParamMeans(p)), |ParamText(p)|))
    ensures ParseParams(ParamText(p) + more, out)
         == Shift(|ParamText(p)|, ParseParams(more, out[p.key := ParamMeans(p)]))
  {
    hide ParseParam, ValueText, ParamMeans, GoodParam;
    assert (ParamText(p) + more)[|ParamText(p)|..] == more;
  }

  lemma ComponentReads(c: Listed, rest: string)
    requires GoodParams(c.params) && Ends(rest) && (rest != "" ==> rest[0] != ';')
    ensures ParseComponent(ComponentText(c) + rest) == Some(Parsed(ComponentMeans(c), |ComponentText(c)|))
  {
    hide ParseQuotedString, ParseParams, StringText, ParamsText, GoodParams, Ends, AsString, TextUnder;
    var s := ComponentText(c) + rest;
    assert s == StringText(c.name) + (ParamsText(c.params) + rest);
    StringReads(c.name, ParamsText(c.params) + rest);
    assert s[|StringText(c.name)|..] == ParamsText(c.params) + rest;
    ParamsRead(c.params, rest, map[]);
    UnderIsMap(c.params, "key");
    assert s[..|ComponentText(c)|] == ComponentText(c);
  }

  lemma ListStartsEnds(cs: seq<Listed>, gap: string, rest: string)
    requires GoodListed(cs) && Gap(gap)
    ensures var s := ListText(cs) + (gap + ([')'] + rest)); Ends(s) && s != "" && s[0] != ';'
  {
    var s := ListText(cs) + (gap + ([')'] + rest));
    if cs == [] {
      assert s == gap + ([')'] + rest);
      assert gap == "" ==> s[0] == ')';
    } else if cs[0].gap == "" {
      assert s[0] == '"';
    } else {
      assert s[0] == cs[0].gap[0];
    }
  }

  lemma NextReads(c: Listed, rest: string)
    requires Gap(c.gap) && GoodParams(c.params) && Ends(rest) && (rest != "" ==> rest[0] != ';')
    ensures var text := c.gap + ComponentText(c);
      ParseNext(text + rest) == Some(Parsed(Some(ComponentMeans(c)), |text|))
  {
    hide ParseComponent, ParamsText, ComponentMeans, GoodParams, Ends, Span;
    var text := c.gap + ComponentText(c);
    var s := text + rest;
    assert s == c.gap + (ComponentText(c) + rest);
    assert (ComponentText(c) + rest)[0] == '"';
    GapSpan(c.gap, ComponentText(c) + rest);
    assert s[|c.gap|..] == ComponentText(c) + rest;
    ComponentReads(c, rest);
  }

  lemma ListEnds(gap: string, rest: string)
    requires Gap(gap)
    ensures ParseNext(gap + ([')'] + rest)) == Some(Parsed(None, |gap| + 1))
  {
    hide ParseComponent, Span;
    GapSpan(gap, [')'] + rest);
  }

  lemma {:induction false} ListReads(cs: seq<Listed>, gap: string, rest: string)
    requires GoodListed(cs) && Gap(gap)
    ensures ParseComponents(ListText(cs) + (gap + ([')'] + rest)))
         == Some(Parsed(ComponentsMean(cs), |ListText(cs)| + |gap| + 1))
    decreases |cs|
  {
    hide ParseNext, ParseComponents, ComponentText, ComponentMeans, GoodParams, Ends;
    var tail := gap + ([')'] + rest);
    if cs == [] {
      ListEnds(gap, rest);
      ListStops(tail, |gap| + 1);
      assert ListText(cs) + tail == tail && ComponentsMean(cs) == [];
    } else {
      var first, more := cs[0].gap + ComponentText(cs[0]), ListText(cs[1..]) + tail;
      assert ListText(cs) + tail == first + more;
      ListStartsEnds(cs[1..], gap, rest);
      NextReads(cs[0], more);
      ListStep(first, more, ComponentMeans(cs[0]));
      ListReads(cs[1..], gap, rest);
      assert ComponentsMean(cs) == [ComponentMeans(cs[0])] + ComponentsMean(cs[1..]);
    }
  }

  lemma ListStops(s: string, used: nat)
    requires ParseNext(s) == Some(Parsed(None, used))
    ensures ParseComponents(s) == Some(Parsed([], used))
  {
    hide ParseNext;
  }

  lemma ListStep(first: string, more: string, c: Component)
    requires ParseNext(first + more) == Some(Parsed(Some(c), |first|))
    ensures ParseComponents(first + more) == Prepend([c], |first|, ParseComponents(more))
  {
    hide ParseNext;
    assert (first + more)[|first|..] == more;
  }

  lemma SixUnder(ps: seq<Param>)
    requires GoodParams(ps)
    ensures ParamsOf(MapOf(ps, map[]))
         == SignatureParams(NumberUnder(ps, "created"), NumberUnder(ps, "expires"), TextUnder(ps, "keyid"),
                            TextUnder(ps, "tag"), TextUnder(ps, "alg"), TextUnder(ps, "nonce"))
  {
    hide AsString, AsInt, TextUnder, NumberUnder, MapOf;
    UnderIsMap(ps, "created");
    UnderIsMap(ps, "expires");
    UnderIsMap(ps, "keyid");
    UnderIsMap(ps, "tag");
    UnderIsMap(ps, "alg");
    UnderIsMap(ps, "nonce");
  }

  lemma MemberParts(m: Member, rest: string)
    ensures var s, params := MemberText(m) + rest, ParamsText(m.params);
      var p := |m.key| + 2 + |ListText(m.listed)| + |m.gap| + 1;
      && s == m.key + (['='] + (InnerText(m) + rest))
      && |s| > |m.key| + 1 && s[|m.key|] == '=' && s[|m.key| + 1] == '('
      && s[|m.key| + 2..] == ListText(m.listed) + (m.gap + ([')'] + (params + rest)))
      && p + |params| == |MemberText(m)| && s[p..] == params + rest
      && s[|m.key| + 1..p + |params|] == InnerText(m)
  {
    hide ListText, ParamsText;
    var s, params := MemberText(m) + rest, ParamsText(m.params);
    var list := ListText(m.listed) + (m.gap + [')']);
    assert InnerText(m) == ['('] + (list + params);
    assert s[|m.key| + 1..|MemberText(m)|] == InnerText(m);
  }

  lemma MemberReads(m: Member, rest: string)
    requires GoodMember(m) && Ends(rest) && (rest != "" ==> rest[0] != ';')
    ensures ParseMember(MemberText(m) + rest) == Some(Parsed(EntryMeans(m), |MemberText(m)|))
  {
    hide ParseKey, ParseComponents, ParseParams, ListText, ParamsText, Keyed, GoodListed, GoodParams, Gap, Ends,
      ParamsOf, MapOf, NumberUnder, TextUnder, ComponentsMean, MemberText, InnerText;
    MemberParts(m, rest);
    KeyedIsKey(m.key);
    KeyReadsBack(m.key, ['='] + (InnerText(m) + rest));
    ListReads(m.listed, m.gap, ParamsText(m.params) + rest);
    ParamsRead(m.params, rest, map[]);
    SixUnder(m.params);
  }

  lemma LastOfHeader(m: Member)
    requires GoodMember(m)
    ensures ParseItem(MemberText(m) + m.after) == Some(Parsed((EntryMeans(m), false), |MemberText(m) + m.after|))
  {
    hide ParseMember, MemberText, EntryMeans, GoodListed, GoodParams, Keyed, Span;
    GapEnds(m.after, "");
    assert m.after + "" == m.after;
    MemberReads(m, m.after);
    GapSpan(m.after, "");
    assert (MemberText(m) + m.after)[|MemberText(m)|..] == m.after;
  }

  lemma ItemOfHeader(m: Member, more: string)
    requires GoodMember(m) && (more != "" ==> more[0] != ' ' && more[0] != '\t')
    ensures var text := MemberText(m) + (m.after + ([','] + m.next));
            ParseItem(text + more) == Some(Parsed((EntryMeans(m), true), |text|))
  {
    hide ParseMember, MemberText, EntryMeans, GoodListed, GoodParams, Keyed, Gap, Span;
    var rest := m.after + ([','] + (m.next + more));
    var t := MemberText(m) + rest;
    assert MemberText(m) + (m.after + ([','] + m.next)) + more == t;
    GapEnds(m.after, [','] + (m.next + more));
    MemberReads(m, rest);
    assert t[|MemberText(m)|..] == rest;
    GapSpan(m.after, [','] + (m.next + more));
    assert t[|MemberText(m)| + |m.after| + 1..] == m.next + more;
    GapSpan(m.next, more);
  }

  lemma GapEnds(gap: string, rest: string)
    requires Gap(gap) && (rest == "" || rest[0] == ',')
    ensures Ends(gap + rest) && (gap + rest != "" ==> (gap + rest)[0] != ';')
  {
    assert gap == "" ==> gap + rest == rest;
    assert gap != "" ==> (gap + rest)[0] == gap[0];
  }

  lemma MembersStart(ms: seq<Member>)
    requires GoodMembers(ms) && ms != []
    ensures MembersText(ms) != "" && MembersText(ms)[0] != ' ' && MembersText(ms)[0] != '\t'
  {
    assert GoodMember(ms[0]);
    assert MembersText(ms)[0] == ms[0].key[0];
  }

  lemma OneMember(m: Member)
    requires GoodMember(m)
    ensures MembersText([m]) == MemberText(m) + m.after && EntriesMean([m]) == [EntryMeans(m)]
  {
    hide MemberText, EntryMeans, GoodMember;
    assert m.after + "" == m.after;
  }

  lemma MoreMembers(ms: seq<Member>)
    requires |ms| > 1 && GoodMembers(ms)
    ensures var m := ms[0];
      && MembersText(ms) == (MemberText(m) + (m.after + ([','] + m.next))) + MembersText(ms[1..])
      && EntriesMean(ms) == [EntryMeans(m)] + EntriesMean(ms[1..])
  {
    hide MemberText, EntryMeans, GoodMember;
    var m, more := ms[0], MembersText(ms[1..]);
    Regroup(MemberText(m), m.after, m.next, more);
  }

  lemma Regroup(a: string, b: string, c: string, more: string)
    ensures a + (b + ([','] + (c + more))) == (a + (b + ([','] + c))) + more
  {
  }

  lemma {:induction false} MembersRead(ms: seq<Member>)
    requires GoodMembers(ms) && ms != []
    ensures ParseMembers(MembersText(ms)) == Some(EntriesMean(ms))
    decreases |ms|
  {
    var m := ms[0];
    hide ParseItem, ParseMembers, GoodMember, MemberText, EntryMeans, MembersText, EntriesMean;
    if |ms| == 1 {
      assert ms == [m];
      LastOfHeader(m);
      OneMember(m);
      MembersStop(MembersText(ms), EntryMeans(m));
    } else {
      MembersStart(ms[1..]);
      ItemOfHeader(m, MembersText(ms[1..]));
      MoreMembers(ms);
      MembersStep(MemberText(m) + (m.after + ([','] + m.next)), MembersText(ms[1..]), EntryMeans(m));
      MembersRead(ms[1..]);
    }
  }

  lemma MembersStop(s: string, e: Entry)
    requires ParseItem(s) == Some(Parsed((e, false), |s|))
    ensures ParseMembers(s) == Some([e])
  {
    hide ParseItem;
  }

  lemma MembersStep(text: string, more: string, e: Entry)
    requires ParseItem(text + more) == Some(Parsed((e, true), |text|))
    ensures ParseMembers(text + more) == Joined([e], ParseMembers(more))
  {
    hide ParseItem;
    assert (text + more)[|text|..] == more;
  }

  ghost predicate Writes(s: string, entries: seq<Entry>) {
    exists lead: string, ms: seq<Member> :: WrittenAs(s, lead, ms) && EntriesMean(ms) == entries
  }

  predicate WrittenAs(s: string, lead: string, ms: seq<Member>) {
    Gap(lead) && GoodMembers(ms) && ms != [] && s == lead + MembersText(ms)
  }

  lemma WrittenIsRead(s: string, lead: string, ms: seq<Member>)
    requires WrittenAs(s, lead, ms)
    ensures ParseSignatureInput(s) == Some(EntriesMean(ms))
  {
    hide ParseMembers, MembersText, GoodMembers, EntriesMean, Span;
    MembersStart(ms);
    GapSpan(lead, MembersText(ms));
    assert s[|lead|..] == MembersText(ms);
    MembersRead(ms);
  }

  // ---------- and only that is read ----------

  lemma {:induction false} BodyIsEscaped(s: string)
    requires QuotedBody(s).Some?
    ensures var r := QuotedBody(s).value; s[..r.used] == Escaped(r.value) + ['"']
    decreases |s|
  {
    if s[0] != '"' {
      var n := if s[0] == '\\' then 2 else 1;
      BodyIsEscaped(s[n..]);
      var rest := QuotedBody(s[n..]).value;
      hide QuotedBody;
      assert s[..n + rest.used] == s[..n] + s[n..][..rest.used] by { Halves(s, n, rest.used); }
      EscapedCons(s[n - 1], rest.value);
      assert s[..n] == if s[0] == '\\' then ['\\', s[1]] else [s[0]];
    }
  }

  lemma EscapedCons(c: char, s: string)
    ensures Escaped([c] + s) == (if c == '"' || c == '\\' then ['\\', c] else [c]) + Escaped(s)
  {
    assert ([c] + s)[1..] == s;
  }

  lemma StringIsWritten(s: string)
    requires ParseQuotedString(s).Some?
    ensures var r := ParseQuotedString(s).value; s[..r.used] == StringText(r.value)
  {
    BodyIsEscaped(s[1..]);
    var body := QuotedBody(s[1..]).value;
    assert s[..1 + body.used] == ['"'] + s[1..][..body.used];
  }

  lemma KeyIsWritten(s: string)
    requires ParseKey(s).Some?
    ensures var r := ParseKey(s).value; Keyed(r.value) && s[..r.used] == r.value && |r.value| == r.used
  {
    var r := ParseKey(s).value;
    forall k | 0 <= k < |r.value| ensures KeyChar(r.value[k]) { if k > 0 { assert s[k] == s[1..][k - 1]; } }
    KeyedIsKey(r.value);
  }

  lemma TokenIsWritten(s: string, n: nat)
    requires s != "" && TokenStart(s[0]) && n == 1 + Span(s[1..], TokenChar)
    ensures Token(s[..n])
  {
    forall k | 0 <= k < n ensures TokenChar(s[k]) { if k > 0 { assert s[k] == s[1..][k - 1]; } }
  }

  lemma IntegerIsWritten(s: string) returns (x: Item)
    requires s != "" && (s[0] == '-' || IsDigit(s[0])) && ParseInteger(s).Some?
    ensures var r := ParseInteger(s).value;
            GoodItem(x) && s[..r.used] == ItemText(x) && r.value == ItemMeans(x)
  {
    hide DigitsValue, Number, IntegerValue, Span;
    var sign := if s[0] == '-' then 1 else 0;
    var n := Span(s[sign..], IsDigit);
    var d := s[sign..][..n];
    x := IntegerItem(s[0] == '-', d);
    DigitsAre(d);
    SignedValue(d);
    assert s[..sign + n] == s[..sign] + d by { Halves(s, sign, n); }
    assert s[..sign] == if s[0] == '-' then ['-'] else [];
    assert [] + d == d;
  }

  lemma DigitsAre(d: string)
    requires forall k :: 0 <= k < |d| ==> IsDigit(d[k])
    ensures Digits(d) && AllDigits(d) && DigitsValue(d) == Number(d)
  {
    NumberIsValue(d);
  }

  lemma ItemIsWritten(s: string) returns (x: Item)
    requires ParseBareItem(s).Some?
    ensures var r := ParseBareItem(s).value;
            GoodItem(x) && s[..r.used] == ItemText(x) && r.value == ItemMeans(x)
  {
    hide ParseInteger, ParseQuotedString, StringText, Token, Digits, Number;
    if s[0] == '"' {
      StringIsWritten(s);
      x := StringItem(ParseQuotedString(s).value.value);
    } else if s[0] == '?' {
      x := FlagItem(s[1] == '1');
      assert s[..2] == ['?', s[1]];
    } else if s[0] == '-' || IsDigit(s[0]) {
      x := IntegerIsWritten(s);
    } else {
      var n := 1 + Span(s[1..], TokenChar);
      TokenIsWritten(s, n);
      x := TokenItem(s[..n]);
    }
  }

  lemma ValueIsWritten(s: string) returns (item: Option<Item>)
    requires ParseValue(s).Some?
    ensures var r := ParseValue(s).value;
      && (item.Some? ==> GoodItem(item.value)) && s[..r.used] == ValueText(item)
      && r.value == if item.None? then Flag(true) else ItemMeans(item.value)
  {
    hide ParseBareItem, GoodItem, ItemText, ItemMeans;
    if s != "" && s[0] == '=' {
      var x := ItemIsWritten(s[1..]);
      item := Some(x);
      assert s[..1 + ParseBareItem(s[1..]).value.used] == ['='] + s[1..][..ParseBareItem(s[1..]).value.used];
    } else {
      item := None;
    }
  }

  lemma ParamIsWritten(s: string) returns (p: Param)
    requires ParseParam(s).Some?
    ensures var r := ParseParam(s).value;
            GoodParam(p) && s[..r.used] == ParamText(p) && r.value == (p.key, ParamMeans(p))
  {
    hide ParseValue, ParseKey, Span, ValueText, Keyed, ItemMeans, GoodItem;
    var sp := 1 + Span(s[1..], IsSp);
    var key := ParseKey(s[sp..]).value;
    var k := sp + key.used;
    var v := ParseValue(s[k..]).value;
    KeyIsWritten(s[sp..]);
    var item := ValueIsWritten(s[k..]);
    p := Param(s[1..][..sp - 1], key.value, item);
    assert s[..k + v.used] == [';'] + (s[1..][..sp - 1] + (s[sp..][..key.used] + s[k..][..v.used]));
  }

  lemma {:induction false} ParamsAreWritten(s: string, out: map<string, BareItem>) returns (ps: seq<Param>)
    requires ParseParams(s, out).Some?
    ensures var r := ParseParams(s, out).value;
            GoodParams(ps) && s[..r.used] == ParamsText(ps) && r.value == MapOf(ps, out)
    decreases |s|
  {
    hide ParseParam, ParamText, ParamMeans, GoodParam;
    if s == "" || s[0] != ';' {
      ps := [];
    } else {
      var p := ParamIsWritten(s);
      var first := ParseParam(s).value;
      var now := out[first.value.0 := first.value.1];
      var more := ParamsAreWritten(s[first.used..], now);
      var rest := ParseParams(s[first.used..], now).value;
      ps := [p] + more;
      assert ps[1..] == more;
      assert s[..first.used + rest.used] == s[..first.used] + s[first.used..][..rest.used];
    }
  }

  lemma ComponentIsWritten(s: string, gap: string) returns (c: Listed)
    requires ParseComponent(s).Some? && Gap(gap)
    ensures c.gap == gap && GoodParams(c.params)
    ensures var r := ParseComponent(s).value; s[..r.used] == ComponentText(c) && r.value == ComponentMeans(c)
  {
    hide ParseQuotedString, ParseParams, StringText, ParamsText, GoodParams, AsString, TextUnder, MapOf;
    var name := ParseQuotedString(s).value;
    StringIsWritten(s);
    var ps := ParamsAreWritten(s[name.used..], map[]);
    var params := ParseParams(s[name.used..], map[]).value;
    c := Listed(gap, name.value, ps);
    UnderIsMap(ps, "key");
    assert s[..name.used + params.used] == s[..name.used] + s[name.used..][..params.used];
  }

  lemma SpanIsGap(s: string)
    ensures Gap(s[..Span(s, IsSp)])
  {
  }

  lemma NextIsWritten(s: string) returns (c: Listed)
    requires ParseNext(s).Some? && ParseNext(s).value.value.Some?
    ensures Gap(c.gap) && GoodParams(c.params)
    ensures var r := ParseNext(s).value;
            s[..r.used] == c.gap + ComponentText(c) && r.value == Some(ComponentMeans(c))
  {
    hide ParseComponent, ComponentText, ComponentMeans, GoodParams, Gap, Span;
    var sp := Span(s, IsSp);
    SpanIsGap(s);
    c := ComponentIsWritten(s[sp..], s[..sp]);
    var r := ParseComponent(s[sp..]).value;
    assert s[..sp + r.used] == s[..sp] + s[sp..][..r.used];
  }

  lemma EndIsWritten(s: string) returns (gap: string)
    requires ParseNext(s).Some? && ParseNext(s).value.value.None?
    ensures Gap(gap) && s[..ParseNext(s).value.used] == gap + [')']
  {
    hide ParseComponent;
    gap := s[..Span(s, IsSp)];
    SpanIsGap(s);
  }

  lemma {:induction false} ListIsWritten(s: string) returns (cs: seq<Listed>, gap: string)
    requires ParseComponents(s).Some?
    ensures GoodListed(cs) && Gap(gap)
    ensures var r := ParseComponents(s).value;
            s[..r.used] == ListText(cs) + (gap + [')']) && r.value == ComponentsMean(cs)
    decreases |s|
  {
    hide ParseNext, ComponentText, ComponentMeans, GoodParams, Gap;
    var next := ParseNext(s).value;
    if next.value.None? {
      cs := [];
      gap := EndIsWritten(s);
    } else {
      var c := NextIsWritten(s);
      var more;
      more, gap := ListIsWritten(s[next.used..]);
      var rest := ParseComponents(s[next.used..]).value;
      cs := [c] + more;
      ListGrows(c, more);
      assert s[..next.used + rest.used] == s[..next.used] + s[next.used..][..rest.used];
    }
  }

  lemma ListGrows(c: Listed, more: seq<Listed>)
    requires Gap(c.gap) && GoodParams(c.params) && GoodListed(more)
    ensures GoodListed([c] + more)
    ensures ListText([c] + more) == (c.gap + ComponentText(c)) + ListText(more)
    ensures ComponentsMean([c] + more) == [ComponentMeans(c)] + ComponentsMean(more)
  {
    hide Gap, GoodParams, ComponentText, ComponentMeans;
    assert ([c] + more)[1..] == more;
  }

  lemma MemberIsWritten(s: string) returns (m: Member)
    requires ParseMember(s).Some?
    ensures GoodMember(m)
    ensures var r := ParseMember(s).value; s[..r.used] == MemberText(m) && r.value == EntryMeans(m)
    ensures m.after == "" && m.next == ""
  {
    hide ParseKey, ParseComponents, ParseParams, ListText, ParamsText, Keyed, GoodListed, GoodParams, Gap,
      ParamsOf, MapOf, NumberUnder, TextUnder, ComponentsMean;
    var name := ParseKey(s).value;
    var k := name.used + 2;
    var list := ParseComponents(s[k..]).value;
    var p := k + list.used;
    var params := ParseParams(s[p..], map[]).value;
    KeyIsWritten(s);
    var cs, gap := ListIsWritten(s[k..]);
    var ps := ParamsAreWritten(s[p..], map[]);
    m := Member(name.value, cs, gap, ps, "", "");
    NoGap();
    SixUnder(ps);
    assert s[k - 1..p + params.used] == ['('] + (s[k..][..list.used] + s[p..][..params.used]);
    assert s[..p + params.used] == s[..name.used] + (['='] + s[k - 1..p + params.used]);
  }

  lemma NoGap()
    ensures Gap("")
  {
  }

  lemma HeaderItemIsWritten(s: string) returns (m: Member)
    requires ParseItem(s).Some?
    ensures GoodMember(m)
    ensures var r := ParseItem(s).value;
      && r.value.0 == EntryMeans(m)
      && s[..r.used] == MemberText(m) + (m.after + if r.value.1 then [','] + m.next else "")
      && (!r.value.1 ==> r.used == |s|)
  {
    hide ParseMember, MemberText, EntryMeans, Span, GoodListed, GoodParams, Keyed, Gap;
    var bare := MemberIsWritten(s);
    var n := ParseMember(s).value.used;
    var sp := Span(s[n..], IsSp);
    var after := n + sp;
    SpanIsGap(s[n..]);
    if after == |s| {
      NoGap();
      m := bare.(after := s[n..][..sp]);
      Halves(s, n, sp);
      assert m.after + "" == m.after;
    } else {
      var next := Span(s[after + 1..], IsSp);
      SpanIsGap(s[after + 1..]);
      m := bare.(after := s[n..][..sp], next := s[after + 1..][..next]);
      Halves(s, n, sp);
      Halves(s, after, 1);
      Halves(s, after + 1, next);
      assert s[after..][..1] == [','];
    }
    SameMember(bare, m);
  }

  lemma Halves(s: string, n: nat, more: nat)
    requires n + more <= |s|
    ensures s[..n + more] == s[..n] + s[n..][..more]
  {
  }

  // The spaces around the comma are no part of a member.
  lemma SameMember(a: Member, b: Member)
    requires GoodMember(a) && b == a.(after := b.after, next := b.next) && Gap(b.after) && Gap(b.next)
    ensures GoodMember(b) && MemberText(b) == MemberText(a) && EntryMeans(b) == EntryMeans(a)
  {
    hide GoodListed, GoodParams, ListText, ParamsText, NumberUnder, TextUnder, ComponentsMean;
  }

  lemma {:induction false} MembersAreWritten(s: string) returns (ms: seq<Member>)
    requires ParseMembers(s).Some?
    ensures GoodMembers(ms) && ms != [] && s == MembersText(ms) && ParseMembers(s) == Some(EntriesMean(ms))
    decreases |s|
  {
    hide ParseItem, GoodMember, MemberText, EntryMeans, MembersText, EntriesMean;
    var m := HeaderItemIsWritten(s);
    var item := ParseItem(s).value;
    if item.value.1 {
      var more := MembersAreWritten(s[item.used..]);
      ms := [m] + more;
      assert ms[1..] == more;
      MoreMembers(ms);
      assert s == s[..item.used] + s[item.used..];
    } else {
      ms := [m];
      OneMember(m);
      assert s[..item.used] == s;
    }
  }

  lemma ReadIsWritten(s: string)
    requires ParseSignatureInput(s).Some?
    ensures Writes(s, ParseSignatureInput(s).value)
  {
    hide ParseMembers, MembersText, GoodMembers, EntriesMean, Span;
    var sp := Span(s, IsSp);
    var ms := MembersAreWritten(s[sp..]);
    assert s == s[..sp] + s[sp..];
    assert WrittenAs(s, s[..sp], ms);
  }

  // The parser accepts a header, with these entries, exactly when the grammar writes it with them.
  lemma ReadExactly(s: string, entries: seq<Entry>)
    ensures ParseSignatureInput(s) == Some(entries) <==> Writes(s, entries)
  {
    hide ParseSignatureInput, EntriesMean, GoodMembers;
    if ParseSignatureInput(s) == Some(entries) { ReadIsWritten(s); }
    if lead: string, ms: seq<Member> :| WrittenAs(s, lead, ms) && EntriesMean(ms) == entries {
      WrittenIsRead(s, lead, ms);
    }
  }
}
