// What a signature base says about a request, whatever components it covers: which bases there are, and
// when two requests give the same one.
module SignedComponents {
  import opened Wrappers
  import opened Text
  import opened StructuredFields
  import opened BotAuth
  import opened SignedRequests

  predicate Derived(c: Component) { c.name != "" && c.name[0] == '@' }

  // The request shows this component: one of the four derived ones, without a key, or a header that is
  // there and, under a key, has that member.
  predicate Shown(c: Component, facts: Facts) {
    if Derived(c) then c.key.None? && c.name in ["@authority", "@method", "@path", "@target-uri"]
    else
      && Lower(c.name) in facts.headers
      && (c.key.Some? ==> DictMemberRaw(facts.headers[Lower(c.name)], c.key.value).Some?)
  }

  // Two requests are the same as far as one component tells.
  predicate SameOn(c: Component, f: Facts, g: Facts)
    requires Shown(c, f) && Shown(c, g)
  {
    && (c.name == "@authority" ==> Lower(f.authority) == Lower(g.authority))
    && (c.name == "@method" ==> Upper(f.verb) == Upper(g.verb))
    && (c.name == "@path" ==> f.path == g.path)
    && (c.name == "@target-uri" ==> f.targetUri == g.targetUri)
    && (!Derived(c) && c.key.None? ==> Trim(f.headers[Lower(c.name)]) == Trim(g.headers[Lower(c.name)]))
    && (!Derived(c) && c.key.Some? ==> DictMemberRaw(f.headers[Lower(c.name)], c.key.value)
                                       == DictMemberRaw(g.headers[Lower(c.name)], c.key.value))
  }

  lemma DerivedNames(name: string)
    requires name in ["@authority", "@method", "@path", "@target-uri"]
    ensures name != "" && name[0] == '@'
    ensures name == "@authority" || name == "@method" || name == "@path" || name == "@target-uri"
  {
  }

  lemma NamesDiffer()
    ensures "@authority" != "@method" && "@authority" != "@path" && "@authority" != "@target-uri"
    ensures "@method" != "@path" && "@method" != "@target-uri" && "@path" != "@target-uri"
  {
    assert "@authority"[1] == 'a' && "@method"[1] == 'm' && "@path"[1] == 'p' && "@target-uri"[1] == 't';
  }

  lemma ShownHasValue(c: Component, facts: Facts)
    ensures ComponentValue(c, facts).Some? <==> Shown(c, facts)
  {
    hide DictMemberRaw, Lower, Upper, Trim;
  }

  lemma SameHasSameValue(c: Component, f: Facts, g: Facts)
    requires Shown(c, f) && Shown(c, g)
    ensures ComponentValue(c, f) == ComponentValue(c, g) <==> SameOn(c, f, g)
  {
    hide DictMemberRaw, Lower, Upper, Trim;
    NamesDiffer();
    if Derived(c) { DerivedNames(c.name); }
  }

  lemma {:induction false} LinesOf(components: seq<Component>, facts: Facts)
    ensures BaseLines(components, facts).Some? <==> forall k :: 0 <= k < |components| ==> Shown(components[k], facts)
    ensures BaseLines(components, facts).Some? ==>
      var lines := BaseLines(components, facts).value;
      && |lines| == |components|
      && forall k :: 0 <= k < |lines| ==>
           && ComponentValue(components[k], facts).Some?
           && lines[k] == Line(components[k].raw, ComponentValue(components[k], facts).value)
  {
    hide ComponentValue, Shown;
    if components != [] {
      var n := |components| - 1;
      LinesOf(components[..n], facts);
      ShownHasValue(components[n], facts);
      assert forall k :: 0 <= k < n ==> components[..n][k] == components[k];
    }
  }

  // There is a base exactly when the request shows every component.
  lemma BaseExistsWhen(entry: Entry, facts: Facts)
    ensures BuildSignatureBase(entry, facts).Some?
       <==> forall k :: 0 <= k < |entry.components| ==> Shown(entry.components[k], facts)
  {
    hide Shown, Join;
    LinesOf(entry.components, facts);
  }

  // A component's own text and its values hold no line feed.
  predicate OneLined(c: Component, facts: Facts) {
    OneLine(c.raw) && (ComponentValue(c, facts).Some? ==> OneLine(ComponentValue(c, facts).value))
  }

  lemma LineIsOneLine(raw: string, value: string)
    requires OneLine(raw) && OneLine(value)
    ensures OneLine(Line(raw, value))
  {
  }

  // Two requests give one base exactly when they are the same on every component it covers.
  lemma BaseBindsComponents(entry: Entry, f: Facts, g: Facts)
    requires BuildSignatureBase(entry, f).Some? && BuildSignatureBase(entry, g).Some?
    requires OneLine(ParamsLine(entry.rawMemberText))
    requires forall k :: 0 <= k < |entry.components| ==>
      OneLined(entry.components[k], f) && OneLined(entry.components[k], g)
    ensures forall k :: 0 <= k < |entry.components| ==>
      Shown(entry.components[k], f) && Shown(entry.components[k], g)
    ensures BuildSignatureBase(entry, f) == BuildSignatureBase(entry, g)
       <==> forall k :: 0 <= k < |entry.components| ==> SameOn(entry.components[k], f, g)
  {
    hide Shown, SameOn, ComponentValue, Join, Line, ParamsLine, OneLine, BaseLines;
    var cs, last := entry.components, ParamsLine(entry.rawMemberText);
    LinesOf(cs, f);
    LinesOf(cs, g);
    var a, b := BaseLines(cs, f).value, BaseLines(cs, g).value;
    forall k | 0 <= k < |cs|
      ensures OneLine(a[k]) && OneLine(b[k]) && (a[k] == b[k] <==> SameOn(cs[k], f, g))
    {
      var x, y := ComponentValue(cs[k], f).value, ComponentValue(cs[k], g).value;
      assert OneLined(cs[k], f) && OneLined(cs[k], g);
      LineIsOneLine(cs[k].raw, x);
      LineIsOneLine(cs[k].raw, y);
      SameHasSameValue(cs[k], f, g);
      if a[k] == b[k] { LineIsInjective(cs[k].raw, x, y); }
    }
    if BuildSignatureBase(entry, f) == BuildSignatureBase(entry, g) {
      JoinIsInjective(a + [last], b + [last]);
      forall k | 0 <= k < |cs| ensures a[k] == b[k] { assert (a + [last])[k] == a[k] && (b + [last])[k] == b[k]; }
    }
    if forall k :: 0 <= k < |cs| ==> SameOn(cs[k], f, g) { assert a == b; }
  }

  // ---------- the text of a base ----------

  function Each(s: string, f: char -> char): string { seq(|s|, k requires 0 <= k < |s| => f(s[k])) }

  // What a request shows for a component.
  function Sees(c: Component, facts: Facts): string
    requires Shown(c, facts)
  {
    if c.name == "@authority" then Each(facts.authority, Lowered)
    else if c.name == "@method" then Each(facts.verb, Raised)
    else if c.name == "@path" then facts.path
    else if c.name == "@target-uri" then facts.targetUri
    else if c.key.None? then Trim(facts.headers[Lower(c.name)])
    else DictMemberRaw(facts.headers[Lower(c.name)], c.key.value).value
  }

  predicate AllShown(components: seq<Component>, facts: Facts) {
    forall k :: 0 <= k < |components| ==> Shown(components[k], facts)
  }

  // One line a component, each ended by a line feed.
  function ComponentLines(components: seq<Component>, facts: Facts): string
    requires AllShown(components, facts)
  {
    if components == [] then ""
    else
      (components[0].raw + ": " + Sees(components[0], facts) + "\n") + ComponentLines(components[1..], facts)
  }

  lemma SeesIsValue(c: Component, facts: Facts)
    requires Shown(c, facts)
    ensures ComponentValue(c, facts) == Some(Sees(c, facts))
  {
    hide DictMemberRaw, Trim;
    NamesDiffer();
    if Derived(c) { DerivedNames(c.name); }
    assert Lower(facts.authority) == Each(facts.authority, Lowered);
    assert Upper(facts.verb) == Each(facts.verb, Raised);
  }

  lemma {:induction false} LinesJoin(components: seq<Component>, lines: seq<string>, last: string, facts: Facts)
    requires AllShown(components, facts) && |lines| == |components|
    requires forall k :: 0 <= k < |lines| ==> lines[k] == Line(components[k].raw, Sees(components[k], facts))
    ensures Join(lines + [last], "\n") == ComponentLines(components, facts) + last
  {
    hide Sees, Shown;
    if lines == [] {
      assert lines + [last] == [last];
    } else {
      assert (lines + [last])[1..] == lines[1..] + [last];
      LinesJoin(components[1..], lines[1..], last, facts);
      assert lines[0] == components[0].raw + ": " + Sees(components[0], facts);
    }
  }

  // The base is the components' lines, each with what the request shows, and then the member as it came.
  lemma BaseReads(entry: Entry, facts: Facts)
    requires AllShown(entry.components, facts)
    ensures BuildSignatureBase(entry, facts)
         == Some(ComponentLines(entry.components, facts) + ("\"@signature-params\": " + entry.rawMemberText))
  {
    hide Shown, Sees, Join, ComponentValue;
    LinesOf(entry.components, facts);
    ParamsLineIs(entry.rawMemberText);
    forall k | 0 <= k < |entry.components|
      ensures ComponentValue(entry.components[k], facts) == Some(Sees(entry.components[k], facts))
    {
      SeesIsValue(entry.components[k], facts);
    }
    LinesJoin(entry.components, BaseLines(entry.components, facts).value, ParamsLine(entry.rawMemberText), facts);
  }

  // ---------- the member of a dictionary header ----------

  datatype Member = Member(key: string, value: string)

  // A quoted string or a byte sequence, as RFC 8941 (sections 3.3.3 and 3.3.5) writes them.
  ghost predicate IsItem(value: string) {
    || (exists text :: Clean(text) && value == Quoted(text))
    || (exists bytes: string :: ':' !in bytes && value == [':'] + (bytes + [':']))
  }

  function Written(members: seq<Member>): string {
    if members == [] then ""
    else
      var first := members[0].key + (['='] + members[0].value);
      if |members| == 1 then first else first + (", " + Written(members[1..]))
  }

  function FirstUnder(members: seq<Member>, key: string): Option<string> {
    if members == [] then None
    else if members[0].key == key then Some(members[0].value)
    else FirstUnder(members[1..], key)
  }

  lemma ItemIsSkipped(value: string, rest: string)
    requires IsItem(value)
    ensures SkipValue(value + rest) == Some(|value|)
  {
    hide ParseBareItem, IndexOf;
    if text :| Clean(text) && value == Quoted(text) {
      QuotedReadsBack(text, rest);
      assert (value + rest)[0] == '"';
    } else {
      var bytes: string :| ':' !in bytes && value == [':'] + (bytes + [':']);
      var s := value + rest;
      assert s[1..] == bytes + [':'] + rest;
      IndexOfIs(s[1..], ':', |bytes|);
    }
  }

  lemma ItemReadsBack(m: Member, rest: string)
    requires IsKey(m.key) && IsItem(m.value) && (rest == "" || rest[0] == ',')
    ensures ParseDictItem(m.key + (['='] + m.value) + rest)
         == Some(Parsed(DictItem(m.key, m.value), |m.key| + 1 + |m.value|))
  {
    hide ParseKey, SkipValue;
    var s := m.key + (['='] + m.value) + rest;
    assert s == m.key + (['='] + (m.value + rest));
    KeyReadsBack(m.key, ['='] + (m.value + rest));
    ItemIsSkipped(m.value, rest);
    var n := |m.key| + 1;
    assert s[n..] == m.value + rest && s[n + |m.value|..] == rest;
    assert s[n..n + |m.value|] == m.value;
  }

  predicate StartsNoSpace(s: string) { s == "" || !IsSp(s[0]) }

  lemma CommaIsSkipped(rest: string)
    requires StartsNoSpace(rest)
    ensures SkipComma(", " + rest) == Some(2)
  {
    var s := ", " + rest;
    assert Span(s, IsSp) == 0;
    assert s[1..][0] == ' ' && s[1..][1..] == rest;
    assert Span(rest, IsSp) == 0;
  }

  lemma WrittenStarts(members: seq<Member>)
    requires forall k :: 0 <= k < |members| ==> IsKey(members[k].key)
    ensures StartsNoSpace(Written(members))
  {
    if members != [] {
      var first := members[0].key;
      assert IsKey(first) && !IsSp(first[0]);
      assert Written(members)[0] == first[0];
    }
  }

  // Of the members written into a header, the first under the key is found, as written; none if there is
  // none.
  lemma {:induction false} FirstMemberIsFound(members: seq<Member>, key: string)
    requires forall k :: 0 <= k < |members| ==> IsKey(members[k].key) && IsItem(members[k].value)
    ensures DictMember(Written(members), key) == FirstUnder(members, key)
    ensures DictMemberRaw(Written(members), key) == FirstUnder(members, key)
  {
    hide ParseDictItem, SkipComma, IsItem, IsKey;
    var s := Written(members);
    WrittenStarts(members);
    NoSpan(s);
    assert s[0..] == s;
    if members == [] {
      NothingWritten();
    } else {
      var m := members[0];
      var rest := if |members| == 1 then "" else ", " + Written(members[1..]);
      assert s == m.key + (['='] + m.value) + rest;
      ItemReadsBack(m, rest);
      assert s[|m.key| + 1 + |m.value|..] == rest;
      if m.key != key {
        FirstMemberIsFound(members[1..], key);
        if |members| == 1 {
          NoComma();
          assert members[1..] == [];
        } else {
          WrittenStarts(members[1..]);
          CommaIsSkipped(Written(members[1..]));
          assert rest[2..] == Written(members[1..]);
        }
      }
    }
  }

  lemma NoSpan(s: string)
    requires StartsNoSpace(s)
    ensures Span(s, IsSp) == 0
  {
  }

  lemma NothingWritten()
    ensures ParseDictItem("").None?
  {
  }

  lemma NoComma()
    ensures SkipComma("").None?
  {
  }
}
