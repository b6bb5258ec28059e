// Signed requests (RFC 9421): the parser of Signature-Input, the signature base a verifier rebuilds
// from it, and the signer whose text must give the same base. Signatures themselves are left out: the
// two sides agree when they sign and verify the same base.
module BotAuth {
  import opened Wrappers
  import opened StructuredFields

  datatype Component = Component(name: string, key: Option<string>, raw: string)

  datatype SignatureParams = SignatureParams(
    created: Option<int>, expires: Option<int>, keyid: Option<string>, tag: Option<string>,
    alg: Option<string>, nonce: Option<string>)

  datatype Entry = Entry(name: string, components: seq<Component>, params: SignatureParams, rawMemberText: string)

  function AsString(params: map<string, BareItem>, key: string): Option<string> {
    if key in params && params[key].Str? then Some(params[key].text) else None
  }

  function AsInt(params: map<string, BareItem>, key: string): Option<int> {
    if key in params && params[key].Num? then Some(params[key].value) else None
  }

  function ParamsOf(params: map<string, BareItem>): SignatureParams {
    SignatureParams(AsInt(params, "created"), AsInt(params, "expires"), AsString(params, "keyid"),
                    AsString(params, "tag"), AsString(params, "alg"), AsString(params, "nonce"))
  }

  function ParseComponent(s: string): (r: Option<Parsed<Component>>)
    ensures r.Some? ==> 0 < r.value.used <= |s|
  {
    var name := ParseQuotedString(s);
    if name.None? then None
    else
      var params := ParseParams(s[name.value.used..], map[]);
      if params.None? then None
      else
        var used := name.value.used + params.value.used;
        Some(Parsed(Component(name.value.value, AsString(params.value.value, "key"), s[..used]), used))
  }

  // The next component of an inner list, or None as its value at the closing parenthesis.
  function ParseNext(s: string): (r: Option<Parsed<Option<Component>>>)
    ensures r.Some? ==> 0 < r.value.used <= |s|
  {
    var sp := Span(s, IsSp);
    if sp == |s| then None
    else if s[sp] == ')' then Some(Parsed(None, sp + 1))
    else
      var c := ParseComponent(s[sp..]);
      if c.None? then None else Some(Parsed(Some(c.value.value), sp + c.value.used))
  }

  // The inner list after its opening parenthesis.
  function ParseComponents(s: string): (r: Option<Parsed<seq<Component>>>)
    ensures r.Some? ==> 0 < r.value.used <= |s|
    decreases |s|
  {
    var c := ParseNext(s);
    if c.None? then None
    else if c.value.value.None? then Some(Parsed([], c.value.used))
    else Prepend([c.value.value.value], c.value.used, ParseComponents(s[c.value.used..]))
  }

  // label=(components);params
  function ParseMember(s: string): (r: Option<Parsed<Entry>>)
    ensures r.Some? ==> 0 < r.value.used <= |s|
  {
    var name := ParseKey(s);
    if name.None? then None
    else
      var m := name.value.used + 1;
      if m >= |s| || s[m - 1] != '=' || s[m] != '(' then None
      else
        var list := ParseComponents(s[m + 1..]);
        if list.None? then None
        else
          var p := m + 1 + list.value.used;
          var params := ParseParams(s[p..], map[]);
          if params.None? then None
          else
            var used := p + params.value.used;
            Some(Parsed(Entry(name.value.value, list.value.value, ParamsOf(params.value.value), s[m..used]), used))
  }

  // A member with what follows it: the end, or a comma, in which case more must follow.
  function ParseItem(s: string): (r: Option<Parsed<(Entry, bool)>>)
    ensures r.Some? ==> 0 < r.value.used <= |s|
  {
    var m := ParseMember(s);
    if m.None? then None
    else
      var after := m.value.used + Span(s[m.value.used..], IsSp);
      if after == |s| then Some(Parsed((m.value.value, false), after))
      else if s[after] != ',' then None
      else Some(Parsed((m.value.value, true), after + 1 + Span(s[after + 1..], IsSp)))
  }

  function Joined(first: seq<Entry>, rest: Option<seq<Entry>>): Option<seq<Entry>> {
    if rest.None? then None else Some(first + rest.value)
  }

  function ParseMembers(s: string): Option<seq<Entry>>
    decreases |s|
  {
    var m := ParseItem(s);
    if m.None? then None
    else if !m.value.value.1 then Some([m.value.value.0])
    else Joined([m.value.value.0], ParseMembers(s[m.value.used..]))
  }

  function ParseSignatureInput(value: string): Option<seq<Entry>> {
    var sp := Span(value, IsSp);
    if sp == |value| then None else ParseMembers(value[sp..])
  }

  // ---------- the same, on the cursor ----------

  method ReadComponent(c: Cursor) returns (r: Option<Component>)
    requires c.Valid()
    modifies c
    ensures c.Valid()
    ensures var p := ParseComponent(old(c.Rest()));
            r.Some? == p.Some? && (p.Some? ==> r.value == p.value.value && c.i == old(c.i) + p.value.used)
  {
    hide ParseQuotedString, ParseParams;
    var start := c.i;
    var name := c.ReadQuotedString();
    if name.None? { return None; }
    assert c.s[start..][c.i - start..] == c.s[c.i..];
    var params := c.ReadParams();
    if params.None? { return None; }
    assert c.s[start..c.i] == c.s[start..][..c.i - start];
    return Some(Component(name.value, AsString(params.value, "key"), c.s[start..c.i]));
  }

  method ReadNext(c: Cursor) returns (r: Option<Option<Component>>)
    requires c.Valid()
    modifies c
    ensures c.Valid()
    ensures var p := ParseNext(old(c.Rest()));
            r.Some? == p.Some? && (p.Some? ==> r.value == p.value.value && c.i == old(c.i) + p.value.used)
  {
    hide ParseComponent, Span;
    ghost var start := c.i;
    c.SkipSp();
    assert c.s[start..][c.i - start..] == c.s[c.i..];
    if c.At(')') {
      c.i := c.i + 1;
      return Some(None);
    }
    if c.i >= |c.s| { return None; }
    var component := ReadComponent(c);
    return if component.None? then None else Some(component);
  }

  method ReadComponents(c: Cursor) returns (r: Option<seq<Component>>)
    requires c.Valid()
    modifies c
    ensures c.Valid()
    ensures var p := ParseComponents(old(c.Rest()));
            r.Some? == p.Some? && (p.Some? ==> r.value == p.value.value && c.i == old(c.i) + p.value.used)
  {
    hide ParseNext, Prepend;
    ghost var start := c.i;
    var components := [];
    PrependEnds([], 0, ParseComponents(c.s[start..]));
    while true
      invariant c.Valid() && start <= c.i
      invariant ParseComponents(c.s[start..]) == Prepend(components, c.i - start, ParseComponents(c.s[c.i..]))
      decreases |c.s| - c.i
    {
      ghost var before := c.i;
      PrependEnds(components, c.i - start, ParseComponents(c.s[c.i..]));
      var next := ReadNext(c);
      if next.None? { return None; }
      if next.value.None? { return Some(components); }
      assert c.s[before..][c.i - before..] == c.s[c.i..];
      PrependTwice(components, before - start, [next.value.value], c.i - before, ParseComponents(c.s[c.i..]));
      components := components + [next.value.value];
    }
  }

  method ReadMember(c: Cursor) returns (r: Option<Entry>)
    requires c.Valid()
    modifies c
    ensures c.Valid()
    ensures var p := ParseMember(old(c.Rest()));
            r.Some? == p.Some? && (p.Some? ==> r.value == p.value.value && c.i == old(c.i) + p.value.used)
  {
    hide ParseKey, ParseComponents, ParseParams, ParamsOf;
    ghost var start := c.i;
    ghost var all := c.s[start..];
    var name := c.ReadKey();
    if name.None? || !c.At('=') { return None; }
    c.i := c.i + 1;
    var member := c.i;
    if !c.At('(') { return None; }
    c.i := c.i + 1;
    assert all[c.i - start..] == c.s[c.i..];
    var components := ReadComponents(c);
    if components.None? { return None; }
    assert all[c.i - start..] == c.s[c.i..];
    var params := c.ReadParams();
    if params.None? { return None; }
    SliceOfRest(c.s, start, member, c.i);
    return Some(Entry(name.value, components.value, ParamsOf(params.value), c.s[member..c.i]));
  }

  method ReadItem(c: Cursor) returns (r: Option<(Entry, bool)>)
    requires c.Valid()
    modifies c
    ensures c.Valid()
    ensures var p := ParseItem(old(c.Rest()));
            r.Some? == p.Some? && (p.Some? ==> r.value == p.value.value && c.i == old(c.i) + p.value.used)
  {
    hide ParseMember, Span;
    ghost var start := c.i;
    ghost var all := c.s[start..];
    var member := ReadMember(c);
    if member.None? { return None; }
    assert all[c.i - start..] == c.s[c.i..];
    c.SkipSp();
    if c.i >= |c.s| { return Some((member.value, false)); }
    if !c.At(',') { return None; }
    c.i := c.i + 1;
    assert all[c.i - start..] == c.s[c.i..];
    c.SkipSp();
    return Some((member.value, true));
  }

  // Every turn of the loop reads at least one character, so the parser ends on every input.
  method ReadSignatureInput(value: string) returns (r: Option<seq<Entry>>)
    ensures r == ParseSignatureInput(value)
  {
    hide ParseItem, Span;
    var c := new Cursor(value);
    assert value[0..] == value;
    c.SkipSp();
    if c.i >= |c.s| { return None; }
    var entries := [];
    ghost var all := ParseMembers(value[c.i..]);
    JoinedNone(all);
    while true
      invariant c.Valid() && c.s == value
      invariant all == Joined(entries, ParseMembers(value[c.i..]))
      decreases |value| - c.i
    {
      ghost var before := c.i;
      var item := ReadItem(c);
      if item.None? { return None; }
      if !item.value.1 { return Some(entries + [item.value.0]); }
      assert value[before..][c.i - before..] == value[c.i..];
      JoinedTwice(entries, [item.value.0], ParseMembers(value[c.i..]));
      entries := entries + [item.value.0];
    }
  }

  lemma JoinedNone(rest: Option<seq<Entry>>)
    ensures Joined([], rest) == rest
  {
    if rest.Some? { assert [] + rest.value == rest.value; }
  }

  lemma JoinedTwice(a: seq<Entry>, b: seq<Entry>, rest: Option<seq<Entry>>)
    ensures Joined(a, Joined(b, rest)) == Joined(a + b, rest)
  {
    if rest.Some? { assert a + (b + rest.value) == (a + b) + rest.value; }
  }
}
