// Does the caller's address back the crawler its user-agent names? The end of the evidence chain:
// fetched prefixes, merged into range sets, asked about one address.
module Identity {
  import opened Wrappers
  import opened Text
  import opened IpAddress
  import opened RangeSets
  import CrawlerRanges

  datatype Check = Signed | IpVerified | Unverified | Forged

  datatype ProofKind = ByRanges | BySignature | NoProof

  datatype RangesOperator = RangesOperator(
    id: string, fragments: seq<string>, kind: ProofKind, forgedEligible: bool, fetchedAt: Option<int>,
    prefixes: seq<string>)

  datatype Document = Document(proxies: seq<seq<string>>, operators: seq<RangesOperator>)

  datatype CompiledOperator = CompiledOperator(
    id: string, fragments: seq<string>, kind: ProofKind, forgedEligible: bool, fetchedAt: Option<int>, ranges: RangeSet)

  datatype Compiled = Compiled(table: seq<CompiledOperator>, proxies: seq<RangeSet>)

  // A row of the crawler table a user-agent is searched by.
  datatype Row = Row(id: string, fragments: seq<string>)

  // `registry` is the built-in table; `backs(host, fragment)` says a signer speaks for a crawler.
  datatype Context = Context(
    ranges: Option<Compiled>, clientIp: Option<string>, now: int, registry: seq<Row>, backs: (string, string) -> bool)

  datatype Claim = Claim(operatorId: string, fragment: string, check: Check)

  datatype IdentityResult = IdentityResult(check: Check, claims: seq<Claim>)

  // ---------- the compiled document ----------

  function CompileOperator(o: RangesOperator): CompiledOperator {
    CompiledOperator(o.id, o.fragments, o.kind, o.forgedEligible, o.fetchedAt, FromStrings(o.prefixes))
  }

  function CompileRanges(doc: Document): Compiled {
    Compiled(seq(|doc.operators|, k requires 0 <= k < |doc.operators| => CompileOperator(doc.operators[k])),
             seq(|doc.proxies|, k requires 0 <= k < |doc.proxies| => FromStrings(doc.proxies[k])))
  }

  // A Map built from the table: a later operator with the same id replaces an earlier one.
  function Lookup(table: seq<CompiledOperator>, id: string): Option<CompiledOperator> {
    if table == [] then None
    else if table[|table| - 1].id == id then Some(table[|table| - 1])
    else Lookup(table[..|table| - 1], id)
  }

  predicate IsFresh(op: CompiledOperator, now: int) {
    op.fetchedAt.Some? && now - op.fetchedAt.value <= CrawlerRanges.FRESH_MS
  }

  const RESERVED: seq<string> := [
    "0.0.0.0/8", "10.0.0.0/8", "100.64.0.0/10", "127.0.0.0/8", "169.254.0.0/16", "172.16.0.0/12",
    "192.0.0.0/24", "192.0.2.0/24", "192.168.0.0/16", "198.18.0.0/15", "198.51.100.0/24",
    "203.0.113.0/24", "224.0.0.0/4", "240.0.0.0/4",
    "::/128", "::1/128", "64:ff9b::/96", "100::/64", "2001:db8::/32", "fc00::/7", "fe80::/10", "ff00::/8" ]

  function AnyLength(family: Family): nat { 0 }

  predicate IsUsablePublicIp(ip: ParsedIp, proxies: seq<RangeSet>) {
    && !FromCidrs(Parsed(RESERVED, AnyLength)).Has(ip)
    && forall k :: 0 <= k < |proxies| ==> !proxies[k].Has(ip)
  }

  // ---------- the caller's address ----------

  predicate IsPort(s: string) { s != [] && s[0] == ':' && 1 <= |s| - 1 <= 5 && AllDigits(s[1..]) }

  predicate IsDottedQuad(s: string) {
    var parts := Split(s, '.');
    |parts| == 4 && forall k :: 0 <= k < 4 ==> 1 <= |parts[k]| <= 3 && AllDigits(parts[k])
  }

  function WithoutQuotes(s: string): string {
    var t := Trim(s);
    if |t| >= 2 && t[0] == '"' && t[|t| - 1] == '"' then Trim(t[1..|t| - 1]) else t
  }

  // An address, in brackets or dotted with or without a port.
  function ParseHost(v: string): Option<ParsedIp> {
    var close, colon := IndexOf(v, ']'), IndexOf(v, ':');
    if 2 <= close < |v| && v[0] == '[' && (close + 1 == |v| || IsPort(v[close + 1..])) then ParseIp(v[1..close])
    else if colon < |v| && IsDottedQuad(v[..colon]) && IsPort(v[colon..]) then ParseIp(v[..colon])
    else ParseIp(v)
  }

  // A header's spelling: quotes, brackets and a port are dropped.
  function ParseClientAddress(s: string): Option<ParsedIp> { ParseHost(WithoutQuotes(s)) }

  // ---------- claims ----------

  predicate Includes(s: string, part: string) {
    |part| <= |s| && (s[..|part|] == part || (s != [] && Includes(s[1..], part)))
  }

  function FirstHit(lower: string, fragments: seq<string>): Option<string> {
    if fragments == [] then None
    else if Includes(lower, fragments[0]) then Some(fragments[0])
    else FirstHit(lower, fragments[1..])
  }

  // One claim a row at most; an empty fragment names nobody.
  function ClaimsIn(ua: string, table: seq<Row>): seq<(string, string)> {
    if table == [] then []
    else
      match FirstHit(Lower(ua), table[0].fragments)
      case Some(hit) =>
        if hit == "" then ClaimsIn(ua, table[1..]) else [(table[0].id, hit)] + ClaimsIn(ua, table[1..])
      case None => ClaimsIn(ua, table[1..])
  }

  function Table(ctx: Context): seq<Row> {
    match ctx.ranges
    case None => ctx.registry
    case Some(c) => seq(|c.table|, k requires 0 <= k < |c.table| => Row(c.table[k].id, c.table[k].fragments))
  }

  function ClientIp(ctx: Context): Option<ParsedIp> {
    match ctx.clientIp
    case None => None
    case Some(text) => if text == "" then None else ParseClientAddress(text)
  }

  // The caller's own public address, when the request shows one.
  function UsableIp(ctx: Context): Option<ParsedIp> {
    match ClientIp(ctx)
    case None => None
    case Some(ip) =>
      if IsUsablePublicIp(ip, if ctx.ranges.Some? then ctx.ranges.value.proxies else []) then Some(ip) else None
  }

  function Operator(ctx: Context, id: string): Option<CompiledOperator> {
    if ctx.ranges.None? then None else Lookup(ctx.ranges.value.table, id)
  }

  function CheckClaim(id: string, fragment: string, signerHost: Option<string>, ctx: Context): Check {
    if signerHost.Some? && ctx.backs(signerHost.value, fragment) then Signed
    else
      match (Operator(ctx, id), UsableIp(ctx))
      case (Some(op), Some(ip)) =>
        if op.kind != ByRanges then Unverified
        else if op.ranges.Has(ip) then IpVerified
        else if !op.forgedEligible || !IsFresh(op, ctx.now) then Unverified
        else Forged
      case _ => Unverified
  }

  function Rank(c: Check): nat {
    match c
    case Signed => 0
    case IpVerified => 1
    case Unverified => 2
    case Forged => 3
  }

  function Worst(claims: seq<Claim>): Check {
    if claims == [] then Signed
    else
      var w := Worst(claims[..|claims| - 1]);
      if Rank(claims[|claims| - 1].check) > Rank(w) then claims[|claims| - 1].check else w
  }

  function CheckIdentity(ua: string, signerHost: Option<string>, ctx: Context): Option<IdentityResult> {
    var found := ClaimsIn(ua, Table(ctx));
    if found == [] then None
    else
      var claims := seq(|found|, k requires 0 <= k < |found| =>
        Claim(found[k].0, found[k].1, CheckClaim(found[k].0, found[k].1, signerHost, ctx)));
      Some(IdentityResult(Worst(claims), claims))
  }

  function DecidingClaim(claims: seq<Claim>, check: Check): Option<Claim> {
    if claims == [] then None
    else if claims[0].check == check then Some(claims[0])
    else DecidingClaim(claims[1..], check)
  }

  // ---------- the overall check ----------

  lemma {:induction false} WorstIsGreatest(claims: seq<Claim>)
    ensures forall k :: 0 <= k < |claims| ==> Rank(claims[k].check) <= Rank(Worst(claims))
    ensures claims != [] ==> exists k :: 0 <= k < |claims| && claims[k].check == Worst(claims)
  {
    if claims != [] {
      var front := claims[..|claims| - 1];
      WorstIsGreatest(front);
      if front == [] {
        assert claims[0].check == Worst(claims);
      } else {
        var k :| 0 <= k < |front| && front[k].check == Worst(front);
        assert claims[k].check == Worst(front);
      }
    }
  }

  lemma {:induction false} DecidingIsFirst(claims: seq<Claim>, check: Check)
    ensures DecidingClaim(claims, check).Some? <==> exists k :: 0 <= k < |claims| && claims[k].check == check
    ensures DecidingClaim(claims, check).Some? ==> DecidingClaim(claims, check).value.check == check
  {
    if claims != [] {
      DecidingIsFirst(claims[1..], check);
      if k :| 0 <= k < |claims| && claims[k].check == check {
        assert k > 0 ==> claims[1..][k - 1].check == check;
      }
    }
  }

  // The overall check is the worst of the claims, and some claim is the one to name for it.
  lemma OverallIsWorst(ua: string, signerHost: Option<string>, ctx: Context)
    requires CheckIdentity(ua, signerHost, ctx).Some?
    ensures var r := CheckIdentity(ua, signerHost, ctx).value;
            && (r.check == Forged <==> exists k :: 0 <= k < |r.claims| && r.claims[k].check == Forged)
            && DecidingClaim(r.claims, r.check).Some?
            && forall k :: 0 <= k < |r.claims| ==> Rank(r.claims[k].check) <= Rank(r.check)
  {
    hide ClaimsIn, CheckClaim;
    var r := CheckIdentity(ua, signerHost, ctx).value;
    WorstIsGreatest(r.claims);
    DecidingIsFirst(r.claims, r.check);
  }

  // ---------- when a claim is called forged ----------

  predicate Vouched(fragment: string, signerHost: Option<string>, ctx: Context) {
    signerHost.Some? && ctx.backs(signerHost.value, fragment)
  }

  // The address is the caller's own public one and some listed text of this operator names it.
  ghost predicate Listed(o: RangesOperator, ctx: Context) {
    UsableIp(ctx).Some? && exists t :: t in o.prefixes && Names(t, UsableIp(ctx).value)
  }

  // The list is one of ranges, fresh, and trusted to accuse.
  predicate MayAccuse(o: RangesOperator, now: int) {
    o.kind == ByRanges && o.forgedEligible && o.fetchedAt.Some? && now - o.fetchedAt.value <= CrawlerRanges.FRESH_MS
  }

  lemma {:induction false} LookupLast(ops: seq<RangesOperator>, k: nat)
    requires k < |ops| && forall j :: k < j < |ops| ==> ops[j].id != ops[k].id
    ensures Lookup(CompileRanges(Document([], ops)).table, ops[k].id) == Some(CompileOperator(ops[k]))
    decreases |ops|
  {
    hide CompileOperator;
    var table := CompileRanges(Document([], ops)).table;
    OperatorIds(ops);
    if k < |ops| - 1 {
      var front := ops[..|ops| - 1];
      assert table[..|ops| - 1] == CompileRanges(Document([], front)).table;
      LookupLast(front, k);
    }
  }

  lemma OperatorIds(ops: seq<RangesOperator>)
    ensures forall j :: 0 <= j < |ops| ==> CompileOperator(ops[j]).id == ops[j].id
  {
  }

  // With a document's entry for an operator, the verdict on a claim is read off its listed texts.
  lemma VerdictFromList(doc: Document, k: nat, fragment: string, signerHost: Option<string>, ctx: Context)
    requires k < |doc.operators| && forall j :: k < j < |doc.operators| ==> doc.operators[j].id != doc.operators[k].id
    requires ctx.ranges == Some(CompileRanges(doc))
    ensures var o := doc.operators[k];
      var verdict := CheckClaim(o.id, fragment, signerHost, ctx);
      && (verdict == Signed <==> Vouched(fragment, signerHost, ctx))
      && (verdict == IpVerified <==> !Vouched(fragment, signerHost, ctx) && o.kind == ByRanges && Listed(o, ctx))
      && (verdict == Forged <==> !Vouched(fragment, signerHost, ctx) && UsableIp(ctx).Some? && !Listed(o, ctx)
                                 && MayAccuse(o, ctx.now))
  {
    var o := doc.operators[k];
    OperatorOf(doc, k, ctx);
    hide FromStrings, Names, UsableIp, CompileRanges, Lookup, Operator;
    if UsableIp(ctx).Some? { HasIsListed(o.prefixes, UsableIp(ctx).value); }
  }

  // Of the claims a request makes, exactly those are called forged that nobody vouches for, whose operator
  // has a fresh list of ranges trusted to accuse, none naming the caller's own public address.
  lemma ForgedExactly(doc: Document, k: nat, ua: string, signerHost: Option<string>, ctx: Context, claim: Claim)
    requires k < |doc.operators| && forall j :: k < j < |doc.operators| ==> doc.operators[j].id != doc.operators[k].id
    requires ctx.ranges == Some(CompileRanges(doc))
    requires CheckIdentity(ua, signerHost, ctx).Some? && claim in CheckIdentity(ua, signerHost, ctx).value.claims
    requires claim.operatorId == doc.operators[k].id
    ensures claim.check == Forged
       <==> && !Vouched(claim.fragment, signerHost, ctx) && MayAccuse(doc.operators[k], ctx.now)
            && UsableIp(ctx).Some? && forall t :: t in doc.operators[k].prefixes ==> !Names(t, UsableIp(ctx).value)
  {
    hide CheckIdentity, CheckClaim, Names, UsableIp, CompileRanges;
    ClaimIsChecked(ua, signerHost, ctx, claim);
    VerdictFromList(doc, k, claim.fragment, signerHost, ctx);
  }

  // ---------- a real crawler is never called forged ----------

  // A document entry generated from a source, or from several: its list holds each source's union at
  // that time.
  ghost predicate GeneratedFrom(o: RangesOperator, source: CrawlerRanges.SourceState, at: int) {
    forall p :: p in CrawlerRanges.UnionOf(source, at) ==> p in o.prefixes
  }

  lemma RealClaimIsNotForged(
    url: string, from: int, fetches: seq<CrawlerRanges.Fetch>, generatedAt: int, c: nat, p: string,
    doc: Document, k: nat, fragment: string, signerHost: Option<string>, ctx: Context, ip: ParsedIp)
    requires CrawlerRanges.InOrder(fetches, from) && from <= generatedAt
    requires fetches == [] || fetches[|fetches| - 1].at <= generatedAt
    requires var copies := CrawlerRanges.AppliedCopies(CrawlerRanges.EmptySourceState(url, from), fetches);
             c < |copies| && CrawlerRanges.HasPrefix(copies[c], p)
             && generatedAt - copies[c].at <= CrawlerRanges.UNION_MS
    requires Names(p, ip)
    requires k < |doc.operators| && forall j :: k < j < |doc.operators| ==> doc.operators[j].id != doc.operators[k].id
    requires GeneratedFrom(doc.operators[k],
               CrawlerRanges.After(CrawlerRanges.EmptySourceState(url, from), fetches), generatedAt)
    requires ctx.ranges == Some(CompileRanges(doc)) && ClientIp(ctx) == Some(ip)
    ensures var verdict := CheckClaim(doc.operators[k].id, fragment, signerHost, ctx);
            && verdict != Forged
            && (doc.operators[k].kind == ByRanges && UsableIp(ctx) == Some(ip) && !Vouched(fragment, signerHost, ctx)
                ==> verdict == IpVerified)
  {
    hide Names, CrawlerRanges.After, CrawlerRanges.AppliedCopies, CrawlerRanges.UnionOf, CrawlerRanges.HasPrefix;
    CrawlerRanges.UnionIsExact(url, from, fetches, generatedAt, p);
    assert p in doc.operators[k].prefixes;
    UsableIsClient(ctx);
    VerdictFromList(doc, k, fragment, signerHost, ctx);
  }

  // End to end, over any run of fetches: whatever user-agent a request from inside a prefix of a copy
  // applied no more than UNION_MS before the document was generated carries, no claim it makes for that
  // operator is called forged; and from the caller's own public address, with nobody vouching
  // otherwise, each such claim is verified.
  lemma RealCrawlerIsNeverForged(
    url: string, from: int, fetches: seq<CrawlerRanges.Fetch>, generatedAt: int, c: nat, p: string,
    doc: Document, k: nat, ua: string, signerHost: Option<string>, ctx: Context, ip: ParsedIp)
    requires CrawlerRanges.InOrder(fetches, from) && from <= generatedAt
    requires fetches == [] || fetches[|fetches| - 1].at <= generatedAt
    requires var copies := CrawlerRanges.AppliedCopies(CrawlerRanges.EmptySourceState(url, from), fetches);
             c < |copies| && CrawlerRanges.HasPrefix(copies[c], p)
             && generatedAt - copies[c].at <= CrawlerRanges.UNION_MS
    requires Names(p, ip)
    requires k < |doc.operators| && forall j :: k < j < |doc.operators| ==> doc.operators[j].id != doc.operators[k].id
    requires GeneratedFrom(doc.operators[k],
               CrawlerRanges.After(CrawlerRanges.EmptySourceState(url, from), fetches), generatedAt)
    requires ctx.ranges == Some(CompileRanges(doc)) && ClientIp(ctx) == Some(ip)
    ensures CheckIdentity(ua, signerHost, ctx).Some? ==>
      forall claim ::
        claim in CheckIdentity(ua, signerHost, ctx).value.claims && claim.operatorId == doc.operators[k].id ==>
        && claim.check != Forged
        && (doc.operators[k].kind == ByRanges && UsableIp(ctx) == Some(ip) && !Vouched(claim.fragment, signerHost, ctx)
            ==> claim.check == IpVerified)
  {
    hide *;
    if CheckIdentity(ua, signerHost, ctx).Some? {
      forall claim | claim in CheckIdentity(ua, signerHost, ctx).value.claims && claim.operatorId == doc.operators[k].id
        ensures claim.check != Forged
        ensures (doc.operators[k].kind == ByRanges && UsableIp(ctx) == Some(ip)
                 && !Vouched(claim.fragment, signerHost, ctx)) ==> claim.check == IpVerified
      {
        ClaimIsChecked(ua, signerHost, ctx, claim);
        RealClaimIsNotForged(url, from, fetches, generatedAt, c, p, doc, k, claim.fragment, signerHost, ctx, ip);
      }
    }
  }

  lemma ClaimIsChecked(ua: string, signerHost: Option<string>, ctx: Context, claim: Claim)
    requires CheckIdentity(ua, signerHost, ctx).Some? && claim in CheckIdentity(ua, signerHost, ctx).value.claims
    ensures claim.check == CheckClaim(claim.operatorId, claim.fragment, signerHost, ctx)
  {
    hide ClaimsIn, CheckClaim, Worst;
    var claims := CheckIdentity(ua, signerHost, ctx).value.claims;
    var j :| 0 <= j < |claims| && claims[j] == claim;
  }

  lemma UsableIsClient(ctx: Context)
    ensures UsableIp(ctx).Some? ==> UsableIp(ctx) == ClientIp(ctx)
  {
    hide IsUsablePublicIp, ClientIp;
  }

  lemma OperatorOf(doc: Document, k: nat, ctx: Context)
    requires k < |doc.operators| && forall j :: k < j < |doc.operators| ==> doc.operators[j].id != doc.operators[k].id
    requires ctx.ranges == Some(CompileRanges(doc))
    ensures Operator(ctx, doc.operators[k].id) == Some(CompileOperator(doc.operators[k]))
    ensures CompileOperator(doc.operators[k]).kind == doc.operators[k].kind
  {
    LookupLast(doc.operators, k);
    assert CompileRanges(Document([], doc.operators)).table == CompileRanges(doc).table;
    hide CompileRanges, Lookup;
  }
}
