// Which crawlers a request claims to be, and what the result says about all of its claims together.
module IdentityClaims {
  import opened Wrappers
  import opened Text
  import opened Identity

  // ---------- the claims ----------

  // The fragment stands somewhere in the text, whatever the case of the text's letters.
  ghost predicate Mentions(ua: string, fragment: string) {
    exists k :: MentionsAt(ua, fragment, k)
  }

  predicate MentionsAt(ua: string, fragment: string, k: int) {
    && 0 <= k <= |ua| - |fragment|
    && forall j :: 0 <= j < |fragment| ==> Lowered(ua[k + j]) == fragment[j]
  }

  // A row's claim is its first fragment that the user-agent mentions.
  ghost predicate ClaimOf(row: Row, ua: string, fragment: string) {
    exists k :: 0 <= k < |row.fragments| && FirstMentioned(row, ua, fragment, k)
  }

  ghost predicate FirstMentioned(row: Row, ua: string, fragment: string, k: nat)
    requires k < |row.fragments|
  {
    && row.fragments[k] == fragment && Mentions(ua, fragment)
    && forall j :: 0 <= j < k ==> !Mentions(ua, row.fragments[j])
  }

  lemma {:induction false} IncludesIs(ua: string, part: string)
    ensures Includes(Lower(ua), part) <==> Mentions(ua, part)
    decreases |ua|
  {
    var s := Lower(ua);
    if |part| <= |s| {
      assert s[..|part|] == part <==> MentionsAt(ua, part, 0) by {
        assert forall j :: 0 <= j < |part| ==> s[j] == Lowered(ua[j]);
        if MentionsAt(ua, part, 0) { assert s[..|part|] == part; }
        if s[..|part|] == part { assert forall j :: 0 <= j < |part| ==> s[..|part|][j] == s[j]; }
      }
      if s != [] {
        IncludesIs(ua[1..], part);
        assert s[1..] == Lower(ua[1..]);
        if k :| MentionsAt(ua[1..], part, k) { assert MentionsAt(ua, part, k + 1); }
        if k :| MentionsAt(ua, part, k) { assert k > 0 ==> MentionsAt(ua[1..], part, k - 1); }
      }
    }
  }

  lemma {:induction false} FirstHitIs(ua: string, fragments: seq<string>, hit: string)
    ensures FirstHit(Lower(ua), fragments) == Some(hit) <==> ClaimOf(Row("", fragments), ua, hit)
  {
    hide Includes, Mentions;
    if fragments != [] {
      IncludesIs(ua, fragments[0]);
      FirstHitIs(ua, fragments[1..], hit);
      var row, rest := Row("", fragments), Row("", fragments[1..]);
      if k :| 0 <= k < |rest.fragments| && FirstMentioned(rest, ua, hit, k) && !Mentions(ua, fragments[0]) {
        assert FirstMentioned(row, ua, hit, k + 1);
      }
      if k :| 0 <= k < |row.fragments| && FirstMentioned(row, ua, hit, k) {
        if k > 0 { assert FirstMentioned(rest, ua, hit, k - 1); }
      }
      if Mentions(ua, fragments[0]) && fragments[0] == hit { assert FirstMentioned(row, ua, hit, 0); }
    }
  }

  // The claims a table gives, in its order: one for every row with a fragment that is mentioned first and
  // is not empty.
  ghost predicate ClaimsAre(ua: string, table: seq<Row>, claims: seq<(string, string)>, rows: seq<nat>) {
    && |rows| == |claims|
    && (forall i, j :: 0 <= i < j < |rows| ==> rows[i] < rows[j])
    && (forall i :: 0 <= i < |rows| ==>
          && rows[i] < |table| && claims[i].0 == table[rows[i]].id && claims[i].1 != ""
          && ClaimOf(table[rows[i]], ua, claims[i].1))
    && forall k, f :: 0 <= k < |table| && f != "" && ClaimOf(table[k], ua, f) ==> k in rows
  }

  lemma RowClaims(row: Row, ua: string, hit: string)
    ensures FirstHit(Lower(ua), row.fragments) == Some(hit) <==> ClaimOf(row, ua, hit)
  {
    hide Mentions;
    FirstHitIs(ua, row.fragments, hit);
    var other := Row("", row.fragments);
    if k :| 0 <= k < |row.fragments| && FirstMentioned(row, ua, hit, k) { assert FirstMentioned(other, ua, hit, k); }
    if k :| 0 <= k < |row.fragments| && FirstMentioned(other, ua, hit, k) { assert FirstMentioned(row, ua, hit, k); }
  }

  // The rows of the claims.
  function RowsOf(ua: string, table: seq<Row>): seq<nat> {
    if table == [] then []
    else
      var n := |table| - 1;
      match FirstHit(Lower(ua), table[n].fragments)
      case Some(hit) => if hit == "" then RowsOf(ua, table[..n]) else RowsOf(ua, table[..n]) + [n]
      case None => RowsOf(ua, table[..n])
  }

  lemma {:induction false} ClaimsInSnoc(ua: string, table: seq<Row>, row: Row)
    ensures ClaimsIn(ua, table + [row]) == ClaimsIn(ua, table) + ClaimsIn(ua, [row])
  {
    hide FirstHit, Lower;
    if table == [] {
      assert table + [row] == [row];
    } else {
      assert (table + [row])[1..] == table[1..] + [row];
      ClaimsInSnoc(ua, table[1..], row);
    }
  }

  // A row more, and its claim if it has one.
  lemma OneRowMore(ua: string, front: seq<Row>, row: Row, claims: seq<(string, string)>, rows: seq<nat>,
                   hit: Option<string>)
    requires ClaimsAre(ua, front, claims, rows)
    requires forall f :: hit == Some(f) <==> ClaimOf(row, ua, f)
    ensures hit == None || hit == Some("") ==> ClaimsAre(ua, front + [row], claims, rows)
    ensures hit.Some? && hit != Some("") ==>
      ClaimsAre(ua, front + [row], claims + [(row.id, hit.value)], rows + [|front|])
  {
    hide ClaimOf;
    var table := front + [row];
    assert forall k :: 0 <= k < |front| ==> table[k] == front[k];
    assert table[|front|] == row;
  }

  lemma LastRow(ua: string, table: seq<Row>)
    requires table != []
    ensures var n := |table| - 1;
      var front, hit := table[..n], FirstHit(Lower(ua), table[n].fragments);
      if hit == None || hit == Some("") then
        ClaimsIn(ua, table) == ClaimsIn(ua, front) && RowsOf(ua, table) == RowsOf(ua, front)
      else
        && ClaimsIn(ua, table) == ClaimsIn(ua, front) + [(table[n].id, hit.value)]
        && RowsOf(ua, table) == RowsOf(ua, front) + [n]
  {
    hide FirstHit, Lower;
    var n := |table| - 1;
    var front, row := table[..n], table[n];
    assert table == front + [row] && [row][1..] == [];
    ClaimsInSnoc(ua, front, row);
    assert ClaimsIn(ua, front) + [] == ClaimsIn(ua, front);
  }

  lemma {:induction false} ClaimsInAre(ua: string, table: seq<Row>)
    ensures ClaimsAre(ua, table, ClaimsIn(ua, table), RowsOf(ua, table))
  {
    if table == [] { return; }
    hide FirstHit, Lower, ClaimOf, ClaimsAre, ClaimsIn, RowsOf;
    var n := |table| - 1;
    var front, row := table[..n], table[n];
    var hit := FirstHit(Lower(ua), row.fragments);
    ClaimsInAre(ua, front);
    assert table == front + [row];
    LastRow(ua, table);
    forall f ensures hit == Some(f) <==> ClaimOf(row, ua, f) { RowClaims(row, ua, f); }
    OneRowMore(ua, front, row, ClaimsIn(ua, front), RowsOf(ua, front), hit);
  }

  function Claimed(claims: seq<Claim>): seq<(string, string)> {
    seq(|claims|, k requires 0 <= k < |claims| => (claims[k].operatorId, claims[k].fragment))
  }

  // A request is asked about exactly the crawlers its user-agent mentions, in the order of the table.
  lemma ClaimsExactly(ua: string, signerHost: Option<string>, ctx: Context)
    ensures var table, r := Table(ctx), CheckIdentity(ua, signerHost, ctx);
      && (r.None? <==> forall k, f :: 0 <= k < |table| && f != "" ==> !ClaimOf(table[k], ua, f))
      && (r.Some? ==> exists rows: seq<nat> :: ClaimsAre(ua, table, Claimed(r.value.claims), rows))
  {
    hide ClaimsIn, RowsOf, ClaimOf, CheckClaim, Worst;
    var table, r := Table(ctx), CheckIdentity(ua, signerHost, ctx);
    var found, rows := ClaimsIn(ua, table), RowsOf(ua, table);
    ClaimsInAre(ua, table);
    if r.Some? {
      assert found == Claimed(r.value.claims);
      assert ClaimOf(table[rows[0]], ua, found[0].1) && found[0].1 != "";
    }
  }

  // ---------- the result as a whole ----------

  ghost predicate SomeClaim(claims: seq<Claim>, check: Check) {
    exists k :: 0 <= k < |claims| && claims[k].check == check
  }

  // Forged if any claim is; else unverified if any is; else verified by address if any is; else signed.
  lemma OverallExactly(ua: string, signerHost: Option<string>, ctx: Context)
    requires CheckIdentity(ua, signerHost, ctx).Some?
    ensures var r := CheckIdentity(ua, signerHost, ctx).value;
      r.check == if SomeClaim(r.claims, Forged) then Forged
                 else if SomeClaim(r.claims, Unverified) then Unverified
                 else if SomeClaim(r.claims, IpVerified) then IpVerified
                 else Signed
  {
    hide ClaimsIn, CheckClaim;
    var r := CheckIdentity(ua, signerHost, ctx).value;
    WorstIsGreatest(r.claims);
  }

  // The claim named for a verdict is the first that has it.
  lemma {:induction false} DecidingExactly(claims: seq<Claim>, check: Check, claim: Claim)
    ensures DecidingClaim(claims, check) == Some(claim)
       <==> exists k :: 0 <= k < |claims| && claims[k] == claim && FirstOf(claims, check, k)
  {
    if claims != [] {
      DecidingExactly(claims[1..], check, claim);
      if claims[0].check != check {
        if k :| 0 <= k < |claims[1..]| && claims[1..][k] == claim && FirstOf(claims[1..], check, k) {
          assert FirstOf(claims, check, k + 1);
        }
        if k :| 0 <= k < |claims| && claims[k] == claim && FirstOf(claims, check, k) {
          assert k > 0 && FirstOf(claims[1..], check, k - 1) && claims[1..][k - 1] == claim;
        }
      } else {
        assert FirstOf(claims, check, 0);
      }
    }
  }

  predicate FirstOf(claims: seq<Claim>, check: Check, k: int) {
    0 <= k < |claims| && claims[k].check == check && forall j :: 0 <= j < k ==> claims[j].check != check
  }
}
