// Rolling agent observations up to one row per agent: columns that add up to the row's own total, the
// strongest identity claim seen, and no observation lost.
module Rollup {
  import opened Sorting

  datatype Verdict = Paid | Denied | PaymentFailed | Blocked | Unservable | ServedFree | AgentReread

  datatype Identity = Unsigned | Masquerade | Verified

  // `agent` is the key an observation rolls up under; `human` reads are not listed.
  datatype Observation = Observation(
    agent: string, human: bool, verified: bool, sigInvalid: bool, verdict: Verdict, price: real, at: int)

  datatype AgentRow = AgentRow(
    agent: string, identity: Identity, requests: nat, paid: nat, denied: nat, paymentFailed: nat,
    blocked: nat, unservable: nat, free: nat, earned: real, missed: real, lastAt: int)

  function IdentityOf(o: Observation): Identity {
    if o.verified then Verified else if o.sigInvalid then Masquerade else Unsigned
  }

  function Fresh(o: Observation): AgentRow {
    AgentRow(o.agent, IdentityOf(o), 0, 0, 0, 0, 0, 0, 0, 0.0, 0.0, o.at)
  }

  function Label(known: Identity, seen: Identity): Identity {
    if seen == Verified then Verified
    else if seen == Masquerade && known != Verified then Masquerade
    else known
  }

  // One observation counted into its agent's row.
  function Count(row: AgentRow, o: Observation): AgentRow {
    var r := row.(identity := Label(row.identity, IdentityOf(o)), requests := row.requests + 1,
                  lastAt := if o.at > row.lastAt then o.at else row.lastAt);
    match o.verdict
    case Paid => r.(paid := r.paid + 1, earned := r.earned + o.price)
    case Denied => r.(denied := r.denied + 1, missed := r.missed + o.price)
    case PaymentFailed => r.(paymentFailed := r.paymentFailed + 1, missed := r.missed + o.price)
    case Blocked => r.(blocked := r.blocked + 1)
    case Unservable => r.(unservable := r.unservable + 1)
    case _ => r.(free := r.free + 1)
  }

  // The map of rows, in order of first sight.
  function CountInto(rows: seq<AgentRow>, o: Observation): seq<AgentRow> {
    if rows == [] then [Count(Fresh(o), o)]
    else if rows[0].agent == o.agent then [Count(rows[0], o)] + rows[1..]
    else [rows[0]] + CountInto(rows[1..], o)
  }

  function Rows(os: seq<Observation>): seq<AgentRow> {
    if os == [] then []
    else
      var n := |os| - 1;
      if os[n].human then Rows(os[..n]) else CountInto(Rows(os[..n]), os[n])
  }

  // Money first, then what was missed, then traffic, then the name, in the order of the reader's locale.
  function Outranks(nameFirst: (string, string) -> bool): (AgentRow, AgentRow) -> bool {
    (a: AgentRow, b: AgentRow) =>
      if a.earned != b.earned then a.earned > b.earned
      else if a.missed != b.missed then a.missed > b.missed
      else if a.requests != b.requests then a.requests > b.requests
      else nameFirst(a.agent, b.agent)
  }

  function RollupAgents(os: seq<Observation>, nameFirst: (string, string) -> bool): seq<AgentRow> {
    Sort(Rows(os), Outranks(nameFirst))
  }

  method CountLoop(rows: seq<AgentRow>, o: Observation) returns (after: seq<AgentRow>)
    ensures after == CountInto(rows, o)
  {
    hide Count;
    var k := 0;
    while k < |rows| && rows[k].agent != o.agent
      invariant 0 <= k <= |rows|
      invariant CountInto(rows, o) == rows[..k] + CountInto(rows[k..], o)
    {
      assert rows[k..][0] == rows[k] && rows[k..][1..] == rows[k + 1..];
      assert rows[..k + 1] == rows[..k] + [rows[k]];
      k := k + 1;
    }
    if k == |rows| {
      assert rows[..k] == rows && rows[k..] == [];
      return rows + [Count(Fresh(o), o)];
    }
    assert rows[k..][1..] == rows[k + 1..];
    return rows[..k] + [Count(rows[k], o)] + rows[k + 1..];
  }

  method RollupLoop(os: seq<Observation>, nameFirst: (string, string) -> bool) returns (rows: seq<AgentRow>)
    ensures rows == RollupAgents(os, nameFirst)
  {
    rows := [];
    var i := 0;
    while i < |os|
      invariant 0 <= i <= |os|
      invariant rows == Rows(os[..i])
    {
      assert os[..i + 1][..i] == os[..i];
      if !os[i].human { rows := CountLoop(rows, os[i]); }
      i := i + 1;
    }
    assert os[..i] == os;
    return Sort(rows, Outranks(nameFirst));
  }

  // ---------- what a row says ----------

  function Of(os: seq<Observation>, agent: string): seq<Observation> {
    if os == [] then []
    else
      var n := |os| - 1;
      if !os[n].human && os[n].agent == agent then Of(os[..n], agent) + [os[n]] else Of(os[..n], agent)
  }

  function Tally(os: seq<Observation>, v: Verdict): nat {
    if os == [] then 0
    else Tally(os[..|os| - 1], v) + if os[|os| - 1].verdict == v then 1 else 0
  }

  function Money(os: seq<Observation>, v: Verdict): real {
    if os == [] then 0.0
    else Money(os[..|os| - 1], v) + if os[|os| - 1].verdict == v then os[|os| - 1].price else 0.0
  }

  // The row of an agent, read off its own observations.
  predicate Describes(r: AgentRow, os: seq<Observation>) {
    && os != [] && r.requests == |os|
    && r.paid == Tally(os, Paid) && r.denied == Tally(os, Denied)
    && r.paymentFailed == Tally(os, PaymentFailed) && r.blocked == Tally(os, Blocked)
    && r.unservable == Tally(os, Unservable) && r.free == Tally(os, ServedFree) + Tally(os, AgentReread)
    && r.earned == Money(os, Paid) && r.missed == Money(os, Denied) + Money(os, PaymentFailed)
    && r.identity == Strongest(os)
    && (forall o :: o in os ==> o.at <= r.lastAt) && (exists o :: o in os && o.at == r.lastAt)
  }

  // One verified request proves the key; failing that, one failed signature is worth surfacing.
  function Strongest(os: seq<Observation>): Identity {
    if exists o :: o in os && o.verified then Verified
    else if exists o :: o in os && o.sigInvalid then Masquerade
    else Unsigned
  }

  lemma StrongestSnoc(os: seq<Observation>, o: Observation)
    ensures Strongest(os + [o]) == if os == [] then IdentityOf(o) else Label(Strongest(os), IdentityOf(o))
  {
    assert forall x :: x in os + [o] <==> x in os || x == o;
  }

  lemma CountDescribes(r: AgentRow, os: seq<Observation>, o: Observation)
    requires Describes(r, os)
    ensures Describes(Count(r, o), os + [o])
  {
    hide Strongest;
    assert (os + [o])[..|os|] == os;
    StrongestSnoc(os, o);
    assert o in os + [o];
    assert forall x :: x in os ==> x in os + [o];
  }

  lemma TallyOne(o: Observation, v: Verdict)
    ensures Tally([o], v) == if o.verdict == v then 1 else 0
    ensures Money([o], v) == if o.verdict == v then o.price else 0.0
  {
    assert Tally([o][..0], v) == 0 && Money([o][..0], v) == 0.0;
    assert Tally([o], v) == Tally([o][..0], v) + if [o][0].verdict == v then 1 else 0;
    assert Money([o], v) == Money([o][..0], v) + if [o][0].verdict == v then [o][0].price else 0.0;
  }

  lemma FirstDescribes(o: Observation)
    ensures Describes(Count(Fresh(o), o), [o])
  {
    hide Strongest, Tally, Money;
    assert [] + [o] == [o];
    StrongestSnoc([], o);
    assert o in [o];
    forall v: Verdict
      ensures Tally([o], v) == if o.verdict == v then 1 else 0
      ensures Money([o], v) == if o.verdict == v then o.price else 0.0
    {
      TallyOne(o, v);
    }
  }

  predicate OneRowEach(rows: seq<AgentRow>) {
    forall i, j :: 0 <= i < j < |rows| ==> rows[i].agent != rows[j].agent
  }

  ghost predicate Covers(rows: seq<AgentRow>, os: seq<Observation>) {
    && OneRowEach(rows)
    && (forall k :: 0 <= k < |rows| ==> Describes(rows[k], Of(os, rows[k].agent)))
    && (forall agent :: Of(os, agent) != [] ==> exists k :: 0 <= k < |rows| && rows[k].agent == agent)
  }

  lemma {:induction false} CountIntoIs(rows: seq<AgentRow>, o: Observation, agent: string)
    requires OneRowEach(rows)
    ensures var after := CountInto(rows, o);
      && OneRowEach(after) && |rows| <= |after| <= |rows| + 1
      && (forall k :: 0 <= k < |rows| ==>
            after[k] == if rows[k].agent == o.agent then Count(rows[k], o) else rows[k])
      && (|after| == |rows| + 1 <==> forall k :: 0 <= k < |rows| ==> rows[k].agent != o.agent)
      && (|after| == |rows| + 1 ==> after[|rows|] == Count(Fresh(o), o))
  {
    hide Count, Fresh;
    if rows != [] && rows[0].agent != o.agent {
      CountIntoIs(rows[1..], o, agent);
      var rest := CountInto(rows[1..], o);
      var after := [rows[0]] + rest;
      assert forall k :: 1 <= k < |after| ==> after[k] == rest[k - 1];
      assert forall k :: 1 <= k < |rows| ==> rows[1..][k - 1] == rows[k];
      CountKeepsAgent(o);
    } else {
      CountKeepsAgent(o);
    }
  }

  lemma CountKeepsAgent(o: Observation)
    ensures forall r: AgentRow {:trigger Count(r, o)} :: Count(r, o).agent == r.agent
    ensures Fresh(o).agent == o.agent
  {
  }

  lemma {:induction false} RowsCover(os: seq<Observation>)
    ensures Covers(Rows(os), os)
  {
    if os != [] {
      var n := |os| - 1;
      RowsCover(os[..n]);
      assert os == os[..n] + [os[n]];
      if os[n].human { CoversHuman(Rows(os[..n]), os[..n], os[n]); } else { CoversNext(Rows(os[..n]), os[..n], os[n]); }
    }
  }

  lemma OfSnoc(os: seq<Observation>, o: Observation, agent: string)
    ensures Of(os + [o], agent) == if !o.human && o.agent == agent then Of(os, agent) + [o] else Of(os, agent)
  {
    assert (os + [o])[..|os|] == os;
  }

  lemma CoversHuman(rows: seq<AgentRow>, os: seq<Observation>, o: Observation)
    requires Covers(rows, os) && o.human
    ensures Covers(rows, os + [o])
  {
    hide Describes;
    forall agent ensures Of(os + [o], agent) == Of(os, agent) { OfSnoc(os, o, agent); }
  }

  lemma {:induction false} CoversNext(rows: seq<AgentRow>, os: seq<Observation>, o: Observation)
    requires Covers(rows, os) && !o.human
    ensures Covers(CountInto(rows, o), os + [o])
  {
    hide Describes, Count, Fresh, CountInto, Of;
    var after := CountInto(rows, o);
    CountIntoIs(rows, o, o.agent);
    CountKeepsAgent(o);
    forall k | 0 <= k < |after| ensures Describes(after[k], Of(os + [o], after[k].agent)) {
      OfSnoc(os, o, after[k].agent);
      if k == |rows| {
        assert Of(os, o.agent) == [];
        assert [] + [o] == [o];
        FirstDescribes(o);
      } else if rows[k].agent == o.agent {
        CountDescribes(rows[k], Of(os, o.agent), o);
      }
    }
    forall agent | Of(os + [o], agent) != [] ensures exists k :: 0 <= k < |after| && after[k].agent == agent {
      OfSnoc(os, o, agent);
      if agent == o.agent && |after| == |rows| + 1 {
        assert after[|rows|].agent == agent;
      } else {
        var k :| 0 <= k < |rows| && rows[k].agent == agent;
        assert after[k].agent == agent;
      }
    }
  }

  // ---------- the columns ----------

  lemma {:induction false} TalliesAddUp(os: seq<Observation>)
    ensures |os| == Tally(os, Paid) + Tally(os, Denied) + Tally(os, PaymentFailed) + Tally(os, Blocked)
                  + Tally(os, Unservable) + Tally(os, ServedFree) + Tally(os, AgentReread)
  {
    if os != [] { TalliesAddUp(os[..|os| - 1]); }
  }

  lemma {:induction false} InsertOneEach(r: AgentRow, rows: seq<AgentRow>, le: (AgentRow, AgentRow) -> bool)
    requires OneRowEach(rows) && forall q :: q in rows ==> q.agent != r.agent
    ensures OneRowEach(Insert(r, rows, le))
  {
    if rows != [] && !le(r, rows[0]) {
      assert forall q :: q in rows[1..] ==> q in rows;
      InsertOneEach(r, rows[1..], le);
      InsertKeeps(r, rows[1..], le);
      var rest := Insert(r, rows[1..], le);
      assert rows[0] in rows;
      forall j | 0 <= j < |rest| ensures rest[j].agent != rows[0].agent {
        assert rest[j] in rest;
        if rest[j] != r { var k :| 0 <= k < |rows[1..]| && rows[1..][k] == rest[j]; }
      }
    }
  }

  lemma {:induction false} SortOneEach(rows: seq<AgentRow>, le: (AgentRow, AgentRow) -> bool)
    requires OneRowEach(rows)
    ensures OneRowEach(Sort(rows, le))
  {
    if rows != [] {
      SortOneEach(rows[1..], le);
      SortKeeps(rows[1..], le);
      forall q | q in Sort(rows[1..], le) ensures q.agent != rows[0].agent {
        var k :| 0 <= k < |rows[1..]| && rows[1..][k] == q;
      }
      InsertOneEach(rows[0], Sort(rows[1..], le), le);
    }
  }

  // The agents seen have one row each and nobody else has one; a row is what its agent's own
  // observations say, and its columns add up to its requests.
  lemma EveryRowAddsUp(os: seq<Observation>, nameFirst: (string, string) -> bool, agent: string)
    ensures var rows := RollupAgents(os, nameFirst);
      && OneRowEach(rows)
      && ((exists r :: r in rows && r.agent == agent) <==> Of(os, agent) != [])
      && forall r :: r in rows ==>
           && Describes(r, Of(os, r.agent))
           && r.requests == r.paid + r.denied + r.paymentFailed + r.blocked + r.unservable + r.free
  {
    hide Tally, Money, Strongest, Sort, Outranks;
    var rows := Rows(os);
    RowsCover(os);
    SortKeeps(rows, Outranks(nameFirst));
    SortOneEach(rows, Outranks(nameFirst));
    forall r | r in RollupAgents(os, nameFirst)
      ensures Describes(r, Of(os, r.agent))
      ensures r.requests == r.paid + r.denied + r.paymentFailed + r.blocked + r.unservable + r.free
    {
      var k :| 0 <= k < |rows| && rows[k] == r;
      TalliesAddUp(Of(os, r.agent));
    }
    if Of(os, agent) != [] {
      var k :| 0 <= k < |rows| && rows[k].agent == agent;
      assert rows[k] in rows;
    }
  }

  function Requests(rows: seq<AgentRow>): nat {
    if rows == [] then 0 else rows[0].requests + Requests(rows[1..])
  }

  function Agents(os: seq<Observation>): nat {
    if os == [] then 0 else Agents(os[..|os| - 1]) + if os[|os| - 1].human then 0 else 1
  }

  lemma {:induction false} CountIntoAddsOne(rows: seq<AgentRow>, o: Observation)
    ensures Requests(CountInto(rows, o)) == Requests(rows) + 1
  {
    if rows == [] {
      assert [Count(Fresh(o), o)][1..] == [];
    } else if rows[0].agent == o.agent {
      assert ([Count(rows[0], o)] + rows[1..])[1..] == rows[1..];
    } else {
      CountIntoAddsOne(rows[1..], o);
      var rest := CountInto(rows[1..], o);
      assert ([rows[0]] + rest)[1..] == rest;
    }
  }

  lemma {:induction false} RowsCountAll(os: seq<Observation>)
    ensures Requests(Rows(os)) == Agents(os)
  {
    if os != [] {
      var n := |os| - 1;
      RowsCountAll(os[..n]);
      CountIntoAddsOne(Rows(os[..n]), os[n]);
    }
  }

  lemma {:induction false} InsertCounts(r: AgentRow, rows: seq<AgentRow>, le: (AgentRow, AgentRow) -> bool)
    ensures Requests(Insert(r, rows, le)) == r.requests + Requests(rows)
  {
    if rows == [] || le(r, rows[0]) {
      assert ([r] + rows)[1..] == rows;
    } else {
      InsertCounts(r, rows[1..], le);
      var rest := Insert(r, rows[1..], le);
      assert ([rows[0]] + rest)[1..] == rest;
    }
  }

  lemma {:induction false} SortCounts(rows: seq<AgentRow>, le: (AgentRow, AgentRow) -> bool)
    ensures Requests(Sort(rows, le)) == Requests(rows)
  {
    if rows != [] {
      SortCounts(rows[1..], le);
      InsertCounts(rows[0], Sort(rows[1..], le), le);
    }
  }

  // The rows together count every agent observation once.
  lemma NoObservationIsLost(os: seq<Observation>, nameFirst: (string, string) -> bool)
    ensures Requests(RollupAgents(os, nameFirst)) == Agents(os)
  {
    RowsCountAll(os);
    SortCounts(Rows(os), Outranks(nameFirst));
  }

  // ---------- the final order ----------

  // Earned first, then missed, then traffic, then the name.
  predicate Ranked(a: AgentRow, b: AgentRow, nameFirst: (string, string) -> bool) {
    || a.earned > b.earned
    || (a.earned == b.earned && a.missed > b.missed)
    || (a.earned == b.earned && a.missed == b.missed && a.requests > b.requests)
    || (a.earned == b.earned && a.missed == b.missed && a.requests == b.requests && nameFirst(a.agent, b.agent))
  }

  lemma OutranksIsRanked(a: AgentRow, b: AgentRow, nameFirst: (string, string) -> bool)
    ensures Outranks(nameFirst)(a, b) <==> Ranked(a, b, nameFirst)
  {
  }

  lemma RankedIsTotal(a: AgentRow, b: AgentRow, nameFirst: (string, string) -> bool)
    requires nameFirst(a.agent, b.agent) || nameFirst(b.agent, a.agent)
    ensures Ranked(a, b, nameFirst) || Ranked(b, a, nameFirst)
  {
  }

  lemma RankedIsTransitive(a: AgentRow, b: AgentRow, c: AgentRow, nameFirst: (string, string) -> bool)
    requires nameFirst(a.agent, b.agent) && nameFirst(b.agent, c.agent) ==> nameFirst(a.agent, c.agent)
    requires Ranked(a, b, nameFirst) && Ranked(b, c, nameFirst)
    ensures Ranked(a, c, nameFirst)
  {
  }

  lemma RankedIsPreorder(nameFirst: (string, string) -> bool)
    requires Preorder(nameFirst)
    ensures Preorder(Outranks(nameFirst))
  {
    hide Outranks, Ranked;
    var le := Outranks(nameFirst);
    forall a, b ensures le(a, b) || le(b, a) {
      OutranksIsRanked(a, b, nameFirst);
      OutranksIsRanked(b, a, nameFirst);
      RankedIsTotal(a, b, nameFirst);
    }
    forall a, b, c | le(a, b) && le(b, c) ensures le(a, c) {
      OutranksIsRanked(a, b, nameFirst);
      OutranksIsRanked(b, c, nameFirst);
      OutranksIsRanked(a, c, nameFirst);
      RankedIsTransitive(a, b, c, nameFirst);
    }
  }

  // Whatever order names have, every row stands in front of those it outranks.
  lemma RowsAreRanked(os: seq<Observation>, nameFirst: (string, string) -> bool)
    requires Preorder(nameFirst)
    ensures var rows := RollupAgents(os, nameFirst);
      forall i, j :: 0 <= i < j < |rows| ==> Ranked(rows[i], rows[j], nameFirst)
  {
    hide Rows, Sort, Ranked;
    RankedIsPreorder(nameFirst);
    SortSorts(Rows(os), Outranks(nameFirst));
    var rows := RollupAgents(os, nameFirst);
    forall i, j | 0 <= i < j < |rows| ensures Ranked(rows[i], rows[j], nameFirst) {
      assert Outranks(nameFirst)(rows[i], rows[j]);
      OutranksIsRanked(rows[i], rows[j], nameFirst);
    }
  }
}
