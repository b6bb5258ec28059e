// What every run of sign-ins, requests, sign-outs and account changes keeps: no token outlives its
// deadline or its account, a token in use stays valid, and forgetting dead rows is invisible.
module ConsoleRuns {
  import opened Wrappers
  import opened Text
  import opened Console

  // A sign-in stamps its row at `at` and sweeps at `sweptAt`. A request reads the state and then
  // writes; Use is both at once, LateTouch is the refresh of an earlier request landing on its own (a
  // late drop is a SignOut).
  datatype Op =
    | SignIn(token: string, userId: string, at: int, sweptAt: int)
    | Use(token: string, at: int)
    | LateTouch(token: string, at: int)
    | SignOut(token: string)
    | SignOutUser(userId: string, keep: Option<Digest>)
    | Disable(userId: string, disabled: bool, at: int)
    | AddUser(id: string, username: string, role: Role)

  function Users(st: State, op: Op): seq<User> {
    match op
    case Disable(u, d, at) => var r := SetDisabled(st, u, d, at); if r.Ok? then r.value.users else st.users
    case AddUser(id, name, role) => var r := CreateUser(st, id, name, role); if r.Ok? then r.value.users else st.users
    case _ => st.users
  }

  function Step(st: State, op: Op, lives: Lifetimes): State {
    match op
    case SignIn(t, u, at, sweptAt) => CreateSession(st, t, u, at, sweptAt, lives)
    case Use(t, at) => ResolveSession(st, t, at, lives)
    case LateTouch(t, at) => st.(sessions := TouchFirst(st.sessions, Digest(t), at))
    case SignOut(t) => DestroySession(st, t)
    case SignOutUser(u, keep) => DestroyUserSessions(st, u, keep)
    case Disable(u, d, at) => var r := SetDisabled(st, u, d, at); if r.Ok? then r.value else st
    case AddUser(id, name, role) => var r := CreateUser(st, id, name, role); if r.Ok? then r.value else st
  }

  function Run(ops: seq<Op>, lives: Lifetimes): State {
    if ops == [] then State([], [])
    else Step(Run(ops[..|ops| - 1], lives), ops[|ops| - 1], lives)
  }

  predicate Issues(op: Op, token: string) { op.SignIn? && op.token == token }

  predicate Issued(ops: seq<Op>, token: string) {
    exists k :: 0 <= k < |ops| && Issues(ops[k], token)
  }

  predicate HasId(ops: seq<Op>, id: string) {
    exists k :: 0 <= k < |ops| && ops[k].AddUser? && ops[k].id == id
  }

  // Tokens and account ids are fresh random values.
  predicate Fresh(ops: seq<Op>) {
    ops != [] ==>
      var n := |ops| - 1;
      && Fresh(ops[..n])
      && (ops[n].SignIn? ==> ops[n].token != "" && !Issued(ops[..n], ops[n].token))
      && (ops[n].AddUser? ==> !HasId(ops[..n], ops[n].id))
  }

  function Row(st: State, token: string): Option<Session> { Find(st.sessions, Digest(token)) }

  // One token's row after one operation.
  function RowAfter(st: State, op: Op, lives: Lifetimes, token: string): Option<Session> {
    var row := Row(st, token);
    match op
    case SignIn(t, u, at, sweptAt) =>
      if t == token then Some(Session(Digest(t), u, at, at))
      else if row.Some? && Live(row.value, sweptAt, lives) then row else None
    case Use(t, at) =>
      if t != token || t == "" || row.None? then row
      else if LookupToken(st, t, at, lives).Rejected? then None
      else if at - row.value.lastSeenAt > TouchFloor(lives.idleMs) then Some(row.value.(lastSeenAt := at))
      else row
    case LateTouch(t, at) => if t == token && row.Some? then Some(row.value.(lastSeenAt := at)) else row
    case SignOut(t) => if t == token then None else row
    case SignOutUser(u, keep) =>
      if row.Some? && (row.value.userId != u || Some(Digest(token)) == keep) then row else None
    case Disable(u, d, at) =>
      if d && SetDisabled(st, u, d, at).Ok? && row.Some? && row.value.userId == u then None else row
    case AddUser(_, _, _) => row
  }

  lemma StepRow(st: State, op: Op, lives: Lifetimes, token: string)
    requires UniqueTokens(st.sessions)
    requires Issues(op, token) ==> Row(st, token).None?
    ensures Row(Step(st, op, lives), token) == RowAfter(st, op, lives, token)
  {
    hide Find, Filter, UniqueTokens, TouchFirst;
    var digest := Digest(token);
    FindIsMember(st.sessions, digest);
    match op
    case SignIn(t, u, at, sweptAt) => {
      FindFiltered(st.sessions, LiveAt(sweptAt, lives), digest);
      FindSnoc(Filter(st.sessions, LiveAt(sweptAt, lives)), Session(Digest(t), u, at, at), digest);
    }
    case Use(t, at) => {
      FindFiltered(st.sessions, OtherThan(Digest(t)), digest);
      FindTouched(st.sessions, Digest(t), at, digest);
    }
    case LateTouch(t, at) => { FindTouched(st.sessions, Digest(t), at, digest); }
    case SignOut(t) => { FindFiltered(st.sessions, OtherThan(Digest(t)), digest); }
    case SignOutUser(u, keep) => { FindFiltered(st.sessions, NotOf(u, keep), digest); }
    case Disable(u, d, at) => { FindFiltered(st.sessions, NotOf(u, None), digest); }
    case AddUser(_, _, _) => {}
  }

  lemma StepUnique(st: State, op: Op, lives: Lifetimes)
    requires UniqueTokens(st.sessions)
    requires op.SignIn? ==> Row(st, op.token).None?
    ensures UniqueTokens(Step(st, op, lives).sessions)
  {
    hide Find, Filter, TouchFirst;
    match op
    case SignIn(t, _, _, at) => {
      FilterIs(st.sessions, LiveAt(at, lives));
      FindFiltered(st.sessions, LiveAt(at, lives), Digest(t));
      FindIsMember(Filter(st.sessions, LiveAt(at, lives)), Digest(t));
    }
    case Use(t, at) => {
      FilterIs(st.sessions, OtherThan(Digest(t)));
      TouchKeepsTokens(st.sessions, Digest(t), at);
    }
    case LateTouch(t, at) => { TouchKeepsTokens(st.sessions, Digest(t), at); }
    case SignOut(t) => { FilterIs(st.sessions, OtherThan(Digest(t))); }
    case SignOutUser(u, keep) => { FilterIs(st.sessions, NotOf(u, keep)); }
    case Disable(u, d, at) => { FilterIs(st.sessions, NotOf(u, None)); }
    case AddUser(_, _, _) => {}
  }

  lemma StepUsers(st: State, op: Op, lives: Lifetimes)
    ensures Step(st, op, lives).users == Users(st, op)
  {
  }

  // ---------- every row was issued ----------

  predicate IssuesFor(op: Op, token: string, userId: string, at: int) {
    Issues(op, token) && op.userId == userId && op.at == at
  }

  predicate IssuedAs(ops: seq<Op>, s: Session, token: string) {
    exists k :: 0 <= k < |ops| && IssuesFor(ops[k], token, s.userId, s.createdAt)
  }

  lemma {:induction false} RowIsIssued(ops: seq<Op>, lives: Lifetimes, token: string)
    requires Fresh(ops)
    ensures UniqueTokens(Run(ops, lives).sessions)
    ensures Row(Run(ops, lives), token).Some? ==> IssuedAs(ops, Row(Run(ops, lives), token).value, token)
    decreases |ops|
  {
    if ops != [] {
      hide UniqueTokens, Find, Step, LookupToken;
      var n := |ops| - 1;
      var st, op := Run(ops[..n], lives), ops[n];
      RowIsIssued(ops[..n], lives, token);
      if op.SignIn? { FreshRow(ops, lives); }
      StepUnique(st, op, lives);
      StepRow(st, op, lives, token);
      var row := Row(Run(ops, lives), token);
      if row.Some? {
        if Issues(op, token) {
          assert IssuesFor(ops[n], token, row.value.userId, row.value.createdAt);
        } else {
          var k :| 0 <= k < n && IssuesFor(ops[..n][k], token, row.value.userId, row.value.createdAt);
          assert IssuesFor(ops[k], token, row.value.userId, row.value.createdAt);
        }
      }
    }
  }

  // A token about to be issued has no row yet.
  lemma {:induction false} FreshRow(ops: seq<Op>, lives: Lifetimes)
    requires Fresh(ops) && ops != [] && ops[|ops| - 1].SignIn?
    ensures Row(Run(ops[..|ops| - 1], lives), ops[|ops| - 1].token).None?
    decreases |ops|, 0
  {
    hide Run, Find;
    var n := |ops| - 1;
    var token := ops[n].token;
    RowIsIssued(ops[..n], lives, token);
  }

  lemma {:induction false} FoundUser(users: seq<User>, id: string)
    requires FindUser(users, id).Some?
    ensures FindUser(users, id).value.id == id && FindUser(users, id).value in users
  {
    if users[0].id != id { FoundUser(users[1..], id); }
  }

  // In any run, a token resolves only for the account it was issued to, only while that account is
  // live, and only before the absolute deadline counted from its issue.
  lemma NoTokenOutlivesItsDeadline(ops: seq<Op>, lives: Lifetimes, token: string, at: int)
    requires Fresh(ops) && LookupToken(Run(ops, lives), token, at, lives).Found?
    ensures var found := LookupToken(Run(ops, lives), token, at, lives);
      && found.user in Run(ops, lives).users && found.user.disabledAt.None?
      && exists k :: 0 <= k < |ops| && Issues(ops[k], token) && ops[k].userId == found.user.id
           && at < ops[k].at + lives.absoluteMs
  {
    hide Run, Find;
    RowIsIssued(ops, lives, token);
    var row := Row(Run(ops, lives), token).value;
    FoundUser(Run(ops, lives).users, row.userId);
    var k :| 0 <= k < |ops| && IssuesFor(ops[k], token, row.userId, row.createdAt);
    assert Issues(ops[k], token);
  }

  // ---------- what is ended stays ended ----------

  lemma {:induction false} IssuedPrefix(ops: seq<Op>, k: nat, token: string)
    requires k <= |ops| && Issued(ops[..k], token)
    ensures Issued(ops, token)
  {
    var j :| 0 <= j < |ops[..k]| && Issues(ops[..k][j], token);
    assert Issues(ops[j], token);
  }

  lemma GoneStep(st: State, op: Op, lives: Lifetimes, token: string)
    requires UniqueTokens(st.sessions) && Row(st, token).None? && !Issues(op, token)
    ensures Row(Step(st, op, lives), token).None?
  {
    hide Find, Step, LookupToken, UniqueTokens;
    StepRow(st, op, lives, token);
  }

  lemma {:induction false} GoneStaysGone(ops: seq<Op>, lives: Lifetimes, token: string, k: nat)
    requires Fresh(ops) && k <= |ops| && Issued(ops[..k], token) && Row(Run(ops[..k], lives), token).None?
    ensures Row(Run(ops, lives), token).None?
    decreases |ops|
  {
    if k == |ops| {
      assert ops[..k] == ops;
    } else {
      hide Row, Step, UniqueTokens, Issued, IssuedAs;
      var n := |ops| - 1;
      assert ops[..n][..k] == ops[..k];
      GoneStaysGone(ops[..n], lives, token, k);
      RowIsIssued(ops[..n], lives, token);
      IssuedPrefix(ops[..n], k, token);
      GoneStep(Run(ops[..n], lives), ops[n], lives, token);
    }
  }

  // No token issued before an account was switched off ever resolves afterwards, whatever happens next
  // (the account being switched on again included).
  lemma {:induction false} DisablingEndsEverySession(ops: seq<Op>, lives: Lifetimes, j: nat, k: nat, token: string,
                                                     at: int)
    requires Fresh(ops) && j < k < |ops| && ops[k].Disable? && ops[k].disabled
    requires SetDisabled(Run(ops[..k], lives), ops[k].userId, true, ops[k].at).Ok?
    requires Issues(ops[j], token) && ops[j].userId == ops[k].userId
    ensures LookupToken(Run(ops, lives), token, at, lives).Rejected?
  {
    hide Find, SetDisabled, UniqueTokens;
    FreshPrefix(ops, k);
    FreshPrefix(ops, k + 1);
    var st := Run(ops[..k], lives);
    RowIsIssued(ops[..k], lives, token);
    assert Issues(ops[..k][j], token);
    if Row(st, token).Some? { IssuedOnce(ops[..k], token, j, Row(st, token).value); }
    StepRow(st, ops[k], lives, token);
    assert ops[..k + 1][..k] == ops[..k];
    assert Issues(ops[..k + 1][j], token);
    GoneStaysGone(ops, lives, token, k + 1);
  }

  lemma {:induction false} FreshPrefix(ops: seq<Op>, k: nat)
    requires Fresh(ops) && k <= |ops|
    ensures Fresh(ops[..k])
    decreases |ops|
  {
    if k == |ops| {
      assert ops[..k] == ops;
    } else {
      FreshPrefix(ops[..|ops| - 1], k);
      assert ops[..|ops| - 1][..k] == ops[..k];
    }
  }

  // A token is issued once, so its row carries the facts of that sign-in.
  lemma {:induction false} IssuedOnce(ops: seq<Op>, token: string, j: nat, s: Session)
    requires Fresh(ops) && j < |ops| && Issues(ops[j], token) && IssuedAs(ops, s, token)
    ensures IssuesFor(ops[j], token, s.userId, s.createdAt)
  {
    var k :| 0 <= k < |ops| && IssuesFor(ops[k], token, s.userId, s.createdAt);
    OneIssue(ops, token, j, k);
  }

  lemma {:induction false} OneIssue(ops: seq<Op>, token: string, j: nat, k: nat)
    requires Fresh(ops) && j < |ops| && k < |ops| && Issues(ops[j], token) && Issues(ops[k], token)
    ensures j == k
    decreases |ops|
  {
    var n := |ops| - 1;
    assert j < n ==> Issues(ops[..n][j], token);
    assert k < n ==> Issues(ops[..n][k], token);
    if j < n && k < n { OneIssue(ops[..n], token, j, k); }
  }

  // Signing out ends the token for good.
  lemma SignedOutStaysOut(ops: seq<Op>, lives: Lifetimes, k: nat, token: string, at: int)
    requires Fresh(ops) && k < |ops| && ops[k] == SignOut(token) && Issued(ops[..k], token)
    ensures LookupToken(Run(ops, lives), token, at, lives).Rejected?
  {
    hide Find, UniqueTokens;
    FreshPrefix(ops, k);
    RowIsIssued(ops[..k], lives, token);
    StepRow(Run(ops[..k], lives), ops[k], lives, token);
    assert ops[..k + 1][..k] == ops[..k];
    IssuedPrefix(ops[..k + 1], k, token);
    GoneStaysGone(ops, lives, token, k + 1);
  }

  // ---------- a token in use stays valid ----------

  predicate Accountable(users: seq<User>, id: string) {
    var user := FindUser(users, id);
    user.Some? && user.value.disabledAt.None?
  }

  // The sign-in a token came from.
  function IssueOf(ops: seq<Op>, token: string): Option<(string, int)> {
    if ops == [] then None
    else
      var op := ops[|ops| - 1];
      if Issues(op, token) then Some((op.userId, op.at)) else IssueOf(ops[..|ops| - 1], token)
  }

  // What an operation makes of the time the token was last presented: a request sets it; a late refresh
  // moves it on if its stamp is later, and back only if its stamp is more than the touch floor earlier.
  function Presented(op: Op, token: string, last: int, lives: Lifetimes): int {
    match op
    case Use(t, at) => if t == token then at else last
    case LateTouch(t, at) => if t == token && !(last - TouchFloor(lives.idleMs) <= at <= last) then at else last
    case _ => last
  }

  // When the token was last presented, its issue counting as the first time.
  function LastUse(ops: seq<Op>, lives: Lifetimes, token: string): int {
    if ops == [] then 0
    else
      var n := |ops| - 1;
      if Issues(ops[n], token) then ops[n].at else Presented(ops[n], token, LastUse(ops[..n], lives, token), lives)
  }

  predicate Timed(op: Op) { op.SignIn? || op.Use? }

  // When an operation looked at the deadlines.
  function When(op: Op): int
    requires Timed(op)
  {
    if op.SignIn? then op.sweptAt else op.at
  }

  // The operations that end a session.
  predicate Ends(op: Op, token: string, userId: string) {
    match op
    case SignOut(t) => t == token
    case SignOutUser(u, keep) => u == userId && keep != Some(Digest(token))
    case Disable(u, d, _) => u == userId && d
    case _ => false
  }

  predicate InTime(at: int, last: int, issued: int, lives: Lifetimes) {
    last <= at < last + lives.idleMs - TouchFloor(lives.idleMs) && at < issued + lives.absoluteMs
  }

  // The token was issued to a live account, nothing ended it, and the clock never ran longer than the
  // idle window less the touch floor without the token being presented, nor to the deadline.
  predicate InUse(ops: seq<Op>, lives: Lifetimes, token: string) {
    ops != [] &&
    var n := |ops| - 1;
    var op := ops[n];
    if Issues(op, token) then Accountable(Run(ops[..n], lives).users, op.userId)
    else
      && InUse(ops[..n], lives, token) && IssueOf(ops[..n], token).Some?
      && var issue := IssueOf(ops[..n], token).value;
         !Ends(op, token, issue.0)
         && (Timed(op) ==> InTime(When(op), LastUse(ops[..n], lives, token), issue.1, lives))
  }

  lemma {:induction false} AddedUser(users: seq<User>, u: User, id: string)
    ensures FindUser(users + [u], id) == if FindUser(users, id).Some? then FindUser(users, id)
                                         else if u.id == id then Some(u) else None
  {
    if users == [] {
      assert (users + [u])[1..] == [];
    } else {
      AddedUser(users[1..], u, id);
      assert (users + [u])[1..] == users[1..] + [u];
    }
  }

  lemma {:induction false} SetUser(users: seq<User>, changed: string, value: Option<int>, id: string)
    ensures FindUser(SetFirst(users, changed, value), id)
         == if id == changed && FindUser(users, id).Some? then Some(FindUser(users, id).value.(disabledAt := value))
            else FindUser(users, id)
  {
    if users != [] {
      SetUser(users[1..], changed, value, id);
      var rest := SetFirst(users[1..], changed, value);
      if users[0].id == changed {
        assert ([users[0].(disabledAt := value)] + users[1..])[1..] == users[1..];
      } else {
        assert ([users[0]] + rest)[1..] == rest;
      }
    }
  }

  lemma StaysAccountable(st: State, op: Op, lives: Lifetimes, id: string)
    requires Accountable(st.users, id) && !(op.Disable? && op.userId == id && op.disabled)
    ensures Accountable(Step(st, op, lives).users, id)
  {
    hide FindUser, SetFirst;
    StepUsers(st, op, lives);
    match op
    case Disable(u, d, at) => {
      SetUser(st.users, u, if d then Some(at) else None, id);
    }
    case AddUser(i, name, role) => {
      AddedUser(st.users, User(i, NormalizeUsername(name), role, None), id);
    }
    case _ => {}
  }

  // The idle anchor trails the last use by at most the touch floor.
  predicate Anchored(row: Option<Session>, issue: (string, int), last: int, lives: Lifetimes) {
    && row.Some? && row.value.userId == issue.0 && row.value.createdAt == issue.1
    && last - TouchFloor(lives.idleMs) <= row.value.lastSeenAt <= last
  }

  lemma AnchoredResolves(st: State, lives: Lifetimes, token: string, issue: (string, int), last: int, at: int)
    requires token != "" && Anchored(Row(st, token), issue, last, lives) && Accountable(st.users, issue.0)
    requires InTime(at, last, issue.1, lives)
    ensures LookupToken(st, token, at, lives).Found? && LookupToken(st, token, at, lives).session.userId == issue.0
    ensures Live(Row(st, token).value, at, lives)
  {
    hide Find, FindUser;
  }

  lemma StaysAnchored(st: State, op: Op, lives: Lifetimes, token: string, issue: (string, int), last: int)
    requires token != "" && UniqueTokens(st.sessions) && !Issues(op, token)
    requires Anchored(Row(st, token), issue, last, lives) && Accountable(st.users, issue.0)
    requires !Ends(op, token, issue.0) && (Timed(op) ==> InTime(When(op), last, issue.1, lives))
    ensures Anchored(Row(Step(st, op, lives), token), issue, Presented(op, token, last, lives), lives)
  {
    hide Find, FindUser, UniqueTokens, Step, TouchFloor;
    StepRow(st, op, lives, token);
    if Timed(op) { AnchoredResolves(st, lives, token, issue, last, When(op)); }
  }

  lemma IssueIsAnchored(st: State, op: Op, lives: Lifetimes)
    requires op.SignIn? && UniqueTokens(st.sessions) && Row(st, op.token).None? && Accountable(st.users, op.userId)
    ensures Anchored(Row(Step(st, op, lives), op.token), (op.userId, op.at), op.at, lives)
    ensures Accountable(Step(st, op, lives).users, op.userId)
  {
    hide Find, FindUser, UniqueTokens;
    StepRow(st, op, lives, op.token);
  }

  lemma EndsOnDisable(op: Op, token: string, id: string)
    requires !Ends(op, token, id)
    ensures !(op.Disable? && op.userId == id && op.disabled)
  {
  }

  // So every request in time is let in, and for its own account.
  lemma {:induction false} InUseStaysValid(ops: seq<Op>, lives: Lifetimes, token: string, at: int)
    requires Fresh(ops) && InUse(ops, lives, token)
    ensures IssueOf(ops, token).Some?
    ensures var issue := IssueOf(ops, token).value; var st := Run(ops, lives);
      && token != "" && Anchored(Row(st, token), issue, LastUse(ops, lives, token), lives)
      && Accountable(st.users, issue.0)
      && (InTime(at, LastUse(ops, lives, token), issue.1, lives) ==>
            LookupToken(st, token, at, lives).Found? && LookupToken(st, token, at, lives).session.userId == issue.0)
    decreases |ops|
  {
    hide Find, FindUser, UniqueTokens, Step, Row, Accountable, Anchored, LookupToken, InTime, Ends;
    var n := |ops| - 1;
    var op, before := ops[n], Run(ops[..n], lives);
    RowIsIssued(ops[..n], lives, token);
    if Issues(op, token) {
      FreshRow(ops, lives);
      IssueIsAnchored(before, op, lives);
    } else {
      InUseStaysValid(ops[..n], lives, token, at);
      var issue := IssueOf(ops[..n], token).value;
      StaysAnchored(before, op, lives, token, issue, LastUse(ops[..n], lives, token));
      EndsOnDisable(op, token, issue.0);
      StaysAccountable(before, op, lives, issue.0);
    }
    var issue := IssueOf(ops, token).value;
    if InTime(at, LastUse(ops, lives, token), issue.1, lives) {
      AnchoredResolves(Run(ops, lives), lives, token, issue, LastUse(ops, lives, token), at);
    }
  }

  // The margin is exact: a first request at the touch floor refreshes nothing, and a second one idle
  // window after the issue is refused, though it came only the idle window less the floor later.
  lemma FloorIsExact(lives: Lifetimes, token: string, st: State, row: Session)
    requires token != "" && Row(st, token) == Some(row) && Accountable(st.users, row.userId)
    requires row.createdAt == row.lastSeenAt && 0 < lives.idleMs < lives.absoluteMs
    ensures var a := row.createdAt + TouchFloor(lives.idleMs); var b := a + lives.idleMs - TouchFloor(lives.idleMs);
      && LookupToken(st, token, a, lives).Found?
      && LookupToken(ResolveSession(st, token, a, lives), token, b, lives) == Rejected(Expired)
  {
  }

  // ---------- forgetting dead rows is invisible ----------

  // The same machine, never dropping a row because of its age.
  function KeepStep(st: State, op: Op, lives: Lifetimes): State {
    match op
    case SignIn(t, u, at, _) => st.(sessions := st.sessions + [Session(Digest(t), u, at, at)])
    case Use(t, at) =>
      if LookupToken(st, t, at, lives) == Rejected(Expired) then st else ResolveSession(st, t, at, lives)
    case _ => Step(st, op, lives)
  }

  function KeepRun(ops: seq<Op>, lives: Lifetimes): State {
    if ops == [] then State([], [])
    else KeepStep(KeepRun(ops[..|ops| - 1], lives), ops[|ops| - 1], lives)
  }

  function Clock(ops: seq<Op>): Option<int> {
    if ops == [] then None
    else
      var op := ops[|ops| - 1];
      if Timed(op) then Some(When(op)) else Clock(ops[..|ops| - 1])
  }

  predicate NotBefore(at: int, clock: Option<int>) { clock.Some? ==> clock.value <= at }

  // A late refresh is harmless when its row is still there, or has been ended for good, or would be
  // dead even when refreshed.
  predicate Lands(row: Option<Session>, kept: Option<Session>, touchedAt: int, clock: Option<int>, lives: Lifetimes) {
    || row.Some?
    || kept.None?
    || (clock.Some? && !Live(kept.value.(lastSeenAt := touchedAt), clock.value, lives))
  }

  // Sign-ins and requests carry nondecreasing times, and late refreshes are harmless.
  predicate Clocked(ops: seq<Op>, lives: Lifetimes) {
    ops != [] ==>
      var n := |ops| - 1;
      var op, clock := ops[n], Clock(ops[..n]);
      && Clocked(ops[..n], lives)
      && (Timed(op) ==> NotBefore(When(op), clock))
      && (op.LateTouch? ==>
            Lands(Row(Run(ops[..n], lives), op.token), Row(KeepRun(ops[..n], lives), op.token), op.at, clock, lives))
  }

  // The rows agree, except that the one that forgets may have dropped a row dead at the last time seen.
  predicate Agree(row: Option<Session>, kept: Option<Session>, clock: Option<int>, lives: Lifetimes) {
    if row.Some? then row == kept
    else kept.Some? ==> clock.Some? && !Live(kept.value, clock.value, lives)
  }

  lemma KeepStepRow(st: State, op: Op, lives: Lifetimes, token: string)
    requires UniqueTokens(st.sessions) && (Issues(op, token) ==> Row(st, token).None?)
    ensures Row(KeepStep(st, op, lives), token)
         == if op.SignIn? && op.token != token then Row(st, token)
            else if op.Use? && LookupToken(st, op.token, op.at, lives) == Rejected(Expired) then Row(st, token)
            else RowAfter(st, op, lives, token)
  {
    hide Find, Filter, UniqueTokens, TouchFirst, LookupToken;
    match op
    case SignIn(t, u, at, _) => { FindSnoc(st.sessions, Session(Digest(t), u, at, at), Digest(token)); }
    case _ => { StepRow(st, op, lives, token); }
  }

  lemma KeepStepUnique(st: State, op: Op, lives: Lifetimes)
    requires UniqueTokens(st.sessions) && (op.SignIn? ==> Row(st, op.token).None?)
    ensures UniqueTokens(KeepStep(st, op, lives).sessions)
  {
    hide Find, LookupToken;
    if op.SignIn? {
      FindIsMember(st.sessions, Digest(op.token));
    } else {
      StepUnique(st, op, lives);
    }
  }

  lemma {:induction false} KeptRowIsIssued(ops: seq<Op>, lives: Lifetimes, token: string)
    requires Fresh(ops)
    ensures UniqueTokens(KeepRun(ops, lives).sessions)
    ensures Row(KeepRun(ops, lives), token).Some? ==> Issued(ops, token)
    decreases |ops|
  {
    if ops != [] {
      hide UniqueTokens, Find, KeepStep, LookupToken;
      var n := |ops| - 1;
      var st, op := KeepRun(ops[..n], lives), ops[n];
      KeptRowIsIssued(ops[..n], lives, token);
      if op.SignIn? { KeptRowIsIssued(ops[..n], lives, op.token); }
      KeepStepUnique(st, op, lives);
      KeepStepRow(st, op, lives, token);
      if Issues(op, token) {
      } else if Row(KeepRun(ops, lives), token).Some? {
        IssuedPrefix(ops, n, token);
      }
    }
  }

  lemma SameLookup(a: State, b: State, token: string, at: int, clock: Option<int>, lives: Lifetimes)
    requires a.users == b.users && Agree(Row(a, token), Row(b, token), clock, lives) && NotBefore(at, clock)
    ensures LookupToken(a, token, at, lives) == LookupToken(b, token, at, lives)
         || (LookupToken(a, token, at, lives) == Rejected(Unknown)
             && LookupToken(b, token, at, lives) == Rejected(Expired))
  {
    hide Find, FindUser;
  }

  lemma StepAgrees(a: State, b: State, op: Op, lives: Lifetimes, token: string, clock: Option<int>)
    requires UniqueTokens(a.sessions) && UniqueTokens(b.sessions) && a.users == b.users
    requires Issues(op, token) ==> Row(a, token).None? && Row(b, token).None?
    requires Agree(Row(a, token), Row(b, token), clock, lives)
    requires Timed(op) ==> NotBefore(When(op), clock)
    requires op.LateTouch? ==> Lands(Row(a, op.token), Row(b, op.token), op.at, clock, lives)
    ensures Agree(Row(Step(a, op, lives), token), Row(KeepStep(b, op, lives), token),
                  if Timed(op) then Some(When(op)) else clock, lives)
    ensures Step(a, op, lives).users == KeepStep(b, op, lives).users
  {
    StepRow(a, op, lives, token);
    KeepStepRow(b, op, lives, token);
    StepUsers(a, op, lives);
    StepUsers(b, op, lives);
    hide Find, FindUser, UniqueTokens, Step, TouchFloor;
    if op.Use? && op.token == token {
      SameLookup(a, b, token, op.at, clock, lives);
    }
  }

  // Sweeping at sign-in and dropping expired rows on use never change what a request is told, beyond
  // the reason for a refusal: nothing that is removed could ever have resolved again.
  lemma {:induction false} ForgettingIsInvisible(ops: seq<Op>, lives: Lifetimes, token: string, at: int)
    requires Fresh(ops) && Clocked(ops, lives)
    ensures Run(ops, lives).users == KeepRun(ops, lives).users
    ensures Agree(Row(Run(ops, lives), token), Row(KeepRun(ops, lives), token), Clock(ops), lives)
    ensures NotBefore(at, Clock(ops)) ==>
      var told := LookupToken(Run(ops, lives), token, at, lives);
      var kept := LookupToken(KeepRun(ops, lives), token, at, lives);
      told == kept || (told == Rejected(Unknown) && kept == Rejected(Expired))
    decreases |ops|
  {
    if ops == [] {
    } else {
      hide Find, LookupToken, Step, KeepStep, Agree, UniqueTokens;
      var n := |ops| - 1;
      ForgettingIsInvisible(ops[..n], lives, token, at);
      RowIsIssued(ops[..n], lives, token);
      KeptRowIsIssued(ops[..n], lives, token);
      if Issues(ops[n], token) { FreshRow(ops, lives); }
      StepAgrees(Run(ops[..n], lives), KeepRun(ops[..n], lives), ops[n], lives, token, Clock(ops[..n]));
    }
    if NotBefore(at, Clock(ops)) { SameLookup(Run(ops, lives), KeepRun(ops, lives), token, at, Clock(ops), lives); }
  }

  // What a late refresh can change: the two machines disagree about a later request exactly when the row
  // was forgotten though never ended, the refreshed row would be live, and so is its account. The
  // machine that forgets then refuses.
  lemma LateRefreshRevives(ops: seq<Op>, lives: Lifetimes, token: string, touchedAt: int, at: int)
    requires Fresh(ops) && Clocked(ops, lives) && NotBefore(at, Clock(ops))
    ensures var touch := LateTouch(token, touchedAt);
      var row, kept := Row(Run(ops, lives), token), Row(KeepRun(ops, lives), token);
      var told := LookupToken(Run(ops + [touch], lives), token, at, lives);
      var known := LookupToken(KeepRun(ops + [touch], lives), token, at, lives);
      && (told.Found? != known.Found?
          <==> && row.None? && kept.Some? && Live(kept.value.(lastSeenAt := touchedAt), at, lives)
               && Accountable(Run(ops, lives).users, kept.value.userId))
      && (told.Found? ==> known.Found?)
  {
    hide Find, FindUser, UniqueTokens, Run, KeepRun, Step, KeepStep, TouchFloor;
    var touch := LateTouch(token, touchedAt);
    ForgettingIsInvisible(ops, lives, token, at);
    RowIsIssued(ops, lives, token);
    KeptRowIsIssued(ops, lives, token);
    StepRow(Run(ops, lives), touch, lives, token);
    StepRow(KeepRun(ops, lives), touch, lives, token);
    LateStep(ops, lives, touch);
    if Row(KeepRun(ops, lives), token).Some? { IssuedIsNamed(ops, token); }
  }

  lemma LateStep(ops: seq<Op>, lives: Lifetimes, touch: Op)
    requires touch.LateTouch?
    ensures Run(ops + [touch], lives) == Step(Run(ops, lives), touch, lives)
    ensures KeepRun(ops + [touch], lives) == Step(KeepRun(ops, lives), touch, lives)
    ensures Step(Run(ops, lives), touch, lives).users == Run(ops, lives).users
    ensures Step(KeepRun(ops, lives), touch, lives).users == KeepRun(ops, lives).users
  {
    assert (ops + [touch])[..|ops|] == ops;
  }

  // No token is empty.
  lemma {:induction false} IssuedIsNamed(ops: seq<Op>, token: string)
    requires Fresh(ops) && Issued(ops, token)
    ensures token != ""
    decreases |ops|
  {
    var n := |ops| - 1;
    if !Issues(ops[n], token) {
      var k :| 0 <= k < |ops| && Issues(ops[k], token);
      assert Issues(ops[..n][k], token);
      IssuedIsNamed(ops[..n], token);
    }
  }

  // And it does happen: a request just inside the idle window, whose refresh lands only after another
  // sign-in has swept its row. `ops` are an account, its sign-in and that other sign-in.
  lemma SweptWhileInUse(lives: Lifetimes, id: string, name: string, role: Role, token: string, other: string)
    requires 2 < lives.idleMs < lives.absoluteMs && ValidName(name) && token != "" && other != "" && token != other
    ensures var idle := lives.idleMs;
      var ops := [AddUser(id, name, role), SignIn(token, id, 0, 0), SignIn(other, id, idle, idle)];
      var touch := LateTouch(token, idle - 1);
      && Fresh(ops) && Clocked(ops, lives)
      && LookupToken(Run(ops[..2], lives), token, idle - 1, lives).Found?
      && Step(Run(ops[..2], lives), Use(token, idle - 1), lives) == Step(Run(ops[..2], lives), touch, lives)
      && LookupToken(Run(ops + [touch], lives), token, idle, lives).Rejected?
      && LookupToken(KeepRun(ops + [touch], lives), token, idle, lives).Found?
  {
    hide ValidName, NormalizeUsername, Fresh, Clocked, Run, KeepRun;
    var idle := lives.idleMs;
    var ops := [AddUser(id, name, role), SignIn(token, id, 0, 0), SignIn(other, id, idle, idle)];
    ThreeAreFresh(ops, lives);
    ThreeStates(ops, lives, id, name, role, token, other);
    var its := Session(Digest(other), id, idle, idle);
    FindSnoc([], its, Digest(token));
    assert [] + [its] == [its] == Run(ops, lives).sessions;
    assert Row(Run(ops, lives), token).None?;
    assert Row(KeepRun(ops, lives), token) == Some(Session(Digest(token), id, 0, 0));
    assert Accountable(Run(ops, lives).users, id);
    LateRefreshRevives(ops, lives, token, idle - 1, idle);
  }

  lemma ThreeAreFresh(ops: seq<Op>, lives: Lifetimes)
    requires |ops| == 3 && ops[0].AddUser? && ops[1].SignIn? && ops[2].SignIn?
    requires ops[1].token != "" && ops[2].token != "" && ops[1].token != ops[2].token
    requires ops[1].sweptAt <= ops[2].sweptAt
    ensures Fresh(ops) && Clocked(ops, lives) && Clock(ops) == Some(ops[2].sweptAt)
  {
    hide Run, KeepRun;
    var two, one := ops[..2], ops[..1];
    assert two[..1] == one && one[..0] == [];
    assert Fresh([]) && Clocked([], lives);
    assert Fresh(one) && Clocked(one, lives) && Clock(one) == None;
    assert Fresh(two) && Clocked(two, lives) && Clock(two) == Some(ops[1].sweptAt);
  }

  lemma FirstAccount(id: string, name: string, role: Role)
    requires ValidName(name)
    ensures CreateUser(State([], []), id, name, role) == Ok(State([User(id, name, role, None)], []))
  {
    hide ValidName, NormalizeUsername;
    ValidNameIsNormal(name);
    assert [] + [User(id, name, role, None)] == [User(id, name, role, None)];
  }

  lemma SweepsAlone(users: seq<User>, mine: Session, other: string, at: int, lives: Lifetimes)
    requires !Live(mine, at, lives)
    ensures CreateSession(State(users, [mine]), other, mine.userId, at, at, lives)
         == State(users, [Session(Digest(other), mine.userId, at, at)])
  {
    assert [mine][..0] == [];
    assert Filter([mine], LiveAt(at, lives)) == [];
  }

  lemma ThreeStates(ops: seq<Op>, lives: Lifetimes, id: string, name: string, role: Role, token: string, other: string)
    requires 0 < lives.idleMs < lives.absoluteMs && ValidName(name) && token != other
    requires ops == [AddUser(id, name, role), SignIn(token, id, 0, 0), SignIn(other, id, lives.idleMs, lives.idleMs)]
    ensures var user, mine := User(id, name, role, None), Session(Digest(token), id, 0, 0);
      var its := Session(Digest(other), id, lives.idleMs, lives.idleMs);
      && Run(ops[..2], lives) == State([user], [mine])
      && Run(ops, lives) == State([user], [its]) && KeepRun(ops, lives) == State([user], [mine, its])
  {
    hide CreateUser, CreateSession, Live;
    var two, one := ops[..2], ops[..1];
    var user, mine := User(id, name, role, None), Session(Digest(token), id, 0, 0);
    FirstAccount(id, name, role);
    FirstSession([user], token, id, lives);
    assert two[..1] == one && one[..0] == [];
    assert Run(one, lives) == State([user], []) == KeepRun(one, lives);
    assert Run(two, lives) == State([user], [mine]) == KeepRun(two, lives);
    var its := Session(Digest(other), id, lives.idleMs, lives.idleMs);
    SweptAtIdle(mine, lives);
    SweepsAlone([user], mine, other, lives.idleMs, lives);
    assert Run(ops, lives) == State([user], [its]);
    assert KeepRun(ops, lives).sessions == [mine] + [its] == [mine, its];
  }

  lemma FirstSession(users: seq<User>, token: string, id: string, lives: Lifetimes)
    ensures CreateSession(State(users, []), token, id, 0, 0, lives) == State(users, [Session(Digest(token), id, 0, 0)])
  {
  }

  lemma SweptAtIdle(mine: Session, lives: Lifetimes)
    requires mine.lastSeenAt == 0
    ensures !Live(mine, lives.idleMs, lives)
  {
  }

  // ---------- accounts ----------

  predicate UniqueNames(users: seq<User>) {
    forall i, j :: 0 <= i < j < |users| ==>
      NormalizeUsername(users[i].username) != NormalizeUsername(users[j].username)
  }

  lemma {:induction false} SetFirstShape(users: seq<User>, id: string, value: Option<int>)
    ensures var r := SetFirst(users, id, value);
      |r| == |users| && forall k :: 0 <= k < |r| ==> r[k].username == users[k].username && r[k].role == users[k].role
  {
    if users != [] { SetFirstShape(users[1..], id, value); }
  }

  // Switching one account off takes away one live administrator, if it was one.
  lemma {:induction false} AdminsAfter(users: seq<User>, id: string, value: Option<int>)
    requires FindUser(users, id).Some?
    ensures var u := FindUser(users, id).value;
      LiveAdmins(SetFirst(users, id, value)) == LiveAdmins(users)
        - (if u.role == Admin && u.disabledAt.None? then 1 else 0)
        + (if u.role == Admin && value.None? then 1 else 0)
  {
    if users[0].id == id {
      assert ([users[0].(disabledAt := value)] + users[1..])[1..] == users[1..];
    } else {
      AdminsAfter(users[1..], id, value);
      var rest := SetFirst(users[1..], id, value);
      assert ([users[0]] + rest)[1..] == rest;
    }
  }

  lemma {:induction false} AdminsAdded(users: seq<User>, u: User)
    ensures LiveAdmins(users + [u]) == LiveAdmins(users) + if u.role == Admin && u.disabledAt.None? then 1 else 0
  {
    if users == [] {
      assert (users + [u])[1..] == [];
    } else {
      AdminsAdded(users[1..], u);
      assert (users + [u])[1..] == users[1..] + [u];
    }
  }

  // Once there is a live administrator there always is one.
  lemma AdminRemains(st: State, op: Op, lives: Lifetimes)
    requires LiveAdmins(st.users) >= 1
    ensures LiveAdmins(Step(st, op, lives).users) >= 1
  {
    hide LiveAdmins, FindUser, SetFirst;
    StepUsers(st, op, lives);
    match op
    case Disable(u, d, at) => {
      if FindUser(st.users, u).Some? { AdminsAfter(st.users, u, if d then Some(at) else None); }
    }
    case AddUser(i, name, role) => { AdminsAdded(st.users, User(i, NormalizeUsername(name), role, None)); }
    case _ => {}
  }

  // What the refusal guards: it is exact for a live administrator, and also refuses a disabled one
  // while only one administrator is live, though nothing would be lost.
  lemma LastAdministratorGuard(st: State, id: string, at: int)
    requires FindUser(st.users, id).Some?
    ensures var u := FindUser(st.users, id).value;
      var left := LiveAdmins(SetFirst(st.users, id, Some(at)));
      && (SetDisabled(st, id, true, at) == Err(LastAdministrator)
          <==> (u.role == Admin && if u.disabledAt.None? then left == 0 else left <= 1))
  {
    hide LiveAdmins, SetFirst;
    AdminsAfter(st.users, id, Some(at));
  }

  lemma ValidNameIsNormal(name: string)
    requires ValidName(name)
    ensures NormalizeUsername(name) == name
  {
    assert forall k :: 0 <= k < |name| ==> !IsSpace(name[k]) && LowerChar(name[k]) == name[k];
    TrimOfTrimmed(name);
    assert Lower(name) == name;
  }

  lemma NamesStayUnique(st: State, op: Op, lives: Lifetimes)
    requires UniqueNames(st.users)
    ensures UniqueNames(Step(st, op, lives).users)
  {
    hide NormalizeUsername, ValidName, FindUser;
    StepUsers(st, op, lives);
    match op
    case Disable(u, d, at) => { SetFirstShape(st.users, u, if d then Some(at) else None); }
    case AddUser(i, name, role) => {
      if ValidName(NormalizeUsername(name)) { ValidNameIsNormal(NormalizeUsername(name)); }
    }
    case _ => {}
  }

  // In every run no two accounts share a name, whatever case or padding was typed.
  lemma {:induction false} NamesOfEveryRun(ops: seq<Op>, lives: Lifetimes)
    ensures UniqueNames(Run(ops, lives).users)
    decreases |ops|
  {
    if ops != [] {
      hide Step, UniqueNames;
      var n := |ops| - 1;
      NamesOfEveryRun(ops[..n], lives);
      NamesStayUnique(Run(ops[..n], lives), ops[n], lives);
    }
  }

  // From the first live administrator on there is always one.
  lemma {:induction false} AdminOfEveryRun(ops: seq<Op>, lives: Lifetimes, k: nat)
    requires k <= |ops| && LiveAdmins(Run(ops[..k], lives).users) >= 1
    ensures LiveAdmins(Run(ops, lives).users) >= 1
    decreases |ops|
  {
    hide Step, LiveAdmins;
    if k == |ops| {
      assert ops[..k] == ops;
    } else {
      var n := |ops| - 1;
      assert ops[..n][..k] == ops[..k];
      AdminOfEveryRun(ops[..n], lives, k);
      AdminRemains(Run(ops[..n], lives), ops[n], lives);
    }
  }
}
