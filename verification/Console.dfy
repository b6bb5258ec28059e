// The console's operators and sessions: two lifetimes with a touch floor, a sweep at sign-in, and
// accounts that can be switched off but never all of them. Times are integer milliseconds.
module Console {
  import opened Wrappers
  import opened Text

  datatype Role = Admin | Viewer

  datatype User = User(id: string, username: string, role: Role, disabledAt: Option<int>)

  // The SHA-256 of a token; hashing is taken as injective.
  datatype Digest = Digest(token: string)

  datatype Session = Session(tokenHash: Digest, userId: string, createdAt: int, lastSeenAt: int)

  datatype State = State(users: seq<User>, sessions: seq<Session>)

  datatype Lifetimes = Lifetimes(idleMs: nat, absoluteMs: nat)

  const TOUCH_FLOOR_MS := 60_000

  function TouchFloor(idleMs: nat): nat {
    if TOUCH_FLOOR_MS <= idleMs / 2 then TOUCH_FLOOR_MS else idleMs / 2
  }

  predicate Live(s: Session, at: int, lives: Lifetimes) {
    at < s.lastSeenAt + lives.idleMs && at < s.createdAt + lives.absoluteMs
  }

  // ---------- the array operations ----------

  function Filter(sessions: seq<Session>, keep: Session -> bool): seq<Session> {
    if sessions == [] then []
    else
      var n := |sessions| - 1;
      if keep(sessions[n]) then Filter(sessions[..n], keep) + [sessions[n]] else Filter(sessions[..n], keep)
  }

  function Find(sessions: seq<Session>, digest: Digest): Option<Session> {
    if sessions == [] then None
    else if sessions[0].tokenHash == digest then Some(sessions[0])
    else Find(sessions[1..], digest)
  }

  function FindUser(users: seq<User>, id: string): Option<User> {
    if users == [] then None
    else if users[0].id == id then Some(users[0])
    else FindUser(users[1..], id)
  }

  // `live.lastSeenAt = stamp` on the first row with this digest.
  function TouchFirst(sessions: seq<Session>, digest: Digest, at: int): seq<Session> {
    if sessions == [] then []
    else if sessions[0].tokenHash == digest then [sessions[0].(lastSeenAt := at)] + sessions[1..]
    else [sessions[0]] + TouchFirst(sessions[1..], digest, at)
  }

  // ---------- the operations ----------

  function LiveAt(at: int, lives: Lifetimes): Session -> bool { (s: Session) => Live(s, at, lives) }

  function OtherThan(digest: Digest): Session -> bool { (s: Session) => s.tokenHash != digest }

  function NotOf(userId: string, keep: Option<Digest>): Session -> bool {
    (s: Session) => s.userId != userId || Some(s.tokenHash) == keep
  }

  // The row is stamped when the token is minted; the sweep reads the clock again under the lock.
  function CreateSession(st: State, token: string, userId: string, stamp: int, at: int, lives: Lifetimes): State {
    st.(sessions := Filter(st.sessions, LiveAt(at, lives)) + [Session(Digest(token), userId, stamp, stamp)])
  }

  function DestroySession(st: State, token: string): State {
    st.(sessions := Filter(st.sessions, OtherThan(Digest(token))))
  }

  function DestroyUserSessions(st: State, userId: string, keep: Option<Digest>): State {
    st.(sessions := Filter(st.sessions, NotOf(userId, keep)))
  }

  datatype Rejection = Absent | Unknown | Expired | Disabled

  datatype Lookup = Found(user: User, session: Session) | Rejected(reason: Rejection)

  // What a request presenting this token is told.
  function LookupToken(st: State, token: string, at: int, lives: Lifetimes): Lookup {
    if token == "" then Rejected(Absent)
    else
      var row := Find(st.sessions, Digest(token));
      if row.None? then Rejected(Unknown)
      else if !Live(row.value, at, lives) then Rejected(Expired)
      else
        var user := FindUser(st.users, row.value.userId);
        if user.None? || user.value.disabledAt.Some? then Rejected(Disabled)
        else Found(user.value, row.value)
  }

  // What is then written: a dead row is dropped, a stale idle anchor refreshed.
  function ResolveSession(st: State, token: string, at: int, lives: Lifetimes): State {
    var found := LookupToken(st, token, at, lives);
    if found.Rejected? then
      if found.reason == Expired || found.reason == Disabled then DestroySession(st, token) else st
    else if at - found.session.lastSeenAt > TouchFloor(lives.idleMs) then
      st.(sessions := TouchFirst(st.sessions, Digest(token), at))
    else st
  }

  datatype ConsoleError = NoSuchAccount | LastAdministrator | NameTaken | BadUsername

  function LiveAdmins(users: seq<User>): nat {
    if users == [] then 0
    else (if users[0].role == Admin && users[0].disabledAt.None? then 1 else 0) + LiveAdmins(users[1..])
  }

  function SetFirst(users: seq<User>, id: string, disabledAt: Option<int>): seq<User> {
    if users == [] then []
    else if users[0].id == id then [users[0].(disabledAt := disabledAt)] + users[1..]
    else [users[0]] + SetFirst(users[1..], id, disabledAt)
  }

  function SetDisabled(st: State, userId: string, disabled: bool, at: int): Result<State, ConsoleError> {
    var user := FindUser(st.users, userId);
    if user.None? then Err(NoSuchAccount)
    else if !disabled then Ok(st.(users := SetFirst(st.users, userId, None)))
    else if user.value.role == Admin && LiveAdmins(st.users) <= 1 then Err(LastAdministrator)
    else Ok(State(SetFirst(st.users, userId, Some(at)), Filter(st.sessions, NotOf(userId, None))))
  }

  function NormalizeUsername(raw: string): string { Lower(Trim(raw)) }

  predicate NameChar(c: char, first: bool) {
    IsLower(c) || IsDigit(c) || (!first && (c == '.' || c == '_' || c == '-'))
  }

  predicate ValidName(name: string) {
    && 2 <= |name| <= 32
    && forall k :: 0 <= k < |name| ==> NameChar(name[k], k == 0)
  }

  predicate NameIsTaken(users: seq<User>, name: string) {
    exists k :: 0 <= k < |users| && NormalizeUsername(users[k].username) == name
  }

  // `id` is a fresh random identifier; the password has already passed its length check.
  function CreateUser(st: State, id: string, username: string, role: Role): Result<State, ConsoleError> {
    var name := NormalizeUsername(username);
    if !ValidName(name) then Err(BadUsername)
    else if NameIsTaken(st.users, name) then Err(NameTaken)
    else Ok(st.(users := st.users + [User(id, name, role, None)]))
  }

  // ---------- the store ----------

  class Store {
    var state: State

    constructor ()
      ensures state == State([], [])
    {
      state := State([], []);
    }

    // Every mutation edits a draft and commits it in one assignment.
    method SignIn(token: string, userId: string, stamp: int, at: int, lives: Lifetimes)
      modifies this
      ensures state == CreateSession(old(state), token, userId, stamp, at, lives)
    {
      var session := Session(Digest(token), userId, stamp, stamp);
      var draft := state;
      var kept := Keep(draft.sessions, LiveAt(at, lives));
      draft := draft.(sessions := kept + [session]);
      state := draft;
    }

    method SignOut(token: string)
      modifies this
      ensures state == DestroySession(old(state), token)
    {
      var kept := Keep(state.sessions, OtherThan(Digest(token)));
      state := state.(sessions := kept);
    }

    method SignOutUser(userId: string, keep: Option<Digest>)
      modifies this
      ensures state == DestroyUserSessions(old(state), userId, keep)
    {
      var kept := Keep(state.sessions, NotOf(userId, keep));
      state := state.(sessions := kept);
    }

    method Resolve(token: string, at: int, lives: Lifetimes) returns (r: Lookup)
      modifies this
      ensures r == LookupToken(old(state), token, at, lives)
      ensures state == ResolveSession(old(state), token, at, lives)
    {
      if token == "" { return Rejected(Absent); }
      var row := Find(state.sessions, Digest(token));
      if row.None? { return Rejected(Unknown); }
      if !Live(row.value, at, lives) {
        SignOut(token);
        return Rejected(Expired);
      }
      var user := FindUser(state.users, row.value.userId);
      if user.None? || user.value.disabledAt.Some? {
        SignOut(token);
        return Rejected(Disabled);
      }
      if at - row.value.lastSeenAt > TouchFloor(lives.idleMs) {
        state := state.(sessions := TouchFirst(state.sessions, Digest(token), at));
      }
      return Found(user.value, row.value);
    }

    method Disable(userId: string, disabled: bool, at: int) returns (error: Option<ConsoleError>)
      modifies this
      ensures var r := SetDisabled(old(state), userId, disabled, at);
              if r.Ok? then state == r.value && error == None else state == old(state) && error == Some(r.error)
    {
      var user := FindUser(state.users, userId);
      if user.None? { return Some(NoSuchAccount); }
      var draft := state;
      if disabled {
        if user.value.role == Admin && LiveAdmins(draft.users) <= 1 { return Some(LastAdministrator); }
        draft := draft.(users := SetFirst(draft.users, userId, Some(at)));
        var kept := Keep(draft.sessions, NotOf(userId, None));
        draft := draft.(sessions := kept);
      } else {
        draft := draft.(users := SetFirst(draft.users, userId, None));
      }
      state := draft;
      return None;
    }

    method AddUser(id: string, username: string, role: Role) returns (error: Option<ConsoleError>)
      modifies this
      ensures var r := CreateUser(old(state), id, username, role);
              if r.Ok? then state == r.value && error == None else state == old(state) && error == Some(r.error)
    {
      var name := NormalizeUsername(username);
      if !ValidName(name) { return Some(BadUsername); }
      var i := 0;
      while i < |state.users|
        invariant 0 <= i <= |state.users|
        invariant forall k :: 0 <= k < i ==> NormalizeUsername(state.users[k].username) != name
      {
        if NormalizeUsername(state.users[i].username) == name { return Some(NameTaken); }
        i := i + 1;
      }
      state := state.(users := state.users + [User(id, name, role, None)]);
      return None;
    }
  }

  method Keep(sessions: seq<Session>, keep: Session -> bool) returns (kept: seq<Session>)
    ensures kept == Filter(sessions, keep)
  {
    kept := [];
    var i := 0;
    while i < |sessions|
      invariant 0 <= i <= |sessions|
      invariant kept == Filter(sessions[..i], keep)
    {
      assert sessions[..i + 1][..i] == sessions[..i];
      if keep(sessions[i]) { kept := kept + [sessions[i]]; }
      i := i + 1;
    }
    assert sessions[..i] == sessions;
  }

  // ---------- how each operation moves one token's row ----------

  predicate UniqueTokens(sessions: seq<Session>) {
    forall i, j :: 0 <= i < j < |sessions| ==> sessions[i].tokenHash != sessions[j].tokenHash
  }

  predicate HasToken(sessions: seq<Session>, digest: Digest) {
    exists k :: 0 <= k < |sessions| && sessions[k].tokenHash == digest
  }

  lemma {:induction false} FindIsMember(sessions: seq<Session>, digest: Digest)
    ensures Find(sessions, digest).Some? <==> HasToken(sessions, digest)
    ensures Find(sessions, digest).Some? ==>
      Find(sessions, digest).value in sessions && Find(sessions, digest).value.tokenHash == digest
  {
    if sessions != [] {
      FindIsMember(sessions[1..], digest);
      if k :| 0 <= k < |sessions| && sessions[k].tokenHash == digest {
        assert k > 0 ==> sessions[1..][k - 1].tokenHash == digest;
      }
    }
  }

  lemma {:induction false} FindSnoc(sessions: seq<Session>, s: Session, digest: Digest)
    ensures Find(sessions + [s], digest)
         == if Find(sessions, digest).Some? then Find(sessions, digest)
            else if s.tokenHash == digest then Some(s) else None
  {
    if sessions == [] {
      assert (sessions + [s])[1..] == [];
    } else {
      FindSnoc(sessions[1..], s, digest);
      assert (sessions + [s])[1..] == sessions[1..] + [s];
    }
  }

  lemma {:induction false} FilterIs(sessions: seq<Session>, keep: Session -> bool)
    ensures forall s :: s in Filter(sessions, keep) <==> s in sessions && keep(s)
    ensures UniqueTokens(sessions) ==> UniqueTokens(Filter(sessions, keep))
  {
    if sessions != [] {
      var n := |sessions| - 1;
      FilterIs(sessions[..n], keep);
      assert sessions == sessions[..n] + [sessions[n]];
      var rest := Filter(sessions[..n], keep);
      if UniqueTokens(sessions) {
        forall i | 0 <= i < |rest| ensures rest[i].tokenHash != sessions[n].tokenHash {
          assert rest[i] in sessions[..n];
        }
      }
    }
  }

  lemma FindFiltered(sessions: seq<Session>, keep: Session -> bool, digest: Digest)
    requires UniqueTokens(sessions)
    ensures Find(Filter(sessions, keep), digest)
         == if Find(sessions, digest).Some? && keep(Find(sessions, digest).value) then Find(sessions, digest) else None
  {
    hide Find, Filter;
    FilterIs(sessions, keep);
    FindIsMember(sessions, digest);
    FindIsMember(Filter(sessions, keep), digest);
    var a, b := Find(sessions, digest), Find(Filter(sessions, keep), digest);
    if b.Some? {
      assert HasToken(sessions, digest) by { SameRow(sessions, b.value, b.value); }
      SameRow(sessions, a.value, b.value);
    }
    if a.Some? && keep(a.value) { SameRow(Filter(sessions, keep), a.value, a.value); }
  }

  lemma SameRow(sessions: seq<Session>, a: Session, b: Session)
    requires UniqueTokens(sessions) && a in sessions && b in sessions && a.tokenHash == b.tokenHash
    ensures a == b && HasToken(sessions, a.tokenHash)
  {
    var i :| 0 <= i < |sessions| && sessions[i] == a;
    var j :| 0 <= j < |sessions| && sessions[j] == b;
    assert i == j;
  }

  lemma {:induction false} FindTouched(sessions: seq<Session>, touched: Digest, at: int, digest: Digest)
    ensures Find(TouchFirst(sessions, touched, at), digest)
         == if digest == touched && Find(sessions, digest).Some?
            then Some(Find(sessions, digest).value.(lastSeenAt := at)) else Find(sessions, digest)
  {
    if sessions != [] {
      FindTouched(sessions[1..], touched, at, digest);
      var rest := TouchFirst(sessions[1..], touched, at);
      if sessions[0].tokenHash == touched {
        assert ([sessions[0].(lastSeenAt := at)] + sessions[1..])[1..] == sessions[1..];
      } else {
        assert ([sessions[0]] + rest)[1..] == rest;
      }
    }
  }

  lemma {:induction false} TouchKeepsTokens(sessions: seq<Session>, touched: Digest, at: int)
    ensures var r := TouchFirst(sessions, touched, at);
      |r| == |sessions| && forall k :: 0 <= k < |r| ==> r[k].tokenHash == sessions[k].tokenHash
  {
    if sessions != [] { TouchKeepsTokens(sessions[1..], touched, at); }
  }
}
