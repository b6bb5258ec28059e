// The console's accounts in plain terms: who counts as an administrator, which names are one name, and
// when a session's idle anchor moves.
module ConsoleAccounts {
  import opened Wrappers
  import opened Text
  import opened Console
  import opened ConsoleRuns

  // ---------- administrators ----------

  predicate IsLiveAdmin(u: User) { u.role == Admin && u.disabledAt == None }

  // Where in the list the live administrators are.
  function AdminPlaces(users: seq<User>): set<nat> {
    set k: nat | k < |users| && IsLiveAdmin(users[k])
  }

  lemma {:induction false} AdminsAreCounted(users: seq<User>)
    ensures LiveAdmins(users) == |AdminPlaces(users)|
  {
    if users == [] {
      assert AdminPlaces(users) == {};
    } else {
      AdminsAreCounted(users[1..]);
      var later := AdminPlaces(users[1..]);
      ShiftedCount(later);
      var shifted := set k: nat | k in later :: k + 1;
      forall k: nat ensures k in AdminPlaces(users) <==> (k == 0 && IsLiveAdmin(users[0])) || k in shifted {
        if k > 0 && k in AdminPlaces(users) { assert users[1..][k - 1] == users[k] && k - 1 in later; }
      }
      assert AdminPlaces(users) == (if IsLiveAdmin(users[0]) then {0} else {}) + shifted;
    }
  }

  lemma {:induction false} ShiftedCount(s: set<nat>)
    ensures |set k: nat | k in s :: k + 1| == |s|
    decreases |s|
  {
    var shifted := set k: nat | k in s :: k + 1;
    if s == {} {
      assert shifted == {};
    } else {
      var x :| x in s;
      ShiftedCount(s - {x});
      var fewer := set k: nat | k in s - {x} :: k + 1;
      forall y ensures y in shifted <==> y in fewer + {x + 1} {
        if y in shifted && y != x + 1 { assert y - 1 in s - {x}; }
      }
      assert shifted == fewer + {x + 1};
    }
  }

  ghost predicate HasAdmin(users: seq<User>) {
    exists k :: 0 <= k < |users| && IsLiveAdmin(users[k])
  }

  lemma HasAdminIsCounted(users: seq<User>)
    ensures HasAdmin(users) <==> LiveAdmins(users) >= 1
  {
    AdminsAreCounted(users);
    if HasAdmin(users) {
      var k :| 0 <= k < |users| && IsLiveAdmin(users[k]);
      assert k in AdminPlaces(users);
    } else {
      assert AdminPlaces(users) == {};
    }
  }

  // From the first live administrator on, every run has one.
  lemma SomeAdminRemains(ops: seq<Op>, lives: Lifetimes, k: nat)
    requires k <= |ops| && HasAdmin(Run(ops[..k], lives).users)
    ensures HasAdmin(Run(ops, lives).users)
  {
    HasAdminIsCounted(Run(ops[..k], lives).users);
    HasAdminIsCounted(Run(ops, lives).users);
    AdminOfEveryRun(ops, lives, k);
  }

  // Switching an administrator off is refused exactly when no two live administrators are there.
  lemma RefusedExactly(st: State, id: string, at: int)
    requires FindUser(st.users, id).Some?
    ensures SetDisabled(st, id, true, at) == Err(LastAdministrator)
       <==> && FindUser(st.users, id).value.role == Admin
            && forall j, k :: 0 <= j < k < |st.users| ==> !(IsLiveAdmin(st.users[j]) && IsLiveAdmin(st.users[k]))
  {
    hide LiveAdmins, FindUser;
    var places := AdminPlaces(st.users);
    AdminsAreCounted(st.users);
    AtMostOne(places);
    if j, k :| 0 <= j < k < |st.users| && IsLiveAdmin(st.users[j]) && IsLiveAdmin(st.users[k]) {
      assert j in places && k in places;
    }
    if j, k :| j in places && k in places && j != k {
      assert IsLiveAdmin(st.users[j]) && IsLiveAdmin(st.users[k]);
      assert j < k || k < j;
    }
  }

  lemma AtMostOne(s: set<nat>)
    ensures |s| <= 1 <==> forall j, k :: j in s && k in s ==> j == k
  {
    if |s| <= 1 {
      forall j, k | j in s && k in s ensures j == k {
        if j != k { TwoMembers(s, j, k); }
      }
    } else {
      var j :| j in s;
      assert |s - {j}| >= 1;
      var k :| k in s - {j};
    }
  }

  lemma TwoMembers(s: set<nat>, j: nat, k: nat)
    requires j in s && k in s && j != k
    ensures |s| >= 2
  {
    assert |s - {j}| == |s| - 1 && k in s - {j};
  }

  // ---------- names ----------

  predicate NameStart(c: char) { 'a' <= c <= 'z' || '0' <= c <= '9' }

  // Two to thirty-two lower-case letters, digits, stops, underscores and dashes, a letter or digit first.
  predicate NamePattern(name: string) {
    && 2 <= |name| <= 32 && NameStart(name[0])
    && forall k :: 0 <= k < |name| ==> NameStart(name[k]) || name[k] in "._-"
  }

  predicate SameLetter(typed: char, c: char) {
    typed == c || ('a' <= c <= 'z' && 'A' <= typed <= 'Z' && typed as int + 32 == c as int)
  }

  // A name with any letters in upper case and any whitespace around it.
  ghost predicate Types(typed: string, name: string) {
    exists lead: string, mid: string, tail: string ::
      && typed == lead + (mid + tail) && OnlySpace(lead) && OnlySpace(tail)
      && |mid| == |name| && forall k :: 0 <= k < |name| ==> SameLetter(mid[k], name[k])
  }

  lemma PatternIsValid(name: string)
    ensures NamePattern(name) <==> ValidName(name)
  {
    if NamePattern(name) {
      forall k | 0 <= k < |name| ensures NameChar(name[k], k == 0) {
        assert name[k] in "._-" ==> name[k] == '.' || name[k] == '_' || name[k] == '-';
      }
    }
    if ValidName(name) {
      assert NameChar(name[0], true);
      forall k | 0 <= k < |name| ensures NameStart(name[k]) || name[k] in "._-" { assert NameChar(name[k], k == 0); }
    }
  }

  lemma NoSpaceTyped(typed: char, c: char)
    requires SameLetter(typed, c) && (NameStart(c) || c in "._-")
    ensures !IsSpace(typed) && LowerChar(typed) == c
  {
    assert c in "._-" ==> c == '.' || c == '_' || c == '-';
  }

  lemma TypedIsNormal(typed: string, name: string)
    requires NamePattern(name) && Types(typed, name)
    ensures NormalizeUsername(typed) == name
  {
    var lead: string, mid: string, tail: string :|
      && typed == lead + (mid + tail) && OnlySpace(lead) && OnlySpace(tail)
      && |mid| == |name| && forall k :: 0 <= k < |name| ==> SameLetter(mid[k], name[k]);
    forall k | 0 <= k < |mid| ensures !IsSpace(mid[k]) && LowerChar(mid[k]) == name[k] {
      NoSpaceTyped(mid[k], name[k]);
    }
    hide TrimLeft, TrimRight, IsSpace, LowerChar;
    LeftSpaces(lead, mid + tail);
    RightSpaces(mid, tail);
    assert Lower(mid) == name;
  }

  lemma NormalIsTyped(typed: string)
    ensures Types(typed, NormalizeUsername(typed))
  {
    hide TrimLeft, TrimRight, OnlySpace;
    TrimLeftSplits(typed);
    TrimRightSplits(TrimLeft(typed));
    var lead := typed[..|typed| - |TrimLeft(typed)|];
    var mid := Trim(typed);
    var tail := TrimLeft(typed)[|mid|..];
    assert typed == lead + (mid + tail);
  }

  // An account name is refused as badly formed exactly when it types no name; otherwise it is refused as
  // taken exactly when some account's name types the same one, and else the account is added under it.
  lemma AccountIsAddedExactly(st: State, id: string, typed: string, role: Role, name: string)
    ensures CreateUser(st, id, typed, role) == Err(BadUsername)
       <==> !exists n: string :: NamePattern(n) && Types(typed, n)
    ensures NamePattern(name) && Types(typed, name) ==>
      CreateUser(st, id, typed, role)
        == if exists k :: 0 <= k < |st.users| && Types(st.users[k].username, name) then Err(NameTaken)
           else Ok(State(st.users + [User(id, name, role, None)], st.sessions))
  {
    hide NormalizeUsername, ValidName, NamePattern, Types;
    var normal := NormalizeUsername(typed);
    PatternIsValid(normal);
    NormalIsTyped(typed);
    if n: string :| NamePattern(n) && Types(typed, n) { TypedIsNormal(typed, n); }
    if NamePattern(name) && Types(typed, name) {
      TypedIsNormal(typed, name);
      forall k | 0 <= k < |st.users|
        ensures NormalizeUsername(st.users[k].username) == name <==> Types(st.users[k].username, name)
      {
        NormalIsTyped(st.users[k].username);
        if Types(st.users[k].username, name) { TypedIsNormal(st.users[k].username, name); }
      }
    }
  }

  // ---------- when the anchor moves ----------

  // A request that is let in moves the idle anchor exactly when more than a minute has passed, or more
  // than half the idle window; nothing else of the session changes.
  lemma AnchorMovesExactly(st: State, lives: Lifetimes, token: string, at: int)
    requires UniqueTokens(st.sessions) && LookupToken(st, token, at, lives).Found?
    ensures var row := LookupToken(st, token, at, lives).session;
      Row(ResolveSession(st, token, at, lives), token)
        == if at - row.lastSeenAt > 60_000 || 2 * (at - row.lastSeenAt) > lives.idleMs
           then Some(row.(lastSeenAt := at)) else Some(row)
  {
    hide Find, FindUser, TouchFirst;
    FindTouched(st.sessions, Digest(token), at, Digest(token));
  }

  // ---------- what a request is told ----------

  predicate FirstWith(users: seq<User>, id: string, k: int) {
    0 <= k < |users| && users[k].id == id && forall j :: 0 <= j < k ==> users[j].id != id
  }

  lemma {:induction false} FindUserIs(users: seq<User>, id: string, u: User)
    ensures FindUser(users, id) == Some(u) <==> exists k :: FirstWith(users, id, k) && users[k] == u
    ensures FindUser(users, id).None? <==> forall k :: 0 <= k < |users| ==> users[k].id != id
  {
    if users != [] {
      FindUserIs(users[1..], id, u);
      if users[0].id == id {
        assert FirstWith(users, id, 0);
      } else {
        if k :| FirstWith(users[1..], id, k) && users[1..][k] == u { assert FirstWith(users, id, k + 1); }
        if k :| FirstWith(users, id, k) && users[k] == u { assert FirstWith(users[1..], id, k - 1); }
        if j :| 0 <= j < |users| && users[j].id == id { assert users[1..][j - 1].id == id; }
      }
    }
  }

  lemma RowIs(sessions: seq<Session>, k: nat)
    requires UniqueTokens(sessions) && k < |sessions|
    ensures Find(sessions, sessions[k].tokenHash) == Some(sessions[k])
  {
    FindIsMember(sessions, sessions[k].tokenHash);
  }

  // A token nobody was given is absent or unknown; any other is told about its own session: too long idle
  // or too old, without a live account, or found.
  lemma ToldExactly(st: State, lives: Lifetimes, token: string, at: int, k: nat, u: User)
    requires UniqueTokens(st.sessions)
    ensures LookupToken(st, token, at, lives) == Rejected(Absent) <==> token == ""
    ensures LookupToken(st, token, at, lives) == Rejected(Unknown)
       <==> token != "" && forall j :: 0 <= j < |st.sessions| ==> st.sessions[j].tokenHash != Digest(token)
    ensures token != "" && k < |st.sessions| && st.sessions[k].tokenHash == Digest(token) ==>
      var s, told := st.sessions[k], LookupToken(st, token, at, lives);
      var late := at >= s.lastSeenAt + lives.idleMs || at >= s.createdAt + lives.absoluteMs;
      && (told == Rejected(Expired) <==> late)
      && (told == Found(u, s)
          <==> !late && u.disabledAt.None? && exists j :: FirstWith(st.users, s.userId, j) && st.users[j] == u)
      && (told == Rejected(Disabled)
          <==> !late && forall j :: FirstWith(st.users, s.userId, j) ==> st.users[j].disabledAt.Some?)
  {
    hide Find, FindUser, UniqueTokens, FirstWith;
    FindIsMember(st.sessions, Digest(token));
    if k < |st.sessions| && st.sessions[k].tokenHash == Digest(token) {
      RowIs(st.sessions, k);
      var id := st.sessions[k].userId;
      FindUserIs(st.users, id, u);
      forall j | FirstWith(st.users, id, j) ensures 0 <= j < |st.users| && FindUser(st.users, id) == Some(st.users[j]) {
        FirstIsThere(st.users, id, j);
        FindUserIs(st.users, id, st.users[j]);
      }
      if FindUser(st.users, id).Some? { FindUserIs(st.users, id, FindUser(st.users, id).value); }
    }
  }

  lemma FirstIsThere(users: seq<User>, id: string, j: int)
    requires FirstWith(users, id, j)
    ensures 0 <= j < |users|
  {
  }

  // ---------- what switching an account changes ----------

  function Without(sessions: seq<Session>, userId: string): seq<Session> {
    if sessions == [] then []
    else (if sessions[0].userId == userId then [] else [sessions[0]]) + Without(sessions[1..], userId)
  }

  lemma {:induction false} WithoutSnoc(sessions: seq<Session>, s: Session, userId: string)
    ensures Without(sessions + [s], userId) == Without(sessions, userId) + if s.userId == userId then [] else [s]
  {
    if sessions == [] {
      assert (sessions + [s])[1..] == [];
    } else {
      assert (sessions + [s])[1..] == sessions[1..] + [s];
      WithoutSnoc(sessions[1..], s, userId);
    }
  }

  lemma {:induction false} FilterIsWithout(sessions: seq<Session>, userId: string)
    ensures Filter(sessions, NotOf(userId, None)) == Without(sessions, userId)
  {
    if sessions != [] {
      var n := |sessions| - 1;
      FilterIsWithout(sessions[..n], userId);
      WithoutSnoc(sessions[..n], sessions[n], userId);
      assert sessions == sessions[..n] + [sessions[n]];
    }
  }

  lemma {:induction false} SetFirstIs(users: seq<User>, id: string, value: Option<int>, k: nat)
    requires k < |users|
    ensures |SetFirst(users, id, value)| == |users|
    ensures SetFirst(users, id, value)[k]
         == if FirstWith(users, id, k) then users[k].(disabledAt := value) else users[k]
  {
    SetFirstShape(users, id, value);
    if users[0].id != id && k > 0 {
      SetFirstIs(users[1..], id, value, k - 1);
      assert FirstWith(users, id, k) <==> FirstWith(users[1..], id, k - 1);
    }
  }

  // Switching an account on or off changes that account's row and no other; off also ends its sessions,
  // and every other session stays as and where it was.
  lemma SwitchIsExact(st: State, id: string, disabled: bool, at: int, after: State)
    requires SetDisabled(st, id, disabled, at) == Ok(after)
    ensures |after.users| == |st.users|
    ensures forall k :: 0 <= k < |st.users| ==>
      after.users[k] == if FirstWith(st.users, id, k)
                        then st.users[k].(disabledAt := if disabled then Some(at) else None) else st.users[k]
    ensures after.sessions == if disabled then Without(st.sessions, id) else st.sessions
    ensures exists k :: FirstWith(st.users, id, k)
  {
    hide SetFirst, Filter, FindUser, LiveAdmins, FirstWith, Without;
    var value := if disabled then Some(at) else None;
    SetFirstShape(st.users, id, value);
    forall k | 0 <= k < |st.users|
      ensures after.users[k] == if FirstWith(st.users, id, k) then st.users[k].(disabledAt := value) else st.users[k]
    {
      SetFirstIs(st.users, id, value, k);
    }
    FilterIsWithout(st.sessions, id);
    FindUserIs(st.users, id, FindUser(st.users, id).value);
  }

  // It is refused for an account that is not there, whatever else holds.
  lemma NoSuchAccountExactly(st: State, id: string, disabled: bool, at: int)
    ensures SetDisabled(st, id, disabled, at) == Err(NoSuchAccount)
       <==> forall k :: 0 <= k < |st.users| ==> st.users[k].id != id
  {
    hide FindUser, LiveAdmins;
    if FindUser(st.users, id).Some? {
      FindUserIs(st.users, id, FindUser(st.users, id).value);
    } else {
      FindUserIs(st.users, id, User(id, "", Admin, None));
    }
  }
}
