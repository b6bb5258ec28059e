// Following the observation log: each read parses only what was appended since the last one, and must
// show what reading both generations from the start would. A file is its characters; reads are taken to
// end on character boundaries, and each read of a file as one step.
module ObservationLog {
  import opened Wrappers
  import opened Text

  const KEEP_MS := 7 * 24 * 60 * 60 * 1000

  datatype Row = Row(id: string, at: int)

  datatype File = File(ino: nat, content: string)

  datatype Followed = Followed(ino: nat, offset: nat, partial: string, rows: seq<Row>)

  // One line as the reader takes it: trimmed, skipped if blank or malformed.
  function ParseLine(line: string, parse: string -> Option<Row>): seq<Row> {
    var t := Trim(line);
    if t == "" || parse(t).None? then [] else [parse(t).value]
  }

  function ParseLines(lines: seq<string>, parse: string -> Option<Row>): seq<Row> {
    if lines == [] then [] else ParseLines(lines[..|lines| - 1], parse) + ParseLine(lines[|lines| - 1], parse)
  }

  function Last(lines: seq<string>): string
    requires lines != []
  {
    lines[|lines| - 1]
  }

  function Complete(lines: seq<string>): seq<string>
    requires lines != []
  {
    lines[..|lines| - 1]
  }

  function Recent(rows: seq<Row>, cutoff: int): seq<Row> {
    if rows == [] then []
    else if rows[|rows| - 1].at >= cutoff then Recent(rows[..|rows| - 1], cutoff) + [rows[|rows| - 1]]
    else Recent(rows[..|rows| - 1], cutoff)
  }

  function Start(f: Option<Followed>, file: File): Followed {
    if f.None? || f.value.ino != file.ino || |file.content| < f.value.offset then Followed(file.ino, 0, "", [])
    else f.value
  }

  function Advance(f: Followed, content: string, parse: string -> Option<Row>): Followed {
    if |content| <= f.offset then f
    else
      var lines := Split(f.partial + content[f.offset..], '\n');
      Followed(f.ino, |content|, Last(lines), f.rows + ParseLines(Complete(lines), parse))
  }

  // Old rows are let go only when the first row is old.
  function Prune(rows: seq<Row>, cutoff: int): seq<Row> {
    if rows != [] && rows[0].at < cutoff then Recent(rows, cutoff) else rows
  }

  // What is remembered of a path after a read; the rows shown are the remembered ones.
  function ReadNew(f: Option<Followed>, file: Option<File>, now: int, parse: string -> Option<Row>): Option<Followed> {
    if file.None? then None
    else
      var g := Advance(Start(f, file.value), file.value.content, parse);
      Some(g.(rows := Prune(g.rows, now - KEEP_MS)))
  }

  function Shown(f: Option<Followed>): seq<Row> { if f.Some? then f.value.rows else [] }

  class Reader {
    var older: Option<Followed>
    var newer: Option<Followed>

    constructor ()
      ensures older == None && newer == None
    {
      older, newer := None, None;
    }

    method ReadObservations(rotated: Option<File>, live: Option<File>, now: int, parse: string -> Option<Row>)
      returns (rows: seq<Row>)
      modifies this
      ensures older == ReadNew(old(older), rotated, now, parse)
      ensures newer == ReadNew(old(newer), live, now, parse)
      ensures rows == Shown(older) + Shown(newer)
    {
      older := Follow(older, rotated, now, parse);
      newer := Follow(newer, live, now, parse);
      rows := if Shown(older) != [] then Shown(older) + Shown(newer) else Shown(newer);
    }
  }

  method Follow(remembered: Option<Followed>, file: Option<File>, now: int, parse: string -> Option<Row>)
    returns (r: Option<Followed>)
    ensures r == ReadNew(remembered, file, now, parse)
  {
    hide Recent, ParseLines, Split, Trim;
    if file.None? { return None; }
    var f := Start(remembered, file.value);
    if |file.value.content| > f.offset {
      var lines := Split(f.partial + file.value.content[f.offset..], '\n');
      var added := ParseLoop(Complete(lines), parse);
      f := Followed(f.ino, |file.value.content|, Last(lines), f.rows + added);
    }
    var cutoff := now - KEEP_MS;
    if |f.rows| > 0 && f.rows[0].at < cutoff {
      var kept := KeepLoop(f.rows, cutoff);
      f := f.(rows := kept);
    }
    return Some(f);
  }

  method ParseLoop(lines: seq<string>, parse: string -> Option<Row>) returns (rows: seq<Row>)
    ensures rows == ParseLines(lines, parse)
  {
    rows := [];
    var i := 0;
    while i < |lines|
      invariant 0 <= i <= |lines|
      invariant rows == ParseLines(lines[..i], parse)
    {
      assert lines[..i + 1][..i] == lines[..i];
      var t := Trim(lines[i]);
      if t != "" && parse(t).Some? { rows := rows + [parse(t).value]; }
      i := i + 1;
    }
    assert lines[..i] == lines;
  }

  method KeepLoop(rows: seq<Row>, cutoff: int) returns (kept: seq<Row>)
    ensures kept == Recent(rows, cutoff)
  {
    kept := [];
    var i := 0;
    while i < |rows|
      invariant 0 <= i <= |rows|
      invariant kept == Recent(rows[..i], cutoff)
    {
      assert rows[..i + 1][..i] == rows[..i];
      if rows[i].at >= cutoff { kept := kept + [rows[i]]; }
      i := i + 1;
    }
    assert rows[..i] == rows;
  }

  // ---------- reading from the start ----------

  // Every parseable complete line of a file, in order.
  function Reparse(content: string, parse: string -> Option<Row>): seq<Row> {
    ParseLines(Complete(Split(content, '\n')), parse)
  }

  lemma {:induction false} SplitAppend(a: string, b: string, c: char)
    ensures Split(a + b, c) == Complete(Split(a, c)) + Split(Last(Split(a, c)) + b, c)
    decreases |a|
  {
    hide Split;
    var k := IndexOf(a, c);
    if k == |a| {
      SplitHead(a, c, "");
      assert Complete([a]) == [];
    } else {
      var head, rest := a[..k], a[k + 1..];
      assert a == head + [c] + rest;
      assert a + b == head + [c] + (rest + b);
      SplitHead(head, c, rest);
      SplitHead(head, c, rest + b);
      SplitAppend(rest, b, c);
      CompleteCons(head, Split(rest, c));
    }
  }

  lemma CompleteCons(head: string, lines: seq<string>)
    requires lines != []
    ensures Complete([head] + lines) == [head] + Complete(lines) && Last([head] + lines) == Last(lines)
  {
  }

  lemma {:induction false} ParseLinesAppend(a: seq<string>, b: seq<string>, parse: string -> Option<Row>)
    ensures ParseLines(a + b, parse) == ParseLines(a, parse) + ParseLines(b, parse)
  {
    hide ParseLine;
    if b == [] {
      assert a + b == a;
    } else {
      ParseLinesAppend(a, b[..|b| - 1], parse);
      assert (a + b)[..|a + b| - 1] == a + b[..|b| - 1];
    }
  }

  lemma {:induction false} RecentAppend(a: seq<Row>, b: seq<Row>, cutoff: int)
    ensures Recent(a + b, cutoff) == Recent(a, cutoff) + Recent(b, cutoff)
  {
    if b == [] {
      assert a + b == a;
    } else {
      RecentAppend(a, b[..|b| - 1], cutoff);
      assert (a + b)[..|a + b| - 1] == a + b[..|b| - 1];
    }
  }

  lemma {:induction false} RecentTwice(rows: seq<Row>, first: int, cutoff: int)
    requires first <= cutoff
    ensures Recent(Recent(rows, first), cutoff) == Recent(rows, cutoff)
  {
    if rows != [] {
      RecentTwice(rows[..|rows| - 1], first, cutoff);
      var rest := Recent(rows[..|rows| - 1], first);
      assert (rest + [rows[|rows| - 1]])[..|rest|] == rest;
    }
  }

  lemma {:induction false} RecentIs(rows: seq<Row>, cutoff: int)
    ensures forall r :: r in Recent(rows, cutoff) <==> r in rows && r.at >= cutoff
    ensures |Recent(rows, cutoff)| <= |rows|
    ensures Recent(rows, cutoff) == rows <==> forall r :: r in rows ==> r.at >= cutoff
  {
    if rows != [] {
      var n := |rows| - 1;
      RecentIs(rows[..n], cutoff);
      assert rows == rows[..n] + [rows[n]];
      assert rows[n] in rows;
    }
  }

  // ---------- one file ----------

  // f has read `seen` of its file: it stands at its end, holds its unfinished line, and its rows are,
  // as far as any window from `since` on can tell, those of the complete lines.
  ghost predicate Tracks(f: Followed, seen: string, since: Option<int>, parse: string -> Option<Row>) {
    && f.offset == |seen| && f.partial == Last(Split(seen, '\n'))
    && (forall cutoff :: (since.Some? ==> since.value <= cutoff) ==>
          Recent(f.rows, cutoff) == Recent(Reparse(seen, parse), cutoff))
    && (InOrder(Reparse(seen, parse)) ==> EndOf(f.rows, Reparse(seen, parse)))
  }

  predicate InOrder(rows: seq<Row>) {
    forall i, j :: 0 <= i < j < |rows| ==> rows[i].at <= rows[j].at
  }

  predicate EndOf(a: seq<Row>, b: seq<Row>) {
    |a| <= |b| && b[|b| - |a|..] == a
  }

  lemma EndOfAppend(a: seq<Row>, b: seq<Row>, more: seq<Row>)
    ensures EndOf(a, b) ==> EndOf(a + more, b + more)
    ensures InOrder(b + more) ==> InOrder(b)
  {
    var whole := b + more;
    assert forall i :: 0 <= i < |b| ==> whole[i] == b[i];
    if EndOf(a, b) { assert whole[|b| - |a|..] == b[|b| - |a|..] + more; }
  }

  lemma {:induction false} RecentIsEnd(rows: seq<Row>, cutoff: int)
    requires InOrder(rows)
    ensures EndOf(Recent(rows, cutoff), rows)
  {
    if rows != [] {
      hide EndOf;
      var n := |rows| - 1;
      RecentIsEnd(rows[..n], cutoff);
      assert rows == rows[..n] + [rows[n]];
      if rows[n].at >= cutoff {
        EndOfAppend(Recent(rows[..n], cutoff), rows[..n], [rows[n]]);
      } else {
        assert forall r :: r in rows[..n] ==> r.at < cutoff;
        NoneRecent(rows[..n], cutoff);
        NoneIsEnd(rows);
      }
    } else {
      NoneIsEnd(rows);
    }
  }

  lemma {:induction false} NoneRecent(rows: seq<Row>, cutoff: int)
    requires forall r :: r in rows ==> r.at < cutoff
    ensures Recent(rows, cutoff) == []
  {
    if rows != [] {
      var n := |rows| - 1;
      assert rows == rows[..n] + [rows[n]];
      NoneRecent(rows[..n], cutoff);
    }
  }

  lemma NoneIsEnd(rows: seq<Row>)
    ensures EndOf([], rows)
  {
    assert rows[|rows|..] == [];
  }

  lemma EndOfEnd(a: seq<Row>, b: seq<Row>, c: seq<Row>)
    requires EndOf(a, b) && EndOf(b, c)
    ensures EndOf(a, c) && (InOrder(c) ==> InOrder(b))
  {
    assert forall i :: 0 <= i < |b| ==> b[i] == c[|c| - |b| + i];
  }

  lemma FreshTracks(ino: nat, parse: string -> Option<Row>)
    ensures Tracks(Followed(ino, 0, "", []), "", None, parse)
  {
    assert Split("", '\n') == [""];
    assert Complete([""]) == [];
  }

  // The rows of the lines completed since the last read.
  function NewRows(f: Followed, content: string, parse: string -> Option<Row>): seq<Row> {
    if |content| <= f.offset then [] else ParseLines(Complete(Split(f.partial + content[f.offset..], '\n')), parse)
  }

  lemma AdvanceSplits(f: Followed, content: string, parse: string -> Option<Row>)
    requires f.offset <= |content| && f.partial == Last(Split(content[..f.offset], '\n'))
    ensures var g := Advance(f, content, parse);
      && g.offset == |content| && g.partial == Last(Split(content, '\n'))
      && g.rows == f.rows + NewRows(f, content, parse)
    ensures Reparse(content, parse) == Reparse(content[..f.offset], parse) + NewRows(f, content, parse)
  {
    hide ParseLines, Split;
    var seen, more := content[..f.offset], content[f.offset..];
    assert content == seen + more;
    if more == [] {
      assert seen == content;
    } else {
      SplitAppend(seen, more, '\n');
      var before, lines := Complete(Split(seen, '\n')), Split(f.partial + more, '\n');
      CompleteAppend(before, lines);
      ParseLinesAppend(before, Complete(lines), parse);
    }
  }

  lemma CompleteAppend(before: seq<string>, lines: seq<string>)
    requires lines != []
    ensures Complete(before + lines) == before + Complete(lines) && Last(before + lines) == Last(lines)
  {
  }

  lemma AdvanceTracks(f: Followed, content: string, since: Option<int>, parse: string -> Option<Row>)
    requires f.offset <= |content| && Tracks(f, content[..f.offset], since, parse)
    ensures Tracks(Advance(f, content, parse), content, since, parse)
  {
    hide Advance, Reparse, Recent, Split, NewRows;
    var seen, more := content[..f.offset], NewRows(f, content, parse);
    AdvanceSplits(f, content, parse);
    forall cutoff | since.Some? ==> since.value <= cutoff
      ensures Recent(f.rows + more, cutoff) == Recent(Reparse(content, parse), cutoff)
    {
      RecentAppend(f.rows, more, cutoff);
      RecentAppend(Reparse(seen, parse), more, cutoff);
    }
    EndOfAppend(f.rows, Reparse(seen, parse), more);
  }

  lemma PruneTracks(f: Followed, seen: string, since: Option<int>, cutoff: int, parse: string -> Option<Row>)
    requires Tracks(f, seen, since, parse) && (since.Some? ==> since.value <= cutoff)
    ensures Tracks(f.(rows := Prune(f.rows, cutoff)), seen, Some(cutoff), parse)
  {
    hide Reparse, Recent, Split;
    forall later | cutoff <= later ensures Recent(Prune(f.rows, cutoff), later) == Recent(Reparse(seen, parse), later) {
      RecentTwice(f.rows, cutoff, later);
    }
    var all := Reparse(seen, parse);
    if InOrder(all) {
      EndOfEnd(f.rows, f.rows, all) by { assert f.rows[0..] == f.rows; }
      RecentIsEnd(f.rows, cutoff);
      EndOfEnd(Recent(f.rows, cutoff), f.rows, all);
    }
  }

  // The file still begins with what was read of it, unless its inode has changed.
  ghost predicate Follows(f: Option<Followed>, file: Option<File>, since: Option<int>, parse: string -> Option<Row>) {
    f.Some? && file.Some? && f.value.ino == file.value.ino ==>
      f.value.offset <= |file.value.content| && Tracks(f.value, file.value.content[..f.value.offset], since, parse)
  }

  lemma ReadFollows(f: Option<Followed>, file: Option<File>, since: Option<int>, now: int, parse: string -> Option<Row>)
    requires Follows(f, file, since, parse) && (since.Some? ==> since.value <= now - KEEP_MS)
    ensures Follows(ReadNew(f, file, now, parse), file, Some(now - KEEP_MS), parse)
    ensures file.Some? ==> Tracks(ReadNew(f, file, now, parse).value, file.value.content, Some(now - KEEP_MS), parse)
  {
    hide Advance, Tracks, Prune;
    if file.Some? {
      var content := file.value.content;
      var s := Start(f, file.value);
      if f.None? || f.value.ino != file.value.ino {
        FreshTracks(file.value.ino, parse);
        assert content[..0] == "";
        AdvanceTracks(s, content, None, parse);
        PruneTracks(Advance(s, content, parse), content, None, now - KEEP_MS, parse);
      } else {
        AdvanceTracks(s, content, since, parse);
        PruneTracks(Advance(s, content, parse), content, since, now - KEEP_MS, parse);
      }
      assert content[..|content|] == content;
      TracksOffset(ReadNew(f, file, now, parse).value, content, Some(now - KEEP_MS), parse);
    }
  }

  lemma TracksOffset(f: Followed, seen: string, since: Option<int>, parse: string -> Option<Row>)
    requires Tracks(f, seen, since, parse)
    ensures f.offset == |seen|
  {
  }

  // ---------- what is shown ----------

  // The first row is old, or none is.
  predicate PrunesAll(rows: seq<Row>, cutoff: int) {
    rows == [] || rows[0].at < cutoff || forall r :: r in rows ==> r.at >= cutoff
  }

  // Exactly then letting old rows go leaves no old row.
  lemma PruneIsExactWhen(rows: seq<Row>, cutoff: int)
    ensures Prune(rows, cutoff) == Recent(rows, cutoff) <==> PrunesAll(rows, cutoff)
    ensures Recent(Prune(rows, cutoff), cutoff) == Prune(rows, cutoff) <==> PrunesAll(rows, cutoff)
  {
    RecentIs(rows, cutoff);
    RecentKeepsNothingOld(rows, cutoff);
  }

  lemma {:induction false} RecentKeepsNothingOld(rows: seq<Row>, cutoff: int)
    ensures Recent(Recent(rows, cutoff), cutoff) == Recent(rows, cutoff)
  {
    RecentTwice(rows, cutoff, cutoff);
  }

  // What one path shows, cut to the window, is what re-reading its file from the start gives; and if
  // the file's rows are in time order, it needs no cutting.
  lemma ShownAgrees(f: Option<Followed>, file: Option<File>, since: Option<int>, now: int, parse: string -> Option<Row>)
    requires Follows(f, file, since, parse) && (since.Some? ==> since.value <= now - KEEP_MS)
    ensures var all := if file.Some? then Reparse(file.value.content, parse) else [];
      var shown := Shown(ReadNew(f, file, now, parse));
      && Recent(shown, now - KEEP_MS) == Recent(all, now - KEEP_MS)
      && (InOrder(all) ==> shown == Recent(all, now - KEEP_MS))
  {
    if file.Some? {
      hide Follows, Reparse, Split, Advance, Start;
      ReadFollows(f, file, since, now, parse);
      var all := Reparse(file.value.content, parse);
      var shown := Shown(ReadNew(f, file, now, parse));
      var g := Advance(Start(f, file.value), file.value.content, parse);
      assert shown == Prune(g.rows, now - KEEP_MS);
      if InOrder(all) { ShownInOrder(g.rows, shown, all, now - KEEP_MS); }
    }
  }

  lemma ShownInOrder(rows: seq<Row>, shown: seq<Row>, all: seq<Row>, cutoff: int)
    requires shown == Prune(rows, cutoff) && InOrder(all) && EndOf(shown, all)
    ensures shown == Recent(shown, cutoff)
  {
    EndOfEnd(shown, shown, all) by { assert shown[0..] == shown; }
    RecentIs(shown, cutoff);
    if rows != [] && rows[0].at < cutoff {
      RecentKeepsNothingOld(rows, cutoff);
    } else {
      forall r | r in shown ensures r.at >= cutoff {
        var k :| 0 <= k < |shown| && shown[k] == r;
        assert k == 0 || shown[0].at <= shown[k].at;
      }
    }
  }

  // The rows remembered of a path when a read comes to let old ones go.
  function Remembered(f: Option<Followed>, file: Option<File>, parse: string -> Option<Row>): seq<Row> {
    if file.None? then [] else Advance(Start(f, file.value), file.value.content, parse).rows
  }

  // A path shows just what re-reading its file would, exactly when the first row remembered is old or
  // none is.
  lemma ShownIsExactWhen(f: Option<Followed>, file: Option<File>, since: Option<int>, now: int,
                         parse: string -> Option<Row>)
    requires Follows(f, file, since, parse) && (since.Some? ==> since.value <= now - KEEP_MS)
    ensures var all := if file.Some? then Reparse(file.value.content, parse) else [];
      Shown(ReadNew(f, file, now, parse)) == Recent(all, now - KEEP_MS)
      <==> PrunesAll(Remembered(f, file, parse), now - KEEP_MS)
  {
    hide Follows, Reparse, Advance, Start, PrunesAll;
    ShownAgrees(f, file, since, now, parse);
    PruneIsExactWhen(Remembered(f, file, parse), now - KEEP_MS);
    NothingRemembered(now - KEEP_MS);
  }

  lemma NothingRemembered(cutoff: int)
    ensures PrunesAll([], cutoff) && Recent([], cutoff) == []
  {
  }

  // ---------- whatever happens to a file ----------

  // One look at a path: the file found there, and when.
  datatype Look = Look(file: Option<File>, now: int)

  function FollowAll(looks: seq<Look>, parse: string -> Option<Row>): Option<Followed> {
    if looks == [] then None
    else
      var n := |looks| - 1;
      ReadNew(FollowAll(looks[..n], parse), looks[n].file, looks[n].now, parse)
  }

  function LastSeen(looks: seq<Look>): Option<File> {
    if looks == [] then None else looks[|looks| - 1].file
  }

  // A file is taken for the one last seen if it has its inode and is no shorter.
  predicate Resumes(seen: Option<File>, file: Option<File>) {
    seen.Some? && file.Some? && seen.value.ino == file.value.ino && |seen.value.content| <= |file.value.content|
  }

  // The text put together of what was read.
  function Assembled(looks: seq<Look>): (text: string)
    ensures |text| == if LastSeen(looks).Some? then |LastSeen(looks).value.content| else 0
  {
    if LastSeen(looks).None? then ""
    else
      var before, content := looks[..|looks| - 1], LastSeen(looks).value.content;
      if Resumes(LastSeen(before), LastSeen(looks)) then Assembled(before) + content[|Assembled(before)|..]
      else content
  }

  predicate ClockedLooks(looks: seq<Look>) {
    forall i, j :: 0 <= i < j < |looks| ==> looks[i].now <= looks[j].now
  }

  // Every file taken for the one last seen begins as that one did.
  predicate Recognised(looks: seq<Look>) {
    looks != [] ==>
      var before := looks[..|looks| - 1];
      && Recognised(before)
      && (Resumes(LastSeen(before), LastSeen(looks)) ==>
            LastSeen(before).value.content <= LastSeen(looks).value.content)
  }

  lemma {:induction false} RecognisedIsWhole(looks: seq<Look>)
    requires Recognised(looks) && LastSeen(looks).Some?
    ensures Assembled(looks) == LastSeen(looks).value.content
  {
    var before := looks[..|looks| - 1];
    if Resumes(LastSeen(before), LastSeen(looks)) { RecognisedIsWhole(before); }
  }

  // The file as the follower takes it, and the follower it goes on from.
  function Taken(looks: seq<Look>): Option<File> {
    if LastSeen(looks).Some? then Some(LastSeen(looks).value.(content := Assembled(looks))) else None
  }

  function Base(looks: seq<Look>, parse: string -> Option<Row>): Option<Followed>
    requires looks != []
  {
    var before := looks[..|looks| - 1];
    if Resumes(LastSeen(before), LastSeen(looks)) then FollowAll(before, parse) else None
  }

  function Since(looks: seq<Look>): Option<int> {
    if looks == [] then None else Some(looks[|looks| - 1].now - KEEP_MS)
  }

  ghost predicate Stands(f: Option<Followed>, looks: seq<Look>, parse: string -> Option<Row>) {
    && (f.Some? <==> LastSeen(looks).Some?)
    && (f.Some? ==> f.value.ino == LastSeen(looks).value.ino && Tracks(f.value, Assembled(looks), Since(looks), parse))
  }

  // A new inode or a shorter file is read from the start, so as if for the first time.
  lemma RestartReadsWhole(f: Option<Followed>, file: File, now: int, parse: string -> Option<Row>)
    requires f.None? || f.value.ino != file.ino || |file.content| < f.value.offset
    ensures ReadNew(f, Some(file), now, parse) == ReadNew(None, Some(file), now, parse)
    ensures Recent(Shown(ReadNew(f, Some(file), now, parse)), now - KEEP_MS)
         == Recent(Reparse(file.content, parse), now - KEEP_MS)
  {
    ShownAgrees(None, Some(file), None, now, parse);
    hide Advance, Prune, Reparse, Recent;
  }

  // A read is that of the file as taken.
  lemma LookIsTaken(looks: seq<Look>, parse: string -> Option<Row>)
    requires looks != [] && ClockedLooks(looks)
    requires var before := looks[..|looks| - 1]; Stands(FollowAll(before, parse), before, parse)
    ensures FollowAll(looks, parse) == ReadNew(Base(looks, parse), Taken(looks), looks[|looks| - 1].now, parse)
    ensures Follows(Base(looks, parse), Taken(looks), Since(looks[..|looks| - 1]), parse)
    ensures Remembered(Base(looks, parse), Taken(looks), parse)
         == Remembered(FollowAll(looks[..|looks| - 1], parse), LastSeen(looks), parse)
  {
    hide Reparse, Recent, Split, ParseLines, Prune;
    var before := looks[..|looks| - 1];
    var f, file := FollowAll(before, parse), LastSeen(looks);
    if file.Some? {
      if f.Some? { TracksOffset(f.value, Assembled(before), Since(before), parse); }
      if Resumes(LastSeen(before), file) {
        var text := Assembled(looks);
        assert text[|Assembled(before)|..] == file.value.content[|Assembled(before)|..];
        assert text[..|Assembled(before)|] == Assembled(before);
      }
    }
  }

  lemma {:induction false} FollowerStands(looks: seq<Look>, parse: string -> Option<Row>)
    requires ClockedLooks(looks)
    ensures Stands(FollowAll(looks, parse), looks, parse)
  {
    if looks != [] {
      hide Tracks, Follows, ReadNew, Assembled;
      var n := |looks| - 1;
      FollowerStands(looks[..n], parse);
      LookIsTaken(looks, parse);
      ReadFollows(Base(looks, parse), Taken(looks), Since(looks[..n]), looks[n].now, parse);
      ReadKeepsInode(Base(looks, parse), Taken(looks), looks[n].now, parse);
    }
  }

  lemma ReadKeepsInode(f: Option<Followed>, file: Option<File>, now: int, parse: string -> Option<Row>)
    ensures var g := ReadNew(f, file, now, parse);
      (g.Some? <==> file.Some?) && (g.Some? ==> g.value.ino == file.value.ino)
  {
    hide Split, ParseLines, Prune;
  }

  function AllRows(file: Option<File>, parse: string -> Option<Row>): seq<Row> {
    if file.Some? then Reparse(file.value.content, parse) else []
  }

  lemma BeforeIsClocked(looks: seq<Look>)
    requires looks != [] && ClockedLooks(looks)
    ensures var since := Since(looks[..|looks| - 1]);
      ClockedLooks(looks[..|looks| - 1]) && (since.Some? ==> since.value <= looks[|looks| - 1].now - KEEP_MS)
  {
  }

  // In every run of looks, whatever became of the file between them, a path shows, within the window, the
  // rows of the text put together.
  lemma LookShowsTaken(looks: seq<Look>, parse: string -> Option<Row>)
    requires looks != [] && ClockedLooks(looks)
    ensures var cutoff := looks[|looks| - 1].now - KEEP_MS;
      var shown := Shown(FollowAll(looks, parse));
      && Recent(shown, cutoff) == Recent(AllRows(Taken(looks), parse), cutoff)
      && (InOrder(AllRows(Taken(looks), parse)) ==> shown == Recent(AllRows(Taken(looks), parse), cutoff))
      && (shown == Recent(AllRows(Taken(looks), parse), cutoff)
          <==> PrunesAll(Remembered(FollowAll(looks[..|looks| - 1], parse), LastSeen(looks), parse), cutoff))
  {
    hide Tracks, Follows, ReadNew, Reparse, Recent, InOrder, Stands, Taken, Base, PrunesAll, Remembered;
    hide FollowAll, Assembled, LastSeen, Since, ClockedLooks;
    var n := |looks| - 1;
    BeforeIsClocked(looks);
    FollowerStands(looks[..n], parse);
    LookIsTaken(looks, parse);
    ShownAgrees(Base(looks, parse), Taken(looks), Since(looks[..n]), looks[n].now, parse);
    ShownIsExactWhen(Base(looks, parse), Taken(looks), Since(looks[..n]), looks[n].now, parse);
  }

  // So when every file taken for the one last seen began as that did, a path shows each parseable complete
  // line of its file once and in file order; and nothing old besides exactly when the first row it
  // remembers is old or none is.
  lemma LookShowsFile(looks: seq<Look>, parse: string -> Option<Row>)
    requires looks != [] && ClockedLooks(looks) && Recognised(looks)
    ensures var file, cutoff := LastSeen(looks), looks[|looks| - 1].now - KEEP_MS;
      var shown, all := Shown(FollowAll(looks, parse)), AllRows(file, parse);
      && Recent(shown, cutoff) == Recent(all, cutoff)
      && (InOrder(all) ==> shown == Recent(all, cutoff))
      && (shown == Recent(all, cutoff)
          <==> PrunesAll(Remembered(FollowAll(looks[..|looks| - 1], parse), file, parse), cutoff))
  {
    hide FollowAll, Reparse, Recent, InOrder, PrunesAll, Remembered;
    if LastSeen(looks).Some? { RecognisedIsWhole(looks); }
    LookShowsTaken(looks, parse);
  }

  // ---------- when a splice reads like the file ----------

  lemma CommonTail(a: string, b: string, tail: string, cutoff: int, parse: string -> Option<Row>)
    requires Last(Split(a, '\n')) == Last(Split(b, '\n'))
    ensures Recent(Reparse(a + tail, parse), cutoff) == Recent(Reparse(b + tail, parse), cutoff)
       <==> Recent(Reparse(a, parse), cutoff) == Recent(Reparse(b, parse), cutoff)
  {
    hide Split, Recent, ParseLines;
    var more := ParseLines(Complete(Split(Last(Split(a, '\n')) + tail, '\n')), parse);
    TailRows(a, tail, parse);
    TailRows(b, tail, parse);
    RecentAppend(Reparse(a, parse), more, cutoff);
    RecentAppend(Reparse(b, parse), more, cutoff);
    SameTail(Recent(Reparse(a, parse), cutoff), Recent(Reparse(b, parse), cutoff), Recent(more, cutoff));
  }

  lemma TailRows(a: string, tail: string, parse: string -> Option<Row>)
    ensures Reparse(a + tail, parse)
         == Reparse(a, parse) + ParseLines(Complete(Split(Last(Split(a, '\n')) + tail, '\n')), parse)
  {
    hide Split, ParseLines;
    SplitAppend(a, tail, '\n');
    var before, lines := Complete(Split(a, '\n')), Split(Last(Split(a, '\n')) + tail, '\n');
    CompleteAppend(before, lines);
    ParseLinesAppend(before, Complete(lines), parse);
  }

  lemma SameTail(a: seq<Row>, b: seq<Row>, tail: seq<Row>)
    ensures a + tail == b + tail <==> a == b
  {
    if a + tail == b + tail {
      assert |a| == |b|;
      assert a == (a + tail)[..|a|] && b == (b + tail)[..|b|];
    }
  }

  // Where the line that `from` falls in ends, or `from` if it does not end.
  function LineEnd(content: string, from: nat): (k: nat)
    requires from <= |content|
    ensures from <= k <= |content|
  {
    var j := IndexOf(content[from..], '\n');
    if from + j < |content| then from + j + 1 else from
  }

  // Two texts of one length with the same tail read alike exactly when they do up to the end of the line
  // the tail begins in.
  lemma SpliceReadsAlike(a: string, b: string, tail: string, cutoff: int, parse: string -> Option<Row>)
    requires |a| == |b|
    ensures var k := LineEnd(b + tail, |b|);
      Recent(Reparse(a + tail, parse), cutoff) == Recent(Reparse(b + tail, parse), cutoff)
      <==> Recent(Reparse((a + tail)[..k], parse), cutoff) == Recent(Reparse((b + tail)[..k], parse), cutoff)
  {
    hide Split, Recent, Reparse;
    assert (b + tail)[|b|..] == tail;
    var j := IndexOf(tail, '\n');
    if j < |tail| {
      var line, rest := tail[..j], tail[j + 1..];
      assert tail == line + ['\n'] + rest;
      assert a + tail == (a + line + ['\n']) + rest && b + tail == (b + line + ['\n']) + rest;
      assert (a + tail)[..|b| + j + 1] == a + line + ['\n'] && (b + tail)[..|b| + j + 1] == b + line + ['\n'];
      EndsWhole(a + line);
      EndsWhole(b + line);
      CommonTail(a + line + ['\n'], b + line + ['\n'], rest, cutoff, parse);
    } else {
      assert (a + tail)[..|b|] == a && (b + tail)[..|b|] == b;
      NoLineEnds(a, tail, parse);
      NoLineEnds(b, tail, parse);
    }
  }

  lemma EndsWhole(a: string)
    ensures Last(Split(a + ['\n'], '\n')) == ""
  {
    hide Split;
    SplitAppend(a, ['\n'], '\n');
    var last := Last(Split(a, '\n'));
    LastHasNoEnd(a);
    assert last + ['\n'] == last + ['\n'] + "";
    SplitHead(last, '\n', "");
    SplitHead("", '\n', "");
  }

  lemma {:induction false} LastHasNoEnd(a: string)
    ensures '\n' !in Last(Split(a, '\n'))
  {
    var k := IndexOf(a, '\n');
    if k < |a| {
      LastHasNoEnd(a[k + 1..]);
    } else {
      assert Split(a, '\n') == [a];
    }
  }

  lemma NoLineEnds(a: string, tail: string, parse: string -> Option<Row>)
    requires '\n' !in tail
    ensures Reparse(a + tail, parse) == Reparse(a, parse)
  {
    hide Split;
    TailRows(a, tail, parse);
    LastHasNoEnd(a);
    var line := Last(Split(a, '\n')) + tail;
    SplitHead(line, '\n', "");
    assert Complete([line]) == [];
  }

  // What a file says, line by line: a text without a line end says nothing yet, and a whole line says its
  // row when what is between the spaces is one, and nothing when it is blank or malformed.
  lemma RowsLineByLine(lead: string, t: string, tail: string, rest: string, parse: string -> Option<Row>)
    requires '\n' !in lead && '\n' !in t && '\n' !in tail && Padded(lead + (t + tail), lead, t, tail)
    ensures Reparse(lead + (t + tail), parse) == []
    ensures Reparse((lead + (t + tail)) + ['\n'] + rest, parse)
         == (if t != "" && parse(t).Some? then [parse(t).value] else []) + Reparse(rest, parse)
  {
    hide Split, Trim;
    var line := lead + (t + tail);
    PaddedTrims(line, lead, t, tail);
    SplitHead(line, '\n', rest);
    assert Complete([line]) == [];
    var lines := Split(rest, '\n');
    CompleteCons(line, lines);
    ParseLinesAppend([line], Complete(lines), parse);
    OneLine(line, parse);
  }

  lemma OneLine(line: string, parse: string -> Option<Row>)
    ensures ParseLines([line], parse) == ParseLine(line, parse)
  {
    hide ParseLine;
    assert [line][..0] == [];
  }

  // Row by row, the recent ones are those no older than the cutoff.
  lemma RecentRowByRow(r: Row, rest: seq<Row>, cutoff: int)
    ensures Recent([], cutoff) == []
    ensures Recent([r] + rest, cutoff) == (if r.at >= cutoff then [r] else []) + Recent(rest, cutoff)
  {
    RecentAppend([r], rest, cutoff);
    assert [r][..0] == [];
  }

  // A file taken for the one last seen, whatever it was: its read is right exactly when, up to the end of
  // the line the old offset falls in, the text put together reads like the file. All that follows is the
  // file's own.
  lemma SpliceIsRightWhen(looks: seq<Look>, parse: string -> Option<Row>)
    requires looks != [] && ClockedLooks(looks) && Resumes(LastSeen(looks[..|looks| - 1]), LastSeen(looks))
    ensures var cutoff := looks[|looks| - 1].now - KEEP_MS;
      var file := LastSeen(looks).value.content;
      var k := LineEnd(file, |Assembled(looks[..|looks| - 1])|);
      Recent(Shown(FollowAll(looks, parse)), cutoff) == Recent(Reparse(file, parse), cutoff)
      <==> Recent(Reparse(Assembled(looks)[..k], parse), cutoff) == Recent(Reparse(file[..k], parse), cutoff)
  {
    hide Reparse, Recent, FollowAll, PrunesAll, Remembered, InOrder, LineEnd;
    LookShowsTaken(looks, parse);
    var a, file := Assembled(looks[..|looks| - 1]), LastSeen(looks).value.content;
    assert file == file[..|a|] + file[|a|..];
    SpliceReadsAlike(a, file[..|a|], file[|a|..], looks[|looks| - 1].now - KEEP_MS, parse);
  }

  // With whole lines at the old offset, as the sink writes them, the rows remembered before the read
  // decide: it is right exactly when they are those of the file up to there.
  lemma WholeLinesDecide(looks: seq<Look>, parse: string -> Option<Row>)
    requires looks != [] && ClockedLooks(looks) && Resumes(LastSeen(looks[..|looks| - 1]), LastSeen(looks))
    requires var a, file := Assembled(looks[..|looks| - 1]), LastSeen(looks).value.content;
      Last(Split(a, '\n')) == Last(Split(file[..|a|], '\n'))
    ensures var before, cutoff := looks[..|looks| - 1], looks[|looks| - 1].now - KEEP_MS;
      var file := LastSeen(looks).value.content;
      Recent(Shown(FollowAll(looks, parse)), cutoff) == Recent(Reparse(file, parse), cutoff)
      <==> Recent(Shown(FollowAll(before, parse)), cutoff)
           == Recent(Reparse(file[..|Assembled(before)|], parse), cutoff)
  {
    hide Reparse, Recent, FollowAll, PrunesAll, Remembered, InOrder, Split;
    var before, cutoff := looks[..|looks| - 1], looks[|looks| - 1].now - KEEP_MS;
    LookShowsTaken(looks, parse);
    FollowerStands(before, parse);
    var a, file := Assembled(before), LastSeen(looks).value.content;
    assert file == file[..|a|] + file[|a|..];
    assert before[|before| - 1] == looks[|looks| - 2];
    CommonTail(a, file[..|a|], file[|a|..], cutoff, parse);
  }
}
