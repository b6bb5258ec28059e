// The two files on disk, what may happen to them between looks, and the writer that counts bytes and
// rotates: when every read agrees with reading both files from the start, and when not.
module ObservationRuns {
  import opened Wrappers
  import opened Text
  import opened ObservationLog

  datatype Disk = Disk(live: Option<File>, older: Option<File>)

  // appendFile: a missing file is created, under some inode.
  function Append(d: Disk, text: string, ino: nat): Disk {
    if d.live.Some? then d.(live := Some(d.live.value.(content := d.live.value.content + text)))
    else d.(live := Some(File(ino, text)))
  }

  // rename over the one older generation, whose inode is free again; renaming a missing file fails and
  // changes nothing.
  function Rename(d: Disk): Disk {
    if d.live.Some? then d.(live := None, older := d.live) else d
  }

  function At(d: Disk, older: bool): Option<File> { if older then d.older else d.live }

  function Put(d: Disk, older: bool, file: Option<File>): Disk {
    if older then d.(older := file) else d.(live := file)
  }

  // ---------- every look of every run ----------

  // A read of the log looks at the older path and at the live path, each at its own moment.
  datatype Event =
    | Appended(text: string, ino: nat)
    | AppendedOlder(text: string)  // a write that had opened the file before it was renamed
    | Renamed
    | Truncated(older: bool, size: nat)
    | Removed(older: bool)
    | Looked(older: bool, now: int)

  function Change(d: Disk, e: Event): Disk {
    match e
    case Appended(text, ino) => Append(d, text, ino)
    case AppendedOlder(text) =>
      if d.older.None? then d else Put(d, true, Some(d.older.value.(content := d.older.value.content + text)))
    case Renamed => Rename(d)
    case Truncated(older, size) =>
      var file := At(d, older);
      if file.None? || |file.value.content| <= size then d
      else Put(d, older, Some(file.value.(content := file.value.content[..size])))
    case Removed(older) => Put(d, older, None)
    case Looked(_, _) => d
  }

  function DiskAfter(start: Disk, events: seq<Event>): Disk {
    if events == [] then start
    else Change(DiskAfter(start, events[..|events| - 1]), events[|events| - 1])
  }

  // What the looks at one path found.
  function Looks(start: Disk, events: seq<Event>, older: bool): seq<Look> {
    if events == [] then []
    else
      var n := |events| - 1;
      if events[n].Looked? && events[n].older == older then
        Looks(start, events[..n], older) + [Look(At(DiskAfter(start, events[..n]), older), events[n].now)]
      else Looks(start, events[..n], older)
  }

  // What a path shows after its last look.
  function ShownBy(start: Disk, events: seq<Event>, older: bool, parse: string -> Option<Row>): seq<Row> {
    Shown(FollowAll(Looks(start, events, older), parse))
  }

  // The looks at one path are in time order, and each file taken for the one last seen begins as it did.
  predicate Honest(start: Disk, events: seq<Event>, older: bool) {
    ClockedLooks(Looks(start, events, older)) && Recognised(Looks(start, events, older))
  }

  lemma LooksSnoc(start: Disk, events: seq<Event>, e: Event, older: bool)
    ensures DiskAfter(start, events + [e]) == Change(DiskAfter(start, events), e)
    ensures Looks(start, events + [e], older)
         == if e.Looked? && e.older == older
            then Looks(start, events, older) + [Look(At(DiskAfter(start, events), older), e.now)]
            else Looks(start, events, older)
  {
    hide Change;
    assert (events + [e])[..|events|] == events;
  }

  // A look shows, within the window, its file as it is at that moment: each parseable complete line once
  // and in file order.
  lemma LookAgrees(start: Disk, events: seq<Event>, older: bool, now: int, parse: string -> Option<Row>)
    requires Honest(start, events + [Looked(older, now)], older)
    ensures var shown := ShownBy(start, events + [Looked(older, now)], older, parse);
      var all := AllRows(At(DiskAfter(start, events), older), parse);
      && Recent(shown, now - KEEP_MS) == Recent(all, now - KEEP_MS)
      && (InOrder(all) ==> shown == Recent(all, now - KEEP_MS))
      && (shown == Recent(all, now - KEEP_MS)
          <==> PrunesAll(RememberedBy(start, events, older, parse), now - KEEP_MS))
  {
    hide DiskAfter, Looks, FollowAll, Reparse, Recent, InOrder, PrunesAll, Remembered;
    LooksSnoc(start, events, Looked(older, now), older);
    var before, looks := Looks(start, events, older), Looks(start, events + [Looked(older, now)], older);
    assert looks[..|looks| - 1] == before;
    LookShowsFile(looks, parse);
  }

  // The rows remembered of a path if it were looked at now.
  function RememberedBy(start: Disk, events: seq<Event>, older: bool, parse: string -> Option<Row>): seq<Row> {
    Remembered(FollowAll(Looks(start, events, older), parse), At(DiskAfter(start, events), older), parse)
  }

  // A read: the older path, then the live one, with no change in between.
  function ReadEvents(now: int): seq<Event> { [Looked(true, now), Looked(false, now)] }

  lemma ReadSnoc(start: Disk, events: seq<Event>, now: int)
    ensures var read := events + ReadEvents(now);
      && DiskAfter(start, read) == DiskAfter(start, events + [Looked(true, now)]) == DiskAfter(start, events)
      && Looks(start, read, true) == Looks(start, events + [Looked(true, now)], true)
      && Looks(start, read, false) == Looks(start, events + [Looked(false, now)], false)
      && Looks(start, events + [Looked(true, now)], false) == Looks(start, events, false)
  {
    hide DiskAfter, Looks;
    var first := events + [Looked(true, now)];
    assert events + ReadEvents(now) == first + [Looked(false, now)];
    LooksSnoc(start, events, Looked(true, now), true);
    LooksSnoc(start, events, Looked(true, now), false);
    LooksSnoc(start, events, Looked(false, now), false);
    LooksSnoc(start, first, Looked(false, now), true);
    LooksSnoc(start, first, Looked(false, now), false);
  }

  // Whatever was appended and however it was cut up, renamed, truncated, removed and created: a read
  // shows, within the window, each parseable complete line of the older and then the newer file, once and
  // in file order; and nothing besides, when each file's rows are in time order.
  lemma EveryReadAgrees(start: Disk, events: seq<Event>, now: int, parse: string -> Option<Row>)
    requires Honest(start, events + ReadEvents(now), true) && Honest(start, events + ReadEvents(now), false)
    ensures var read, d := events + ReadEvents(now), DiskAfter(start, events);
      var shown := ShownBy(start, read, true, parse) + ShownBy(start, read, false, parse);
      var all := AllRows(d.older, parse) + AllRows(d.live, parse);
      && Recent(shown, now - KEEP_MS) == Recent(all, now - KEEP_MS)
      && (InOrder(AllRows(d.older, parse)) && InOrder(AllRows(d.live, parse)) ==> shown == Recent(all, now - KEEP_MS))
  {
    hide DiskAfter, Looks, FollowAll, Reparse, Recent, InOrder, PrunesAll, RememberedBy, ClockedLooks, Recognised;
    ReadSnoc(start, events, now);
    LookAgrees(start, events, true, now, parse);
    LookAgrees(start, events, false, now, parse);
    var read, d := events + ReadEvents(now), DiskAfter(start, events);
    RecentAppend(ShownBy(start, read, true, parse), ShownBy(start, read, false, parse), now - KEEP_MS);
    RecentAppend(AllRows(d.older, parse), AllRows(d.live, parse), now - KEEP_MS);
  }

  // And it shows nothing besides exactly when, of the rows remembered of each file, the first is old or
  // none is.
  lemma ReadIsExactWhen(start: Disk, events: seq<Event>, now: int, parse: string -> Option<Row>)
    requires Honest(start, events + ReadEvents(now), true) && Honest(start, events + ReadEvents(now), false)
    ensures var read, d := events + ReadEvents(now), DiskAfter(start, events);
      var all := AllRows(d.older, parse) + AllRows(d.live, parse);
      ShownBy(start, read, true, parse) + ShownBy(start, read, false, parse) == Recent(all, now - KEEP_MS)
      <==> (&& PrunesAll(RememberedBy(start, events, true, parse), now - KEEP_MS)
            && PrunesAll(RememberedBy(start, events, false, parse), now - KEEP_MS))
  {
    hide DiskAfter, Looks, FollowAll, Reparse, Recent, InOrder, PrunesAll, RememberedBy, ClockedLooks, Recognised;
    ReadSnoc(start, events, now);
    LookAgrees(start, events, true, now, parse);
    LookAgrees(start, events, false, now, parse);
    var read, d, cutoff := events + ReadEvents(now), DiskAfter(start, events), now - KEEP_MS;
    RecentAppend(AllRows(d.older, parse), AllRows(d.live, parse), cutoff);
    BothExact(ShownBy(start, read, true, parse), ShownBy(start, read, false, parse), cutoff);
  }

  // Two lists lose nothing together exactly when neither loses anything.
  lemma BothExact(a: seq<Row>, b: seq<Row>, cutoff: int)
    ensures a + b == Recent(a, cutoff) + Recent(b, cutoff) <==> a == Recent(a, cutoff) && b == Recent(b, cutoff)
  {
    hide Recent;
    RecentIs(a, cutoff);
    RecentIs(b, cutoff);
    if a + b == Recent(a, cutoff) + Recent(b, cutoff) {
      assert |a| == |Recent(a, cutoff)|;
      assert a == (a + b)[..|a|] && Recent(a, cutoff) == (Recent(a, cutoff) + Recent(b, cutoff))[..|a|];
      assert b == (a + b)[|a|..] && Recent(b, cutoff) == (Recent(a, cutoff) + Recent(b, cutoff))[|a|..];
    }
  }

  // ---------- a rename between the two looks of one read ----------

  // Each half of the answer is right for its own moment: with the older path looked at first, the file
  // that moves is in neither half; with the live path first, it is in both.
  lemma RenameInBetween(start: Disk, events: seq<Event>, olderFirst: bool, now: int, parse: string -> Option<Row>)
    requires var run := events + [Looked(olderFirst, now), Renamed, Looked(!olderFirst, now)];
      Honest(start, run, true) && Honest(start, run, false)
    requires DiskAfter(start, events).live.Some?
    ensures var run := events + [Looked(olderFirst, now), Renamed, Looked(!olderFirst, now)];
      var d := DiskAfter(start, events);
      var shown := Recent(ShownBy(start, run, true, parse) + ShownBy(start, run, false, parse), now - KEEP_MS);
      var moved := Recent(AllRows(d.live, parse), now - KEEP_MS);
      && DiskAfter(start, run) == Disk(None, d.live)
      && shown == if olderFirst then Recent(AllRows(d.older, parse), now - KEEP_MS) else moved + moved
  {
    hide DiskAfter, Looks, FollowAll, Reparse, Recent, InOrder, PrunesAll, RememberedBy, ClockedLooks, Recognised;
    var first := events + [Looked(olderFirst, now)];
    var second := first + [Renamed];
    var run := second + [Looked(!olderFirst, now)];
    assert run == events + [Looked(olderFirst, now), Renamed, Looked(!olderFirst, now)];
    SplitRead(start, events, olderFirst, now);
    HonestPrefix(start, second, Looked(!olderFirst, now), olderFirst);
    HonestPrefix(start, first, Renamed, olderFirst);
    LookAgrees(start, events, olderFirst, now, parse);
    LookAgrees(start, second, !olderFirst, now, parse);
    RecentAppend(ShownBy(start, run, true, parse), ShownBy(start, run, false, parse), now - KEEP_MS);
    NothingRecent(now - KEEP_MS);
  }

  lemma NothingRecent(cutoff: int)
    ensures Recent([], cutoff) == []
  {
  }

  lemma SplitRead(start: Disk, events: seq<Event>, olderFirst: bool, now: int)
    ensures var first := events + [Looked(olderFirst, now)];
      var second := first + [Renamed];
      var run := second + [Looked(!olderFirst, now)];
      && Looks(start, run, olderFirst) == Looks(start, second, olderFirst) == Looks(start, first, olderFirst)
      && DiskAfter(start, run) == DiskAfter(start, second) == Rename(DiskAfter(start, events))
  {
    hide DiskAfter, Looks;
    var first := events + [Looked(olderFirst, now)];
    LooksSnoc(start, events, Looked(olderFirst, now), olderFirst);
    LooksSnoc(start, first, Renamed, olderFirst);
    LooksSnoc(start, first + [Renamed], Looked(!olderFirst, now), olderFirst);
  }

  lemma HonestPrefix(start: Disk, events: seq<Event>, e: Event, older: bool)
    requires Honest(start, events + [e], older)
    ensures Honest(start, events, older)
  {
    hide DiskAfter;
    LooksSnoc(start, events, e, older);
    var looks := Looks(start, events + [e], older);
    if e.Looked? && e.older == older { assert looks[..|looks| - 1] == Looks(start, events, older); }
  }

  // ---------- when every file is recognised ----------

  // The renames that moved a file since the last look at a path; before the first they do not matter.
  function Renames(start: Disk, events: seq<Event>, older: bool): nat {
    if events == [] then 0
    else
      var n := |events| - 1;
      var before := Renames(start, events[..n], older);
      if events[n].Looked? && events[n].older == older then 0
      else if events[n].Renamed? && Looks(start, events[..n], older) != [] && DiskAfter(start, events[..n]).live.Some?
      then before + 1
      else before
  }

  // A file is created under an inode no file on disk has.
  predicate Unused(d: Disk, ino: nat) {
    d.live.None? && d.older.Some? ==> ino != d.older.value.ino
  }

  predicate UnusedInodes(start: Disk, events: seq<Event>) {
    events != [] ==>
      var n := |events| - 1;
      && UnusedInodes(start, events[..n])
      && (events[n].Appended? ==> Unused(DiskAfter(start, events[..n]), events[n].ino))
  }

  // Nothing but the sink and the reader touches the files, and at most one rename moves a file between two
  // looks at this path.
  predicate Paced(start: Disk, events: seq<Event>, older: bool) {
    events != [] ==>
      var n := |events| - 1;
      && Paced(start, events[..n], older)
      && !events[n].Truncated? && !events[n].Removed?
      && (events[n].Looked? && events[n].older == older ==> Renames(start, events[..n], older) <= 1)
  }

  predicate DiskValid(d: Disk) {
    d.live.Some? && d.older.Some? ==> d.live.value.ino != d.older.value.ino
  }

  predicate Grown(seen: File, file: Option<File>) {
    file.Some? && file.value.ino == seen.ino && seen.content <= file.value.content
  }

  // Where the file last seen at a path is, after so many renames.
  predicate Placed(seen: Option<File>, d: Disk, renames: nat, older: bool) {
    && DiskValid(d)
    && (seen.Some? ==>
          && (renames == 0 ==> Grown(seen.value, At(d, older)))
          && (renames == 1 && !older ==> d.older.Some? && d.older.value.ino == seen.value.ino)
          && (renames == 1 && older ==> d.older.Some? ==> d.older.value.ino != seen.value.ino))
  }

  lemma StaysPlaced(seen: Option<File>, d: Disk, renames: nat, older: bool, e: Event)
    requires Placed(seen, d, renames, older) && !e.Truncated? && !e.Removed? && (e.Appended? ==> Unused(d, e.ino))
    ensures Placed(seen, Change(d, e), if e.Renamed? && d.live.Some? then renames + 1 else renames, older)
  {
    if seen.Some? && renames == 0 && e.Appended? && d.live.Some? { GrowsOn(seen.value, d.live.value, e.text); }
    if seen.Some? && renames == 0 && e.AppendedOlder? && d.older.Some? { GrowsOn(seen.value, d.older.value, e.text); }
  }

  lemma GrowsOn(seen: File, file: File, text: string)
    ensures Grown(seen, Some(file)) ==> Grown(seen, Some(file.(content := file.content + text)))
  {
    if Grown(seen, Some(file)) { assert (file.content + text)[..|seen.content|] == file.content[..|seen.content|]; }
  }

  lemma {:induction false} KeepsPlaced(start: Disk, events: seq<Event>, older: bool)
    requires DiskValid(start) && UnusedInodes(start, events) && Paced(start, events, older)
    ensures Placed(LastSeen(Looks(start, events, older)), DiskAfter(start, events),
                   Renames(start, events, older), older)
    ensures Recognised(Looks(start, events, older))
  {
    if events != [] {
      hide Placed, Change, DiskValid, Unused, Recognised;
      var n := |events| - 1;
      KeepsPlaced(start, events[..n], older);
      var d, looks, renames := DiskAfter(start, events[..n]), Looks(start, events[..n], older),
        Renames(start, events[..n], older);
      if events[n].Looked? && events[n].older == older {
        LookPlaces(looks, d, renames, older, events[n].now);
      } else {
        StaysPlaced(LastSeen(looks), d, renames, older, events[n]);
        if looks == [] { NothingPlaced(DiskAfter(start, events), older); }
      }
    }
  }

  lemma NothingPlaced(d: Disk, older: bool)
    ensures forall a: nat, b: nat :: Placed(None, d, a, older) ==> Placed(None, d, b, older)
  {
  }

  lemma LookPlaces(looks: seq<Look>, d: Disk, renames: nat, older: bool, now: int)
    requires Placed(LastSeen(looks), d, renames, older) && Recognised(looks) && renames <= 1
    ensures Placed(At(d, older), Change(d, Looked(older, now)), 0, older)
    ensures Recognised(looks + [Look(At(d, older), now)])
  {
    var after := looks + [Look(At(d, older), now)];
    assert after[..|after| - 1] == looks;
  }

  // With appends and renames only, free inodes for new files, and at most one rename between two looks at
  // a path, no file is mistaken for another.
  lemma PacedIsHonest(start: Disk, events: seq<Event>, older: bool)
    requires DiskValid(start) && UnusedInodes(start, events) && Paced(start, events, older)
    requires ClockedLooks(Looks(start, events, older))
    ensures Honest(start, events, older)
  {
    KeepsPlaced(start, events, older);
  }

  // ---------- runs that mislead ----------

  predicate OneLine(line: string, parse: string -> Option<Row>) {
    '\n' !in line && |ParseLine(line, parse)| == 1
  }

  lemma LineReadsBack(line: string, parse: string -> Option<Row>)
    requires '\n' !in line
    ensures Split(line + "\n", '\n') == [line, ""] && Reparse(line + "\n", parse) == ParseLine(line, parse)
  {
    assert line + "\n" == line + ['\n'] + "";
    SplitHead(line, '\n', "");
    SplitHead("", '\n', "");
    hide Split, ParseLine;
    assert [line] + [""] == [line, ""];
    assert Complete([line, ""]) == [line] && [line][..0] == [];
    assert ParseLines([line], parse) == [] + ParseLine(line, parse);
  }

  lemma RecentOne(rows: seq<Row>, cutoff: int)
    requires |rows| == 1
    ensures Recent(rows, cutoff) == if rows[0].at >= cutoff then rows else []
  {
    assert rows[..0] == [] && [] + [rows[0]] == rows;
  }

  lemma StandInIsTaken(ino: nat, x: string, z: string, now: int)
    requires |x| == |z|
    ensures Assembled([Look(Some(File(ino, x)), now), Look(Some(File(ino, z)), now)]) == x
  {
    var a, b := Look(Some(File(ino, x)), now), Look(Some(File(ino, z)), now);
    assert [a, b][..1] == [a] && [a][..0] == [];
    assert Assembled([a]) == x;
    assert x + z[|x|..] == x;
  }

  lemma OneLook(file: Option<File>, now: int, parse: string -> Option<Row>)
    ensures var looks := [Look(file, now)];
      && FollowAll(looks, parse) == ReadNew(None, file, now, parse)
      && Recognised(looks) && ClockedLooks(looks)
  {
    hide ReadNew;
    assert [Look(file, now)][..0] == [];
  }

  // A file of one line gives way to another of the same length under the same inode: the path goes on
  // showing the line that is gone.
  lemma StandInMisleads(ino: nat, x: string, z: string, now: int, parse: string -> Option<Row>)
    requires OneLine(x, parse) && OneLine(z, parse) && |x| == |z| && ParseLine(x, parse) != ParseLine(z, parse)
    requires ParseLine(x, parse)[0].at >= now - KEEP_MS && ParseLine(z, parse)[0].at >= now - KEEP_MS
    ensures var looks := [Look(Some(File(ino, x + "\n")), now), Look(Some(File(ino, z + "\n")), now)];
      && Recent(Shown(FollowAll(looks, parse)), now - KEEP_MS) == ParseLine(x, parse)
      && Recent(AllRows(LastSeen(looks), parse), now - KEEP_MS) == ParseLine(z, parse)
  {
    hide FollowAll, Reparse, Recent, ParseLine, Assembled, Split;
    var looks := [Look(Some(File(ino, x + "\n")), now), Look(Some(File(ino, z + "\n")), now)];
    StandInIsTaken(ino, x + "\n", z + "\n", now);
    LookShowsTaken(looks, parse);
    LineReadsBack(x, parse);
    LineReadsBack(z, parse);
    RecentOne(ParseLine(x, parse), now - KEEP_MS);
    RecentOne(ParseLine(z, parse), now - KEEP_MS);
  }

  // Three ways to that: the live file is cut to nothing and written again, or removed and created again
  // under its inode, or two renames free its inode for a new file.
  function Cut(z: string, ino: nat, now: int): seq<Event> {
    [Looked(false, now), Truncated(false, 0)] + [Appended(z, ino)]
  }

  function Recreated(z: string, ino: nat, now: int): seq<Event> {
    [Looked(false, now), Removed(false)] + [Appended(z, ino)]
  }

  function TwiceRenamed(y: string, other: nat, z: string, ino: nat, now: int): seq<Event> {
    [Looked(false, now), Renamed, Appended(y, other), Renamed] + [Appended(z, ino)]
  }

  lemma StandInsHappen(ino: nat, other: nat, x: string, y: string, z: string, now: int)
    requires ino != other
    ensures var start := Disk(Some(File(ino, x)), None);
      var first := [Look(Some(File(ino, x)), now)];
      && Looks(start, Cut(z, ino, now), false) == first
      && DiskAfter(start, Cut(z, ino, now)).live == Some(File(ino, z))
      && Looks(start, Recreated(z, ino, now), false) == first
      && DiskAfter(start, Recreated(z, ino, now)).live == Some(File(ino, z))
      && Looks(start, TwiceRenamed(y, other, z, ino, now), false) == first
      && DiskAfter(start, TwiceRenamed(y, other, z, ino, now)).live == Some(File(ino, z))
      && UnusedInodes(start, TwiceRenamed(y, other, z, ino, now))
      && Renames(start, TwiceRenamed(y, other, z, ino, now), false) == 2
  {
    FirstLook(ino, x, now);
    hide DiskAfter, Looks, UnusedInodes, Renames;
    var start, look := Disk(Some(File(ino, x)), None), Looked(false, now);
    EventSnoc(start, [look], Truncated(false, 0));
    assert [look] + [Truncated(false, 0)] == [look, Truncated(false, 0)];
    EventSnoc(start, [look, Truncated(false, 0)], Appended(z, ino));
    assert x[..0] + z == z && (x == "" ==> x + z == z);
    EventSnoc(start, [look], Removed(false));
    assert [look] + [Removed(false)] == [look, Removed(false)];
    EventSnoc(start, [look, Removed(false)], Appended(z, ino));
    EventSnoc(start, [look], Renamed);
    assert [look] + [Renamed] == [look, Renamed];
    EventSnoc(start, [look, Renamed], Appended(y, other));
    assert [look, Renamed] + [Appended(y, other)] == [look, Renamed, Appended(y, other)];
    EventSnoc(start, [look, Renamed, Appended(y, other)], Renamed);
    assert [look, Renamed, Appended(y, other)] + [Renamed] == [look, Renamed, Appended(y, other), Renamed];
    EventSnoc(start, [look, Renamed, Appended(y, other), Renamed], Appended(z, ino));
  }

  lemma FirstLook(ino: nat, x: string, now: int)
    ensures var start, events := Disk(Some(File(ino, x)), None), [Looked(false, now)];
      && DiskAfter(start, events) == start && Looks(start, events, false) == [Look(Some(File(ino, x)), now)]
      && UnusedInodes(start, events) && Renames(start, events, false) == 0
  {
    var events := [Looked(false, now)];
    assert events[..0] == [];
  }

  // One more event that is no look, at the live path.
  lemma EventSnoc(start: Disk, events: seq<Event>, e: Event)
    requires !e.Looked?
    ensures DiskAfter(start, events + [e]) == Change(DiskAfter(start, events), e)
    ensures Looks(start, events + [e], false) == Looks(start, events, false)
    ensures UnusedInodes(start, events + [e])
       <==> UnusedInodes(start, events) && (e.Appended? ==> Unused(DiskAfter(start, events), e.ino))
    ensures Renames(start, events + [e], false)
         == Renames(start, events, false)
            + if e.Renamed? && Looks(start, events, false) != [] && DiskAfter(start, events).live.Some? then 1 else 0
  {
    hide Change;
    assert (events + [e])[..|events|] == events;
  }

  // So with a truncation, a removal or two renames between two looks, everything recent and every inode
  // free when taken, what is shown is not what the file holds.
  lemma MistakenFiles(ino: nat, other: nat, x: string, y: string, z: string, now: int, parse: string -> Option<Row>)
    requires ino != other && OneLine(x, parse) && OneLine(z, parse)
    requires |x| == |z| && ParseLine(x, parse) != ParseLine(z, parse)
    requires ParseLine(x, parse)[0].at >= now - KEEP_MS && ParseLine(z, parse)[0].at >= now - KEEP_MS
    ensures var start := Disk(Some(File(ino, x + "\n")), None);
      forall events :: events in [Cut(z + "\n", ino, now), Recreated(z + "\n", ino, now),
                                  TwiceRenamed(y, other, z + "\n", ino, now)] ==>
        && Recent(ShownBy(start, events + [Looked(false, now)], false, parse), now - KEEP_MS) == ParseLine(x, parse)
        && Recent(AllRows(DiskAfter(start, events).live, parse), now - KEEP_MS) == ParseLine(z, parse)
  {
    hide DiskAfter, Looks, FollowAll, Reparse, Recent, ParseLine, Cut, Recreated, TwiceRenamed, UnusedInodes;
    var start := Disk(Some(File(ino, x + "\n")), None);
    StandInsHappen(ino, other, x + "\n", y, z + "\n", now);
    StandInMisleads(ino, x, z, now, parse);
    forall events | events in [Cut(z + "\n", ino, now), Recreated(z + "\n", ino, now),
                               TwiceRenamed(y, other, z + "\n", ino, now)]
      ensures Looks(start, events + [Looked(false, now)], false)
           == [Look(Some(File(ino, x + "\n")), now), Look(Some(File(ino, z + "\n")), now)]
    {
      LooksSnoc(start, events, Looked(false, now), false);
    }
  }

  // And rows out of time order: a file whose first row is recent and whose second is not shows both.
  lemma OldRowIsShown(ino: nat, x: string, y: string, now: int, parse: string -> Option<Row>)
    requires OneLine(x, parse) && OneLine(y, parse)
    requires ParseLine(y, parse)[0].at < now - KEEP_MS <= ParseLine(x, parse)[0].at
    ensures var start := Disk(Some(File(ino, x + "\n" + (y + "\n"))), None);
      var shown := ShownBy(start, [Looked(false, now)], false, parse);
      && Honest(start, [Looked(false, now)], false)
      && shown == ParseLine(x, parse) + ParseLine(y, parse)
      && Recent(AllRows(start.live, parse), now - KEEP_MS) == ParseLine(x, parse)
  {
    var content := x + "\n" + (y + "\n");
    var start, look := Disk(Some(File(ino, content)), None), Look(Some(File(ino, content)), now);
    FirstLook(ino, content, now);
    OneLook(look.file, now, parse);
    TwoLines(x, y, parse);
    hide FollowAll, Reparse, Recent, ParseLine, Looks, DiskAfter, Split, ParseLines;
    var all := ParseLine(x, parse) + ParseLine(y, parse);
    assert "" + content[0..] == content;
    RecentAppend(ParseLine(x, parse), ParseLine(y, parse), now - KEEP_MS);
    RecentOne(ParseLine(x, parse), now - KEEP_MS);
    RecentOne(ParseLine(y, parse), now - KEEP_MS);
  }

  lemma TwoLines(x: string, y: string, parse: string -> Option<Row>)
    requires '\n' !in x && '\n' !in y
    ensures var content := x + "\n" + (y + "\n");
      Reparse(content, parse) == ParseLine(x, parse) + ParseLine(y, parse)
  {
    hide Split, ParseLine;
    LineReadsBack(x, parse);
    LineReadsBack(y, parse);
    TailRows(x + "\n", y + "\n", parse);
    assert "" + (y + "\n") == y + "\n";
  }

  // ---------- the writer ----------

  // Buffer.byteLength: the length of a text in UTF-8.
  function Width(c: char): nat {
    if c < '\U{80}' then 1 else if c < '\U{800}' then 2 else if c < '\U{10000}' then 3 else 4
  }

  // The bits a UTF-8 sequence of `n` bytes carries (section 3 of RFC 3629).
  function Payload(n: nat): nat {
    if n == 1 then 7 else if n <= 4 then 5 * n + 1 else 0
  }

  // A character takes as few bytes as carry its code point.
  lemma WidthIsLeast(c: char)
    ensures 1 <= Width(c) <= 4 && c as int < Power(2, Payload(Width(c)))
    ensures forall n :: 1 <= n < Width(c) ==> Power(2, Payload(n)) <= c as int
  {
    assert Power(2, 4) == 16 && Power(2, 5) == 32 && Power(2, 7) == 4 * Power(2, 5);
    assert Power(2, 9) == 4 * Power(2, 7) && Power(2, 11) == 4 * Power(2, 9);
    assert Power(2, 13) == 4 * Power(2, 11) && Power(2, 15) == 4 * Power(2, 13) && Power(2, 16) == 2 * Power(2, 15);
    assert Power(2, 18) == 4 * Power(2, 16) && Power(2, 20) == 4 * Power(2, 18) && Power(2, 21) == 2 * Power(2, 20);
  }

  function Bytes(s: string): nat {
    if s == "" then 0 else Bytes(s[..|s| - 1]) + Width(s[|s| - 1])
  }

  lemma {:induction false} BytesAppend(a: string, b: string)
    ensures Bytes(a + b) == Bytes(a) + Bytes(b)
  {
    if b == "" {
      assert a + b == a;
    } else {
      BytesAppend(a, b[..|b| - 1]);
      assert (a + b)[..|a + b| - 1] == a + b[..|b| - 1];
    }
  }

  function Size(file: Option<File>): nat { if file.Some? then Bytes(file.value.content) else 0 }

  // `size` is read from disk at the first write and counted from then on; None before that.
  datatype SinkState = SinkState(size: Option<nat>, disk: Disk)

  // `renames` says whether the rename succeeds; a failure is swallowed and the count restarts anyway.
  function Recorded(s: SinkState, line: string, maxBytes: int, renames: bool, ino: nat): SinkState {
    var text := line + "\n";
    if maxBytes <= 0 then s.(disk := Append(s.disk, text, ino))
    else
      var size := if s.size.Some? then s.size.value else Size(s.disk.live);
      if size > 0 && size + Bytes(text) > maxBytes then
        SinkState(Some(Bytes(text)), Append(if renames then Rename(s.disk) else s.disk, text, ino))
      else SinkState(Some(size + Bytes(text)), Append(s.disk, text, ino))
  }

  class Sink {
    const maxBytes: int
    var size: Option<nat>
    var disk: Disk

    constructor (maxBytes: int, disk: Disk)
      ensures this.maxBytes == maxBytes && size == None && this.disk == disk
    {
      this.maxBytes, size, this.disk := maxBytes, None, disk;
    }

    method Record(line: string, renames: bool, ino: nat)
      modifies this
      ensures SinkState(size, disk) == Recorded(old(SinkState(size, disk)), line, maxBytes, renames, ino)
    {
      var text := line + "\n";
      if maxBytes > 0 {
        if size.None? { size := Some(Size(disk.live)); }
        if size.value > 0 && size.value + Bytes(text) > maxBytes {
          if renames { disk := Rename(disk); }
          size := Some(0);
        }
        size := Some(size.value + Bytes(text));
      }
      disk := Append(disk, text, ino);
    }
  }

  // The lines held by each generation, the older one and the live one; of the live one those the count
  // covers; and how many renames failed since the live file, and the older one, was new.
  datatype Generations = Generations(
    older: seq<string>, live: seq<string>, counted: seq<string>, failed: nat, failedOlder: nat)

  function Content(lines: seq<string>): string {
    if lines == [] then "" else Content(lines[..|lines| - 1]) + (lines[|lines| - 1] + "\n")
  }

  // Generations by the lines themselves: a line that would take a non-empty count past the cap opens a new
  // generation, or only a new count where the rename fails.
  function NextLine(g: Generations, line: string, maxBytes: int, renames: bool): Generations {
    if maxBytes > 0 && g.counted != [] && Bytes(Content(g.counted)) + Bytes(line) + 1 > maxBytes then
      if renames then Generations(g.live, [line], [line], 0, g.failed)
      else g.(live := g.live + [line], counted := [line], failed := g.failed + 1)
    else g.(live := g.live + [line], counted := g.counted + [line])
  }

  // `renames(k)` says whether a rename before the k-th line would succeed.
  function Generated(lines: seq<string>, maxBytes: int, renames: nat -> bool): Generations {
    if lines == [] then Generations([], [], [], 0, 0)
    else NextLine(Generated(lines[..|lines| - 1], maxBytes, renames), lines[|lines| - 1], maxBytes, renames(|lines|))
  }

  function RecordAll(lines: seq<string>, maxBytes: int, renames: nat -> bool, inos: nat -> nat): SinkState {
    if lines == [] then SinkState(None, Disk(None, None))
    else
      var before, n := RecordAll(lines[..|lines| - 1], maxBytes, renames, inos), |lines|;
      Recorded(before, lines[n - 1], maxBytes, renames(n), inos(n))
  }

  predicate Holds(file: Option<File>, lines: seq<string>) {
    if lines == [] then file.None? else file.Some? && file.value.content == Content(lines)
  }

  lemma ContentSnoc(lines: seq<string>, line: string)
    ensures Content(lines + [line]) == Content(lines) + (line + "\n")
  {
    assert (lines + [line])[..|lines|] == lines;
  }

  lemma ContentIsEmpty(lines: seq<string>)
    ensures Bytes(Content(lines)) == 0 <==> lines == []
  {
    if lines != [] {
      var n := |lines| - 1;
      BytesAppend(Content(lines[..n]), lines[n] + "\n");
      LineBytes(lines[n]);
    }
  }

  lemma LineBytes(line: string)
    ensures Bytes(line + "\n") == Bytes(line) + 1
  {
    assert (line + "\n")[..|line|] == line;
  }

  // The count is that of the lines it covers, which are the whole live file unless a rename has failed.
  predicate OnDisk(s: SinkState, g: Generations, maxBytes: int) {
    && (maxBytes <= 0 ==> s.size.None?)
    && Holds(s.disk.older, g.older) && Holds(s.disk.live, g.live)
    && (s.size.Some? ==> s.size.value == Bytes(Content(g.counted)))
    && (s.size.None? || g.failed == 0 ==> g.counted == g.live)
  }

  lemma ContentOfOne(line: string)
    ensures Content([line]) == line + "\n" && Bytes(Content([line])) == Bytes(line) + 1
  {
    assert [line][..0] == [];
    assert Content([line]) == Content([line][..0]) + (line + "\n");
    LineBytes(line);
  }

  lemma RecordStaysOnDisk(s: SinkState, g: Generations, line: string, maxBytes: int, renames: bool, ino: nat)
    requires OnDisk(s, g, maxBytes)
    requires g.live == [] ==> g.counted == []
    ensures OnDisk(Recorded(s, line, maxBytes, renames, ino), NextLine(g, line, maxBytes, renames), maxBytes)
  {
    hide Content, Bytes;
    NoBytes();
    ContentSnoc(g.live, line);
    ContentSnoc(g.counted, line);
    ContentOfOne(line);
    ContentIsEmpty(g.counted);
    LineBytes(line);
    BytesAppend(Content(g.counted), line + "\n");
    assert [] + [line] == [line];
  }

  lemma {:induction false} CountsWhatIsLive(lines: seq<string>, maxBytes: int, renames: nat -> bool)
    ensures var g := Generated(lines, maxBytes, renames);
      (g.live == [] <==> lines == []) && (g.counted == [] <==> lines == [])
  {
    if lines != [] { hide Content, Bytes; }
  }

  // Recording from nothing leaves exactly those generations on disk, however renames turn out, and the
  // count is the live file's true size as long as none of its renames has failed.
  lemma {:induction false} RecordedIsOnDisk(lines: seq<string>, maxBytes: int, renames: nat -> bool, inos: nat -> nat)
    ensures OnDisk(RecordAll(lines, maxBytes, renames, inos), Generated(lines, maxBytes, renames), maxBytes)
  {
    if lines != [] {
      hide OnDisk, Recorded, NextLine;
      var n := |lines| - 1;
      RecordedIsOnDisk(lines[..n], maxBytes, renames, inos);
      var before, g := RecordAll(lines[..n], maxBytes, renames, inos), Generated(lines[..n], maxBytes, renames);
      CountsWhatIsLive(lines[..n], maxBytes, renames);
      RecordStaysOnDisk(before, g, lines[n], maxBytes, renames(|lines|), inos(|lines|));
    } else {
      assert OnDisk(RecordAll([], maxBytes, renames, inos), Generated([], maxBytes, renames), maxBytes);
    }
  }

  predicate Bounded(lines: seq<string>, bound: int) {
    forall k :: 0 <= k < |lines| ==> Bytes(lines[k]) + 1 <= bound
  }

  // Each file stays within the cap, or within one line where a single line is longer than the cap, once for
  // itself and once more for every rename that failed while it was live.
  lemma {:induction false} RotationBoundsTheDisk(lines: seq<string>, maxBytes: int, bound: int,
                                                 renames: nat -> bool, inos: nat -> nat)
    requires 0 < maxBytes <= bound && Bounded(lines, bound)
    ensures var s, g := RecordAll(lines, maxBytes, renames, inos), Generated(lines, maxBytes, renames);
      Size(s.disk.older) <= bound * (1 + g.failedOlder) && Size(s.disk.live) <= bound * (1 + g.failed)
  {
    hide Generated, RecordAll, Bytes;
    NoBytes();
    RecordedIsOnDisk(lines, maxBytes, renames, inos);
    GenerationsAreBounded(lines, maxBytes, bound, renames);
    OneMore(bound, Generated(lines, maxBytes, renames).failed);
  }

  // So within the cap, or one longer line, when no rename fails.
  lemma RotationHoldsTheCap(lines: seq<string>, maxBytes: int, bound: int, renames: nat -> bool, inos: nat -> nat)
    requires 0 < maxBytes <= bound && Bounded(lines, bound) && forall k :: renames(k)
    ensures var s := RecordAll(lines, maxBytes, renames, inos);
      Size(s.disk.older) <= bound && Size(s.disk.live) <= bound
  {
    hide Generated, RecordAll;
    NoFailures(lines, maxBytes, renames);
    RotationBoundsTheDisk(lines, maxBytes, bound, renames, inos);
  }

  lemma {:induction false} NoFailures(lines: seq<string>, maxBytes: int, renames: nat -> bool)
    requires forall k :: renames(k)
    ensures Generated(lines, maxBytes, renames).failed == 0 && Generated(lines, maxBytes, renames).failedOlder == 0
  {
    hide Content, Bytes;
    if lines != [] { NoFailures(lines[..|lines| - 1], maxBytes, renames); }
  }

  // The bound is reached: lines of the cap's own size, and every rename failing.
  lemma {:induction false} FailuresAddUp(line: string, n: nat, renames: nat -> bool, inos: nat -> nat)
    requires n > 0 && forall k :: !renames(k)
    ensures var lines, maxBytes := seq(n, _ => line), Bytes(line) + 1;
      && Size(RecordAll(lines, maxBytes, renames, inos).disk.live) == maxBytes * n
      && Generated(lines, maxBytes, renames).failed == n - 1
  {
    hide RecordAll, Content, Bytes;
    var lines, maxBytes := seq(n, _ => line), Bytes(line) + 1;
    RecordedIsOnDisk(lines, maxBytes, renames, inos);
    CopiesAddUp(line, n, renames);
    CountsWhatIsLive(lines, maxBytes, renames);
  }

  lemma {:induction false} CopiesAddUp(line: string, n: nat, renames: nat -> bool)
    requires n > 0 && forall k :: !renames(k)
    ensures var g := Generated(seq(n, _ => line), Bytes(line) + 1, renames);
      && g.counted == [line] && g.failed == n - 1 && Bytes(Content(g.live)) == (Bytes(line) + 1) * n
  {
    hide Content, Bytes;
    var lines := seq(n, _ => line);
    var before := Generated(lines[..n - 1], Bytes(line) + 1, renames);
    if n > 1 {
      assert lines[..n - 1] == seq(n - 1, _ => line);
      CopiesAddUp(line, n - 1, renames);
    }
    NoBytes();
    ContentOfOne(line);
    OneLonger(before.live, line);
    assert [] + [line] == [line];
    assert (Bytes(line) + 1) * n == (Bytes(line) + 1) * (n - 1) + (Bytes(line) + 1);
  }

  lemma NoBytes()
    ensures Content([]) == "" && Bytes("") == 0
  {
  }

  predicate Sized(g: Generations, bound: int) {
    && Bytes(Content(g.counted)) <= bound
    && Bytes(Content(g.live)) <= Times(bound, g.failed) + Bytes(Content(g.counted))
    && Bytes(Content(g.older)) <= Times(bound, 1 + g.failedOlder)
  }

  function Times(bound: int, n: nat): int { bound * n }

  lemma OneMore(bound: int, failed: nat)
    ensures Times(bound, failed + 1) == Times(bound, 1 + failed) == Times(bound, failed) + bound
    ensures Times(bound, 0) == 0
  {
  }

  lemma StaysSized(g: Generations, line: string, maxBytes: int, bound: int, renames: bool)
    requires 0 < maxBytes <= bound && Bytes(line) + 1 <= bound && Sized(g, bound)
    ensures Sized(NextLine(g, line, maxBytes, renames), bound)
  {
    hide Content, Bytes, Times;
    NoBytes();
    OneMore(bound, g.failed);
    OneLonger(g.live, line);
    OneLonger(g.counted, line);
    ContentOfOne(line);
  }

  lemma OneLonger(lines: seq<string>, line: string)
    ensures Bytes(Content(lines + [line])) == Bytes(Content(lines)) + Bytes(line) + 1
  {
    hide Content, Bytes;
    ContentSnoc(lines, line);
    LineBytes(line);
    BytesAppend(Content(lines), line + "\n");
  }

  lemma {:induction false} GenerationsAreBounded(lines: seq<string>, maxBytes: int, bound: int, renames: nat -> bool)
    requires 0 < maxBytes <= bound && Bounded(lines, bound)
    ensures Sized(Generated(lines, maxBytes, renames), bound)
  {
    if lines == [] {
      NoBytes();
      OneMore(bound, 0);
    } else {
      hide Sized, NextLine, Bytes;
      var n := |lines| - 1;
      GenerationsAreBounded(lines[..n], maxBytes, bound, renames);
      StaysSized(Generated(lines[..n], maxBytes, renames), lines[n], maxBytes, bound, renames(|lines|));
    }
  }

  predicate Ends(lines: seq<string>, end: seq<string>) {
    |end| <= |lines| && lines[|lines| - |end|..] == end
  }

  // However renames turn out, the two files hold the last lines recorded, none missing, none twice, and
  // the newest always.
  lemma {:induction false} DiskHoldsTheLastLines(lines: seq<string>, maxBytes: int, renames: nat -> bool)
    ensures var g := Generated(lines, maxBytes, renames);
      Ends(lines, g.older + g.live) && (lines != [] ==> g.live != [])
  {
    if lines != [] {
      hide Ends, NextLine;
      var n := |lines| - 1;
      DiskHoldsTheLastLines(lines[..n], maxBytes, renames);
      NextEnds(lines[..n], lines[n], Generated(lines[..n], maxBytes, renames), maxBytes, renames(|lines|));
      assert lines == lines[..n] + [lines[n]];
    } else {
      assert lines[0..] == [];
    }
  }

  lemma NextEnds(lines: seq<string>, line: string, g: Generations, maxBytes: int, renames: bool)
    requires Ends(lines, g.older + g.live)
    ensures var next := NextLine(g, line, maxBytes, renames);
      Ends(lines + [line], next.older + next.live) && next.live != []
  {
    hide Ends, NextLine;
    SuffixSnoc(lines, line, g.older + g.live);
    SuffixOfSuffix(lines, g.older, g.live);
    SuffixSnoc(lines, line, g.live);
    NextKeepsBoth(g, line, maxBytes, renames);
  }

  // The line follows both generations, or the live one where the older one goes.
  lemma NextKeepsBoth(g: Generations, line: string, maxBytes: int, renames: bool)
    ensures var next := NextLine(g, line, maxBytes, renames);
      && next.live != []
      && (next.older + next.live == g.older + g.live + [line] || next.older + next.live == g.live + [line])
  {
    hide Content, Bytes;
  }

  lemma SuffixSnoc(lines: seq<string>, line: string, end: seq<string>)
    requires Ends(lines, end)
    ensures Ends(lines + [line], end + [line])
  {
    assert (lines + [line])[|lines| - |end|..] == end + [line];
  }

  lemma SuffixOfSuffix(lines: seq<string>, a: seq<string>, b: seq<string>)
    requires Ends(lines, a + b)
    ensures Ends(lines, b)
  {
    var end := lines[|lines| - |a + b|..];
    assert end[|a|..] == b;
  }

  // ---------- the writer and the reader ----------

  // JSON of one observation holds no line feed, trims to itself and parses back.
  ghost predicate Prints(show: Row -> string, parse: string -> Option<Row>) {
    forall r :: '\n' !in show(r) && show(r) != "" && Trim(show(r)) == show(r) && parse(show(r)) == Some(r)
  }

  function Lines(rows: seq<Row>, show: Row -> string): seq<string> {
    seq(|rows|, k requires 0 <= k < |rows| => show(rows[k]))
  }

  lemma {:induction false} ReadsBack(rows: seq<Row>, show: Row -> string, parse: string -> Option<Row>)
    requires Prints(show, parse)
    ensures Split(Content(Lines(rows, show)), '\n') == Lines(rows, show) + [""]
    ensures Reparse(Content(Lines(rows, show)), parse) == rows
  {
    hide Split, Trim;
    if rows == [] {
      SplitHead("", '\n', "");
    } else {
      var n := |rows| - 1;
      var before, line := Lines(rows[..n], show), show(rows[n]);
      ReadsBack(rows[..n], show, parse);
      assert Lines(rows, show) == before + [line];
      ContentSnoc(before, line);
      SplitAppend(Content(before), line + "\n", '\n');
      assert "" + (line + "\n") == line + ['\n'] + "";
      SplitHead(line, '\n', "");
      SplitHead("", '\n', "");
      assert Complete(before + [""]) == before;
      assert before + ([line] + [""]) == (before + [line]) + [""];
      assert Complete((before + [line]) + [""]) == before + [line];
      assert (before + [line])[..n] == before;
      OneRow(rows[n], show, parse);
      assert rows == rows[..n] + [rows[n]];
    }
  }

  lemma OneRow(r: Row, show: Row -> string, parse: string -> Option<Row>)
    requires Prints(show, parse)
    ensures ParseLine(show(r), parse) == [r]
  {
  }

  // Whatever was recorded is read back: the two files parse to the last rows recorded, in order, the
  // newest among them.
  lemma RecordedRowsReadBack(rows: seq<Row>, maxBytes: int, renames: nat -> bool, inos: nat -> nat,
                             show: Row -> string, parse: string -> Option<Row>)
    requires Prints(show, parse)
    ensures var s := RecordAll(Lines(rows, show), maxBytes, renames, inos);
      var read := AllRows(s.disk.older, parse) + AllRows(s.disk.live, parse);
      |read| <= |rows| && rows[|rows| - |read|..] == read && (rows != [] ==> AllRows(s.disk.live, parse) != [])
  {
    hide Generated, RecordAll, Reparse, Prints;
    var lines := Lines(rows, show);
    var g := Generated(lines, maxBytes, renames);
    RecordedIsOnDisk(lines, maxBytes, renames, inos);
    DiskHoldsTheLastLines(lines, maxBytes, renames);
    var a, b := |rows| - |g.older| - |g.live|, |rows| - |g.live|;
    assert lines[a..] == g.older + g.live;
    assert g.older == Lines(rows[a..b], show) by { LinesSlice(rows, show, a, b); assert lines[a..b] == g.older; }
    assert g.live == Lines(rows[b..], show) by { LinesSlice(rows, show, b, |rows|); assert lines[b..] == g.live; }
    ReadsBack(rows[a..b], show, parse);
    ReadsBack(rows[b..], show, parse);
    assert rows[a..] == rows[a..b] + rows[b..];
  }

  lemma LinesSlice(rows: seq<Row>, show: Row -> string, a: nat, b: nat)
    requires a <= b <= |rows|
    ensures Lines(rows, show)[a..b] == Lines(rows[a..b], show)
  {
  }
}
