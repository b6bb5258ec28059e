// Fencing third-party text: after one left-to-right replacement pass, the two fence markers of the
// result are the fence's own.
module Fence {
  import opened Text

  const OPENING := "<<<UNTRUSTED"
  const CLOSING := "UNTRUSTED>>>"
  const REPLACEMENT := "[fence marker removed]"
  const MARKER_LENGTH := 12

  // The text at `i` reads as `marker` in any mix of upper and lower case.
  predicate ReadsAt(s: string, i: nat, marker: string) {
    i + |marker| <= |s| && Lower(s[i..i + |marker|]) == Lower(marker)
  }

  predicate MarkerAt(s: string, i: nat) {
    ReadsAt(s, i, OPENING) || ReadsAt(s, i, CLOSING)
  }

  ghost predicate NoMarker(s: string) {
    forall i: nat :: !MarkerAt(s, i)
  }

  // Its only marker is the closing one, at its very end.
  ghost predicate ClosesAtEnd(s: string) {
    && |s| >= MARKER_LENGTH
    && forall i: nat :: !ReadsAt(s, i, OPENING) && (ReadsAt(s, i, CLOSING) <==> i == |s| - MARKER_LENGTH)
  }

  function StripFenceMarkers(s: string): string {
    if s == [] then []
    else if MarkerAt(s, 0) then REPLACEMENT + StripFenceMarkers(s[MARKER_LENGTH..])
    else [s[0]] + StripFenceMarkers(s[1..])
  }

  function FenceUntrusted(name: string, body: string): string {
    OPENING + " " + StripFenceMarkers(name) + "\n" + StripFenceMarkers(body) + "\n" + CLOSING
  }

  // A character no spelling of either marker contains.
  predicate Foreign(c: char) {
    c == ' ' || c == '\n' || c == '[' || c == ']'
  }

  lemma MarkerHasNoForeign(s: string, i: nat, k: nat)
    requires MarkerAt(s, i) && i <= k < i + MARKER_LENGTH
    ensures !Foreign(s[k])
  {
    var w := s[i..i + MARKER_LENGTH];
    assert w[k - i] == s[k];
    assert Lower(w)[k - i] == LowerChar(s[k]);
    assert Lower(OPENING) == "<<<untrusted" && Lower(CLOSING) == "untrusted>>>";
  }

  lemma MarkerShift(front: string, s: string, i: nat)
    ensures MarkerAt(front + s, |front| + i) <==> MarkerAt(s, i)
    ensures ReadsAt(front + s, |front| + i, OPENING) <==> ReadsAt(s, i, OPENING)
    ensures ReadsAt(front + s, |front| + i, CLOSING) <==> ReadsAt(s, i, CLOSING)
  {
    if i + MARKER_LENGTH <= |s| {
      assert (front + s)[|front| + i..|front| + i + MARKER_LENGTH] == s[i..i + MARKER_LENGTH];
    }
  }

  lemma NoMarkerStartsInReplacement(rest: string, i: nat)
    requires i < |REPLACEMENT|
    ensures !MarkerAt(REPLACEMENT + rest, i)
  {
    var s := REPLACEMENT + rest;
    if MarkerAt(s, i) {
      MarkerHasNoForeign(s, i, if i <= 6 then 6 else if i <= 13 then 13 else 21);
    }
  }

  // What the pass leaves before its first replacement is the input itself.
  lemma {:induction false} PassCopiesUpToBracket(s: string, m: nat)
    requires m <= |StripFenceMarkers(s)| && '[' !in StripFenceMarkers(s)[..m]
    ensures m <= |s| && s[..m] == StripFenceMarkers(s)[..m]
  {
    var out := StripFenceMarkers(s);
    if m > 0 {
      assert out[..m][0] == out[0];
      assert !MarkerAt(s, 0);
      assert out[1..] == StripFenceMarkers(s[1..]);
      assert out[..m] == [s[0]] + out[1..][..m - 1];
      assert forall c :: c in out[1..][..m - 1] ==> c in out[..m];
      PassCopiesUpToBracket(s[1..], m - 1);
      assert s[..m] == [s[0]] + s[1..][..m - 1];
    }
  }

  lemma SamePrefixSameMarker(s: string, t: string)
    requires MARKER_LENGTH <= |s| && MARKER_LENGTH <= |t| && s[..MARKER_LENGTH] == t[..MARKER_LENGTH]
    ensures MarkerAt(s, 0) <==> MarkerAt(t, 0)
  {
    assert s[0..MARKER_LENGTH] == t[0..MARKER_LENGTH];
  }

  lemma {:induction false} StripLeavesNoMarkerAt(s: string, i: nat)
    ensures !MarkerAt(StripFenceMarkers(s), i)
    decreases |s|
  {
    var out := StripFenceMarkers(s);
    if s == [] {
    } else if MarkerAt(s, 0) {
      var rest := StripFenceMarkers(s[MARKER_LENGTH..]);
      if i < |REPLACEMENT| {
        NoMarkerStartsInReplacement(rest, i);
      } else {
        MarkerShift(REPLACEMENT, rest, i - |REPLACEMENT|);
        StripLeavesNoMarkerAt(s[MARKER_LENGTH..], i - |REPLACEMENT|);
      }
    } else if i > 0 {
      MarkerShift([s[0]], StripFenceMarkers(s[1..]), i - 1);
      StripLeavesNoMarkerAt(s[1..], i - 1);
    } else if MarkerAt(out, 0) {
      forall k | 0 <= k < MARKER_LENGTH ensures out[k] != '[' { MarkerHasNoForeign(out, 0, k); }
      assert '[' !in out[..MARKER_LENGTH];
      PassCopiesUpToBracket(s, MARKER_LENGTH);
      SamePrefixSameMarker(s, out);
    }
  }

  // The pass leaves no marker, in any casing, not even one pieced together across a replacement.
  lemma StripLeavesNoMarker(s: string)
    ensures NoMarker(StripFenceMarkers(s))
  {
    forall i: nat ensures !MarkerAt(StripFenceMarkers(s), i) {
      StripLeavesNoMarkerAt(s, i);
    }
  }

  // Text that spells no marker is passed through as written.
  lemma {:induction false} StripKeepsCleanText(s: string)
    requires NoMarker(s)
    ensures StripFenceMarkers(s) == s
  {
    if s != [] {
      assert s == [s[0]] + s[1..];
      forall i: nat ensures !MarkerAt(s[1..], i) { MarkerShift([s[0]], s[1..], i); }
      StripKeepsCleanText(s[1..]);
    }
  }

  // A marker never straddles a space or a line break.
  lemma MarkerOnOneSide(left: string, c: char, right: string, i: nat)
    requires Foreign(c)
    ensures i <= |left| ==> (ReadsAt(left + [c] + right, i, OPENING) <==> ReadsAt(left, i, OPENING))
    ensures i <= |left| ==> (ReadsAt(left + [c] + right, i, CLOSING) <==> ReadsAt(left, i, CLOSING))
    ensures i > |left| ==> (ReadsAt(left + [c] + right, i, OPENING) <==> ReadsAt(right, i - |left| - 1, OPENING))
    ensures i > |left| ==> (ReadsAt(left + [c] + right, i, CLOSING) <==> ReadsAt(right, i - |left| - 1, CLOSING))
  {
    var s := left + [c] + right;
    if i > |left| {
      MarkerShift(left + [c], right, i - |left| - 1);
    } else if i + MARKER_LENGTH <= |left| {
      assert s[i..i + MARKER_LENGTH] == left[i..i + MARKER_LENGTH];
    } else if MarkerAt(s, i) {
      MarkerHasNoForeign(s, i, |left|);
    }
  }

  // Clean text and a line break in front of text that closes at its end changes nothing about that.
  lemma CleanFront(clean: string, tail: string)
    requires NoMarker(clean) && ClosesAtEnd(tail)
    ensures ClosesAtEnd(clean + ['\n'] + tail)
  {
    var s := clean + ['\n'] + tail;
    forall i: nat
      ensures !ReadsAt(s, i, OPENING) && (ReadsAt(s, i, CLOSING) <==> i == |s| - MARKER_LENGTH)
    {
      MarkerOnOneSide(clean, '\n', tail, i);
      assert !MarkerAt(clean, i);
    }
  }

  // For any label and any body the fenced text holds one opening marker, at its start, and one
  // closing marker, at its end.
  lemma FenceIsExact(name: string, body: string, i: nat)
    ensures var out := FenceUntrusted(name, body);
            && (ReadsAt(out, i, OPENING) <==> i == 0)
            && (ReadsAt(out, i, CLOSING) <==> i == |out| - MARKER_LENGTH)
  {
    var l, b := StripFenceMarkers(name), StripFenceMarkers(body);
    StripLeavesNoMarker(name);
    StripLeavesNoMarker(body);
    ClosingClosesAtEnd();
    var tail := b + ['\n'] + CLOSING;
    CleanFront(b, CLOSING);
    var middle := l + ['\n'] + tail;
    CleanFront(l, tail);
    OpeningFront(middle, i);
    assert FenceUntrusted(name, body) == OPENING + [' '] + middle;
  }

  lemma OpeningFront(middle: string, i: nat)
    requires ClosesAtEnd(middle)
    ensures var out := OPENING + [' '] + middle;
            && (ReadsAt(out, i, OPENING) <==> i == 0)
            && (ReadsAt(out, i, CLOSING) <==> i == |out| - MARKER_LENGTH)
  {
    MarkerOnOneSide(OPENING, ' ', middle, i);
    OwnMarkers(i);
  }

  lemma ClosingClosesAtEnd()
    ensures ClosesAtEnd(CLOSING)
  {
    forall i: nat
      ensures !ReadsAt(CLOSING, i, OPENING) && (ReadsAt(CLOSING, i, CLOSING) <==> i == 0)
    {
      OwnMarkers(i);
    }
  }

  lemma OwnMarkers(i: nat)
    ensures ReadsAt(OPENING, i, OPENING) <==> i == 0
    ensures ReadsAt(CLOSING, i, CLOSING) <==> i == 0
    ensures !ReadsAt(OPENING, i, CLOSING) && !ReadsAt(CLOSING, i, OPENING)
  {
    assert Lower(OPENING)[0] == '<' && Lower(CLOSING)[0] == 'u';
    assert OPENING[0..12] == OPENING && CLOSING[0..12] == CLOSING;
  }

  // ---------- what one pass does ----------

  // Pieces of text with something between each two of them.
  function Woven(pieces: seq<string>, between: seq<string>): string
    requires |pieces| == |between| + 1
  {
    if between == [] then pieces[0] else pieces[0] + between[0] + Woven(pieces[1..], between[1..])
  }

  predicate IsMarker(s: string) { Lower(s) == Lower(OPENING) || Lower(s) == Lower(CLOSING) }

  // The text is these pieces with these markers between, each marker the first from where the last ended.
  ghost predicate CutAtMarkers(s: string, pieces: seq<string>, markers: seq<string>)
    decreases |pieces|
  {
    && |pieces| == |markers| + 1 && s == Woven(pieces, markers)
    && (forall i: nat :: i < |pieces[0]| ==> !MarkerAt(s, i))
    && if markers == [] then true
       else IsMarker(markers[0]) && CutAtMarkers(Woven(pieces[1..], markers[1..]), pieces[1..], markers[1..])
  }

  function Replacements(n: nat): seq<string> { seq(n, _ => REPLACEMENT) }

  lemma WovenIs(pieces: seq<string>, between: seq<string>)
    requires |pieces| == |between| + 1
    ensures Woven(pieces, between)
         == if between == [] then pieces[0] else pieces[0] + between[0] + Woven(pieces[1..], between[1..])
  {
  }

  lemma FrontFirst(a: string, b: string, c: string, d: string)
    ensures (a + b) + c + d == a + (b + c + d)
  {
  }

  lemma WovenFront(front: string, pieces: seq<string>, between: seq<string>)
    requires |pieces| == |between| + 1
    ensures Woven([front + pieces[0]] + pieces[1..], between) == front + Woven(pieces, between)
  {
    hide Woven;
    var more := [front + pieces[0]] + pieces[1..];
    assert more[1..] == pieces[1..];
    WovenIs(more, between);
    WovenIs(pieces, between);
    if between != [] { FrontFirst(front, pieces[0], between[0], Woven(pieces[1..], between[1..])); }
  }

  lemma WovenMarker(marker: string, pieces: seq<string>, between: seq<string>)
    requires |pieces| == |between| + 1
    ensures Woven([""] + pieces, [marker] + between) == marker + Woven(pieces, between)
  {
    assert ([""] + pieces)[1..] == pieces && ([marker] + between)[1..] == between;
    assert "" + marker == marker;
  }

  lemma CutFront(s: string, c: char, pieces: seq<string>, markers: seq<string>)
    requires CutAtMarkers(s, pieces, markers) && !MarkerAt([c] + s, 0)
    ensures CutAtMarkers([c] + s, [[c] + pieces[0]] + pieces[1..], markers)
  {
    hide MarkerAt, Woven, IsMarker;
    var more := [[c] + pieces[0]] + pieces[1..];
    WovenFront([c], pieces, markers);
    assert more[1..] == pieces[1..];
    forall i: nat | i < |more[0]| ensures !MarkerAt([c] + s, i) {
      if i > 0 { MarkerShift([c], s, i - 1); }
    }
  }

  lemma CutMarker(s: string, marker: string, pieces: seq<string>, markers: seq<string>)
    requires CutAtMarkers(s, pieces, markers) && IsMarker(marker)
    ensures CutAtMarkers(marker + s, [""] + pieces, [marker] + markers)
  {
    hide MarkerAt, Woven, IsMarker;
    WovenMarker(marker, pieces, markers);
    assert ([""] + pieces)[1..] == pieces && ([marker] + markers)[1..] == markers;
  }

  lemma {:induction false} StripCuts(s: string) returns (pieces: seq<string>, markers: seq<string>)
    ensures CutAtMarkers(s, pieces, markers)
    ensures StripFenceMarkers(s) == Woven(pieces, Replacements(|markers|))
    decreases |s|
  {
    hide CutAtMarkers, Woven;
    if s == [] {
      pieces, markers := [""], [];
      NothingCut();
    } else if MarkerAt(s, 0) {
      var m, rest := s[..MARKER_LENGTH], s[MARKER_LENGTH..];
      assert s[0..MARKER_LENGTH] == m && s == m + rest;
      var p, k := StripCuts(rest);
      CutIs(rest, p, k);
      pieces, markers := [""] + p, [m] + k;
      CutMarker(rest, m, p, k);
      WovenMarker(REPLACEMENT, p, Replacements(|k|));
      assert Replacements(|markers|) == [REPLACEMENT] + Replacements(|k|);
    } else {
      assert s == [s[0]] + s[1..];
      var p, k := StripCuts(s[1..]);
      CutIs(s[1..], p, k);
      pieces, markers := [[s[0]] + p[0]] + p[1..], k;
      CutFront(s[1..], s[0], p, k);
      WovenFront([s[0]], p, Replacements(|k|));
    }
  }

  lemma CutIs(s: string, pieces: seq<string>, markers: seq<string>)
    requires CutAtMarkers(s, pieces, markers)
    ensures |pieces| == |markers| + 1
  {
  }

  lemma NothingCut()
    ensures CutAtMarkers([], [""], []) && Woven([""], Replacements(0)) == []
  {
  }

  // Cut at its markers, from left to right, the text keeps every piece and has the replacement in place of
  // every marker.
  lemma StripReplacesMarkers(s: string)
    ensures exists pieces: seq<string>, markers: seq<string> ::
      CutAtMarkers(s, pieces, markers) && StripFenceMarkers(s) == Woven(pieces, Replacements(|markers|))
  {
    hide CutAtMarkers, Woven;
    var pieces, markers := StripCuts(s);
    CutIs(s, pieces, markers);
    assert CutAtMarkers(s, pieces, markers) && StripFenceMarkers(s) == Woven(pieces, Replacements(|markers|));
  }
}
