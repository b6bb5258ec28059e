// Normalization and sentence segmentation, on which both parties to a quote proof must agree.
//
// Unicode normalization and the letter and number classes are parameters: nothing is assumed of
// them here but that normalized, collapsed text is already in normal form.
module Sentences {
  import opened Text

  // nfc: String.prototype.normalize("NFC"); isUpper: \p{Lu}; isNumber: \p{N}.
  datatype Unicode = Unicode(nfc: string -> string, isUpper: char -> bool, isNumber: char -> bool)

  predicate IsCollapsible(c: char) { IsSpace(c) || c == '\U{200b}' }

  predicate IsTerminator(c: char) { c == '.' || c == '?' || c == '!' }

  predicate IsCloser(c: char) {
    c == '"' || c == '\'' || c == '\U{201d}' || c == '\U{2019}' || c == ')' || c == ']'
  }

  predicate IsOpener(c: char) {
    c == '"' || c == '\'' || c == '\U{201c}' || c == '\U{2018}' || c == '(' || c == '['
  }

  const ABBREVIATIONS: set<string> := {
    "al", "e.g", "i.e", "etc", "Fig", "Figs", "fig", "figs", "Eq", "Eqs", "eq", "eqs", "Ref", "Refs", "ref", "refs",
    "No", "no", "Vol", "vol", "pp", "p", "vs", "cf", "Dr", "Mr", "Mrs", "Ms", "Prof", "St", "Jr", "Sr",
    "approx", "ca", "resp", "Sect", "sect", "Suppl", "suppl", "Tab", "tab", "Ch", "ch", "Inc", "Ltd", "Co",
    "Jan", "Feb", "Mar", "Apr", "Jun", "Jul", "Aug", "Sep", "Sept", "Oct", "Nov", "Dec" }

  // ---------- normalization ----------

  function DropRun(s: string): (rest: string)
    ensures |rest| <= |s|
  {
    if s != [] && IsCollapsible(s[0]) then DropRun(s[1..]) else s
  }

  function Collapse(s: string): string
    decreases |s|
  {
    if s == [] then []
    else if IsCollapsible(s[0]) then [' '] + Collapse(DropRun(s[1..]))
    else [s[0]] + Collapse(s[1..])
  }

  function NormalizeText(u: Unicode, s: string): string { Trim(Collapse(u.nfc(s))) }

  // Single spaces only, none at either end.
  predicate Normal(t: string) {
    && Trimmed(t)
    && Spaced(t)
  }

  predicate Spaced(t: string) {
    && (forall k :: 0 <= k < |t| && IsCollapsible(t[k]) ==> t[k] == ' ')
    && (forall k :: 0 < k < |t| ==> !(t[k - 1] == ' ' && t[k] == ' '))
  }

  // ---------- the boundary rules ----------

  // The end of the run of characters from `i` on that satisfy `p`.
  function RunEnd(t: string, i: nat, p: char -> bool): (k: nat)
    requires i <= |t|
    ensures i <= k <= |t|
    ensures forall j :: i <= j < k ==> p(t[j])
    ensures k < |t| ==> !p(t[k])
    decreases |t| - i
  {
    if i < |t| && p(t[i]) then RunEnd(t, i + 1, p) else i
  }

  predicate RunStart(t: string, i: nat) {
    i < |t| && IsTerminator(t[i]) && (i == 0 || !IsTerminator(t[i - 1]))
  }

  // Where a terminator run starting at `i`, with its closing quotes and brackets, ends.
  function MatchEnd(t: string, i: nat): (k: nat)
    requires RunStart(t, i)
    ensures i < k <= |t|
  {
    RunEnd(t, RunEnd(t, i, IsTerminator), IsCloser)
  }

  predicate IsBoundary(t: string, i: nat) {
    RunStart(t, i) && MatchEnd(t, i) < |t| && IsSpace(t[MatchEnd(t, i)])
  }

  predicate OpensSentence(u: Unicode, c: char) { u.isUpper(c) || u.isNumber(c) || IsOpener(c) }

  // Whitespace at `k`, then a character that may open a sentence.
  predicate OpensAt(u: Unicode, t: string, k: nat)
    requires k <= |t|
  {
    var q := RunEnd(t, k, IsSpace);
    k < q < |t| && OpensSentence(u, t[q])
  }

  function TokenStart(t: string, stopAt: nat): (i: nat)
    requires stopAt <= |t|
    ensures i <= stopAt
  {
    if stopAt > 0 && !IsSpace(t[stopAt - 1]) then TokenStart(t, stopAt - 1) else stopAt
  }

  function TokenBefore(t: string, stopAt: nat): string
    requires stopAt <= |t|
  {
    var token := t[TokenStart(t, stopAt)..stopAt];
    token[RunEnd(token, 0, IsOpener)..]
  }

  predicate IsAbbreviation(u: Unicode, t: string, stopAt: nat)
    requires stopAt <= |t|
  {
    var token := TokenBefore(t, stopAt);
    token in ABBREVIATIONS || (|token| == 1 && u.isUpper(token[0]))
  }

  // Only a lone full stop can be an abbreviation's.
  predicate EndsSentence(u: Unicode, t: string, i: nat) {
    && IsBoundary(t, i)
    && OpensAt(u, t, MatchEnd(t, i))
    && !(t[i] == '.' && t[i + 1] != '.' && IsAbbreviation(u, t, i))
  }

  // ---------- segmentation ----------

  // Where sentences end, for boundaries starting at `i` or later.
  function EndsFrom(u: Unicode, t: string, i: nat): (ends: seq<nat>)
    ensures forall k :: 0 <= k < |ends| ==> i < ends[k] < |t|
    decreases |t| - i
  {
    if i >= |t| then []
    else if EndsSentence(u, t, i) then [MatchEnd(t, i)] + EndsFrom(u, t, i + 1)
    else EndsFrom(u, t, i + 1)
  }

  predicate Increasing(ends: seq<nat>) {
    forall j, k :: 0 <= j < k < |ends| ==> ends[j] < ends[k]
  }

  // Cut positions inside the text, in order.
  predicate Cuttable(t: string, ends: seq<nat>) {
    Increasing(ends) && forall k :: 0 <= k < |ends| ==> 0 < ends[k] < |t|
  }

  function From(ends: seq<nat>, k: nat): nat
    requires k <= |ends|
  {
    if k == 0 then 0 else ends[k - 1]
  }

  function To(t: string, ends: seq<nat>, k: nat): nat
    requires k <= |ends|
  {
    if k == |ends| then |t| else ends[k]
  }

  function Piece(t: string, ends: seq<nat>, k: nat): string
    requires k <= |ends| && Cuttable(t, ends)
  {
    Trim(t[From(ends, k)..To(t, ends, k)])
  }

  function Before(t: string, ends: seq<nat>, n: nat): seq<string>
    requires Cuttable(t, ends) && n <= |ends|
  {
    seq(n, k requires 0 <= k < n => Piece(t, ends, k))
  }

  // The trimmed pieces between cuts; what follows the last cut only if something is left of it.
  function Pieces(t: string, ends: seq<nat>): seq<string>
    requires Cuttable(t, ends)
  {
    Before(t, ends, |ends|) + if Piece(t, ends, |ends|) == [] then [] else [Piece(t, ends, |ends|)]
  }

  function SegmentSentences(u: Unicode, text: string): seq<string> {
    var t := NormalizeText(u, text);
    if t == [] then []
    else
      EndsIncrease(u, t, 0);
      Pieces(t, EndsFrom(u, t, 0))
  }

  // No boundary starts inside another boundary's match.
  lemma NoStartInside(t: string, i: nat, j: nat)
    requires RunStart(t, i) && i < j < MatchEnd(t, i)
    ensures !RunStart(t, j)
  {
    var m := RunEnd(t, i, IsTerminator);
    if j >= m { assert IsCloser(t[j]); }
  }

  lemma {:induction false} SkipMatch(u: Unicode, t: string, i: nat, j: nat)
    requires RunStart(t, i) && i < j <= MatchEnd(t, i)
    ensures EndsFrom(u, t, j) == EndsFrom(u, t, MatchEnd(t, i))
    decreases MatchEnd(t, i) - j
  {
    if j < MatchEnd(t, i) {
      NoStartInside(t, i, j);
      SkipMatch(u, t, i, j + 1);
    }
  }

  lemma {:induction false} EndsIncrease(u: Unicode, t: string, i: nat)
    ensures Increasing(EndsFrom(u, t, i))
    decreases |t| - i
  {
    if i < |t| {
      EndsIncrease(u, t, i + 1);
      EndsStep(u, t, i);
      if EndsSentence(u, t, i) { IncreasingCons(MatchEnd(t, i), EndsFrom(u, t, MatchEnd(t, i))); }
    }
  }

  lemma IncreasingCons(end: nat, later: seq<nat>)
    requires Increasing(later) && forall k :: 0 <= k < |later| ==> end < later[k]
    ensures Increasing([end] + later)
  {
  }

  // One step of the scan: past a character, or past a whole match.
  lemma EndsStep(u: Unicode, t: string, i: nat)
    requires i < |t|
    ensures !IsBoundary(t, i) ==> EndsFrom(u, t, i) == EndsFrom(u, t, i + 1)
    ensures IsBoundary(t, i) ==> EndsFrom(u, t, i + 1) == EndsFrom(u, t, MatchEnd(t, i))
    ensures EndsSentence(u, t, i) ==> EndsFrom(u, t, i) == [MatchEnd(t, i)] + EndsFrom(u, t, MatchEnd(t, i))
    ensures IsBoundary(t, i) && !EndsSentence(u, t, i) ==> EndsFrom(u, t, i) == EndsFrom(u, t, MatchEnd(t, i))
  {
    if IsBoundary(t, i) { SkipMatch(u, t, i, i + 1); }
  }

  method TokenBeforeLoop(t: string, stopAt: nat) returns (token: string)
    requires stopAt <= |t|
    ensures token == TokenBefore(t, stopAt)
  {
    var i := stopAt;
    while i > 0 && !IsSpace(t[i - 1])
      invariant 0 <= i <= stopAt && TokenStart(t, stopAt) == TokenStart(t, i)
    {
      i := i - 1;
    }
    var slice := t[i..stopAt];
    token := slice[RunEnd(slice, 0, IsOpener)..];
  }

  method CheckBoundary(u: Unicode, t: string, i: nat) returns (ends: bool)
    requires IsBoundary(t, i)
    ensures ends == EndsSentence(u, t, i)
  {
    var end := MatchEnd(t, i);
    if !OpensAt(u, t, end) { return false; }
    if t[i] == '.' && t[i + 1] != '.' {
      var token := TokenBeforeLoop(t, i);
      if token in ABBREVIATIONS || (|token| == 1 && u.isUpper(token[0])) { return false; }
    }
    return true;
  }

  lemma Advance(t: string, ends: seq<nat>, n: nat, end: nat, later: seq<nat>)
    requires Cuttable(t, ends) && n <= |ends| && ends[n..] == [end] + later
    ensures n < |ends| && ends[n] == end && ends[n + 1..] == later
    ensures Before(t, ends, n) + [Piece(t, ends, n)] == Before(t, ends, n + 1)
  {
    assert ends[n..][0] == end && ends[n..][1..] == later;
  }

  method SegmentLoop(u: Unicode, text: string) returns (out: seq<string>)
    ensures out == SegmentSentences(u, text)
  {
    var t := NormalizeText(u, text);
    if t == [] { return []; }
    EndsIncrease(u, t, 0);
    out := CutAtEnds(u, t, EndsFrom(u, t, 0));
  }

  // The source's loop over the matches of the boundary pattern, accumulating `out` and `start`.
  method CutAtEnds(u: Unicode, t: string, ghost ends: seq<nat>) returns (out: seq<string>)
    requires Cuttable(t, ends) && ends == EndsFrom(u, t, 0)
    ensures out == Pieces(t, ends)
  {
    out := [];
    var start, i := 0, 0;
    ghost var n := 0;
    while i < |t|
      invariant 0 <= start <= i <= |t| && n <= |ends|
      invariant ends[n..] == EndsFrom(u, t, i)
      invariant start == From(ends, n) && out == Before(t, ends, n)
      decreases |t| - i
    {
      EndsStep(u, t, i);
      if IsBoundary(t, i) {
        var end := MatchEnd(t, i);
        var cut := CheckBoundary(u, t, i);
        if cut {
          Advance(t, ends, n, end, EndsFrom(u, t, end));
          out, start, n := out + [Trim(t[start..end])], end, n + 1;
        }
        i := end;
      } else {
        i := i + 1;
      }
    }
    out := Finish(t, ends, out, start);
  }

  method Finish(t: string, ghost ends: seq<nat>, before: seq<string>, start: nat) returns (out: seq<string>)
    requires Cuttable(t, ends) && before == Before(t, ends, |ends|) && start == From(ends, |ends|)
    ensures out == Pieces(t, ends)
  {
    assert start <= |t| && t[start..|t|] == t[start..];
    var rest := Trim(t[start..]);
    out := if |rest| > 0 then before + [rest] else before;
  }

  // ---------- what the parties rely on ----------

  lemma {:induction false} CollapseSpaces(s: string)
    ensures Spaced(Collapse(s))
    ensures s != [] && !IsCollapsible(s[0]) ==> Collapse(s) != [] && Collapse(s)[0] == s[0]
    decreases |s|
  {
    if s != [] {
      var rest := if IsCollapsible(s[0]) then DropRun(s[1..]) else s[1..];
      CollapseSpaces(rest);
      if IsCollapsible(s[0]) { DropRunStops(s[1..]); }
    }
  }

  lemma {:induction false} DropRunStops(s: string)
    ensures DropRun(s) == [] || !IsCollapsible(DropRun(s)[0])
  {
    if s != [] && IsCollapsible(s[0]) { DropRunStops(s[1..]); }
  }

  lemma {:induction false} CollapseKeepsSpaced(t: string)
    requires Spaced(t)
    ensures Collapse(t) == t
  {
    if t != [] {
      CollapseKeepsSpaced(t[1..]);
      if IsCollapsible(t[0]) {
        assert t[0] == ' ';
        assert |t| > 1 ==> !(t[1 - 1] == ' ' && t[1] == ' ');
      }
    }
  }

  lemma {:induction false} TrimLeftSpaced(s: string)
    requires Spaced(s)
    ensures Spaced(TrimLeft(s))
    ensures TrimLeft(s) == [] || !IsSpace(TrimLeft(s)[0])
  {
    if s != [] && IsSpace(s[0]) { TrimLeftSpaced(s[1..]); }
  }

  lemma {:induction false} TrimRightSpaced(s: string)
    requires Spaced(s) && (s == [] || !IsSpace(s[0]))
    ensures Normal(TrimRight(s))
  {
    if s != [] && IsSpace(s[|s| - 1]) { TrimRightSpaced(s[..|s| - 1]); }
  }

  lemma NormalizeIsNormal(u: Unicode, s: string)
    ensures Normal(NormalizeText(u, s))
  {
    CollapseSpaces(u.nfc(s));
    TrimLeftSpaced(Collapse(u.nfc(s)));
    TrimRightSpaced(TrimLeft(Collapse(u.nfc(s))));
  }

  // A cut may fall at `k`: a space between two words.
  predicate AtGap(t: string, k: nat) { 0 < k < |t| - 1 && t[k] == ' ' }

  // Where the text of a sentence that starts at cut `start` begins.
  function Lead(start: nat): nat { if start == 0 then 0 else start + 1 }

  lemma GapPiece(t: string, start: nat, end: nat)
    requires Normal(t) && (start == 0 || AtGap(t, start))
    requires start < end <= |t| && Lead(start) < end && !IsSpace(t[end - 1])
    ensures Trim(t[start..end]) == t[Lead(start)..end] && Trimmed(t[Lead(start)..end])
  {
    if start > 0 {
      assert t[start] == ' ' && !IsCollapsible(t[start + 1]);
      assert t[start..end][1..] == t[start + 1..end];
    }
    TrimOfTrimmed(t[Lead(start)..end]);
    assert !IsSpace(t[Lead(start)]);
    assert TrimLeft(t[start..end]) == t[Lead(start)..end];
  }

  lemma MatchEndIsGap(t: string, i: nat)
    requires Normal(t) && IsBoundary(t, i)
    ensures AtGap(t, MatchEnd(t, i)) && !IsSpace(t[MatchEnd(t, i) - 1])
  {
    var m := RunEnd(t, i, IsTerminator);
    var k := MatchEnd(t, i);
    assert IsTerminator(t[k - 1]) || IsCloser(t[k - 1]);
    assert IsCollapsible(t[k]);
  }

  // Every cut of `ends` falls on a gap right after a word.
  predicate OnGaps(t: string, ends: seq<nat>) {
    Cuttable(t, ends) && forall k :: 0 <= k < |ends| ==> AtGap(t, ends[k]) && !IsSpace(t[ends[k] - 1])
  }

  lemma {:induction false} EndsOnGaps(u: Unicode, t: string, i: nat)
    requires Normal(t)
    ensures OnGaps(t, EndsFrom(u, t, i))
    decreases |t| - i
  {
    if i < |t| {
      EndsOnGaps(u, t, i + 1);
      EndsIncrease(u, t, i);
      if EndsSentence(u, t, i) { MatchEndIsGap(t, i); }
    }
  }

  // A piece is the text from its first word up to the next cut.
  lemma PieceIs(t: string, ends: seq<nat>, k: nat)
    requires Normal(t) && t != [] && OnGaps(t, ends) && k <= |ends|
    ensures Lead(From(ends, k)) < To(t, ends, k) <= |t|
    ensures Piece(t, ends, k) == t[Lead(From(ends, k))..To(t, ends, k)] && Trimmed(Piece(t, ends, k))
  {
    var start, end := From(ends, k), To(t, ends, k);
    assert start > 0 ==> AtGap(t, start);
    assert !IsSpace(t[end - 1]);
    GapPiece(t, start, end);
  }

  // The sentences are the words between consecutive cuts.
  ghost predicate Laid(out: seq<string>, t: string, ends: seq<nat>) {
    && OnGaps(t, ends) && |out| == |ends| + 1
    && forall k :: 0 <= k <= |ends| ==>
         && Lead(From(ends, k)) < To(t, ends, k) <= |t|
         && out[k] == t[Lead(From(ends, k))..To(t, ends, k)] && Trimmed(out[k])
  }

  lemma PiecesAre(t: string, ends: seq<nat>)
    requires Normal(t) && t != [] && OnGaps(t, ends)
    ensures Laid(Pieces(t, ends), t, ends)
  {
    forall k | 0 <= k <= |ends|
      ensures Lead(From(ends, k)) < To(t, ends, k) <= |t|
      ensures Piece(t, ends, k) == t[Lead(From(ends, k))..To(t, ends, k)] && Trimmed(Piece(t, ends, k))
    {
      PieceIs(t, ends, k);
    }
  }

  lemma JoinCons(out: seq<string>, t: string, from: nat, end: nat)
    requires |out| > 1 && from <= end < |t| && t[end] == ' '
    requires out[0] == t[from..end] && Join(out[1..], " ") == t[end + 1..]
    ensures Join(out, " ") == t[from..]
  {
    assert t[from..] == t[from..end] + " " + t[end + 1..];
  }

  lemma {:induction false} LaidJoins(out: seq<string>, t: string, ends: seq<nat>, k: nat)
    requires Laid(out, t, ends) && k <= |ends|
    ensures Lead(From(ends, k)) <= |t|
    ensures Join(out[k..], " ") == t[Lead(From(ends, k))..]
    decreases |ends| - k
  {
    if k == |ends| {
      assert out[k..] == [out[k]];
    } else {
      LaidJoins(out, t, ends, k + 1);
      assert out[k..][1..] == out[k + 1..];
      assert AtGap(t, ends[k]);
      JoinCons(out[k..], t, Lead(From(ends, k)), ends[k]);
    }
  }

  // Joining the sentences with single spaces gives back the normalized text; no sentence is empty or
  // has outer whitespace.
  lemma SegmentationIsLossless(u: Unicode, text: string)
    ensures var out := SegmentSentences(u, text);
            && Join(out, " ") == NormalizeText(u, text)
            && forall k :: 0 <= k < |out| ==> out[k] != [] && Trimmed(out[k])
  {
    var t := NormalizeText(u, text);
    NormalizeIsNormal(u, text);
    if t != [] {
      EndsOnGaps(u, t, 0);
      var ends := EndsFrom(u, t, 0);
      PiecesAre(t, ends);
      LaidJoins(Pieces(t, ends), t, ends, 0);
      assert t[0..] == t && Pieces(t, ends)[0..] == Pieces(t, ends);
    }
  }

  // Normalizing again changes nothing, given that NFC leaves collapsed NFC text alone.
  ghost predicate NfcStable(u: Unicode) {
    forall s: string {:trigger u.nfc(s)} :: u.nfc(Trim(Collapse(u.nfc(s)))) == Trim(Collapse(u.nfc(s)))
  }

  lemma NormalizeIsIdempotent(u: Unicode, text: string)
    requires NfcStable(u)
    ensures NormalizeText(u, NormalizeText(u, text)) == NormalizeText(u, text)
  {
    var t := NormalizeText(u, text);
    assert u.nfc(t) == t;
    NormalizeIsNormal(u, text);
    CollapseKeepsSpaced(t);
    TrimOfTrimmed(t);
  }

  // Two parties who hold the joined sentences, rather than the original text, derive the same list.
  lemma SegmentationIsStable(u: Unicode, text: string)
    requires NfcStable(u)
    ensures SegmentSentences(u, Join(SegmentSentences(u, text), " ")) == SegmentSentences(u, text)
  {
    SegmentationIsLossless(u, text);
    NormalizeIsIdempotent(u, text);
  }

  // ---------- where the cuts fall ----------

  // The positions of the joining spaces, for sentences laid out from `pos` on.
  function Cuts(sentences: seq<string>, pos: nat): set<nat> {
    if |sentences| <= 1 then {}
    else {pos + |sentences[0]|} + Cuts(sentences[1..], pos + |sentences[0]| + 1)
  }

  lemma {:induction false} LaidCuts(out: seq<string>, t: string, ends: seq<nat>, m: nat, k: nat)
    requires Laid(out, t, ends) && m <= |ends|
    ensures k in Cuts(out[m..], Lead(From(ends, m))) <==> k in ends[m..]
    decreases |ends| - m
  {
    if m < |ends| {
      LaidCuts(out, t, ends, m + 1, k);
      assert out[m..][1..] == out[m + 1..];
      assert ends[m..] == [ends[m]] + ends[m + 1..];
    }
  }

  lemma {:induction false} EndsAreBoundaries(u: Unicode, t: string, i: nat, k: nat)
    ensures k in EndsFrom(u, t, i) <==> EndsAt(u, t, i, k)
    decreases |t| - i
  {
    if i < |t| {
      EndsAreBoundaries(u, t, i + 1, k);
      EndsAtStep(u, t, i, k);
    }
  }

  // Some boundary that ends a sentence starts at `i` or later and ends at `k`.
  ghost predicate EndsAt(u: Unicode, t: string, i: nat, k: nat) {
    exists j :: i <= j && EndsSentence(u, t, j) && MatchEnd(t, j) == k
  }

  lemma EndsAtStep(u: Unicode, t: string, i: nat, k: nat)
    ensures EndsAt(u, t, i, k) <==> (EndsSentence(u, t, i) && MatchEnd(t, i) == k) || EndsAt(u, t, i + 1, k)
  {
    if EndsAt(u, t, i, k) {
      var j :| i <= j && EndsSentence(u, t, j) && MatchEnd(t, j) == k;
      assert j == i || i + 1 <= j;
    }
  }

  // The text is cut exactly at the boundaries the rules name: after a terminator run and its
  // closers, before whitespace and a possible opener, and not after an abbreviation's full stop.
  lemma CutsAreExact(u: Unicode, text: string, k: nat)
    ensures k in Cuts(SegmentSentences(u, text), 0) <==> EndsAt(u, NormalizeText(u, text), 0, k)
  {
    var t := NormalizeText(u, text);
    NormalizeIsNormal(u, text);
    if t != [] {
      var ends := EndsFrom(u, t, 0);
      EndsOnGaps(u, t, 0);
      PiecesAre(t, ends);
      LaidCuts(Pieces(t, ends), t, ends, 0, k);
      EndsAreBoundaries(u, t, 0, k);
      assert Pieces(t, ends)[0..] == Pieces(t, ends) && ends[0..] == ends;
    }
  }

  // ---------- the words of a text ----------

  // Where the first collapsible character is, or the end.
  function WordEnd(s: string): (k: nat)
    ensures k <= |s|
    ensures forall j :: 0 <= j < k ==> !IsCollapsible(s[j])
    ensures k < |s| ==> IsCollapsible(s[k])
  {
    if s == [] || IsCollapsible(s[0]) then 0 else 1 + WordEnd(s[1..])
  }

  // The pieces between collapsible characters, the empty ones left out.
  function Words(s: string): seq<string>
    decreases |s|
  {
    if s == [] then []
    else
      var k := WordEnd(s);
      (if k == 0 then [] else [s[..k]]) + if k < |s| then Words(s[k + 1..]) else []
  }

  function Spaces(at: bool): string { if at then " " else "" }

  lemma {:induction false} DropRunKeepsWords(s: string)
    ensures Words(DropRun(s)) == Words(s)
    ensures DropRun(s) == [] || (!IsCollapsible(DropRun(s)[0]) && DropRun(s)[|DropRun(s)| - 1] == s[|s| - 1])
    ensures DropRun(s) == [] ==> s == [] || IsCollapsible(s[|s| - 1])
  {
    hide Words;
    if s != [] && IsCollapsible(s[0]) {
      LeadingRun(s);
      DropRunKeepsWords(s[1..]);
    }
  }

  lemma {:induction false} CollapseKeepsWord(s: string, k: nat)
    requires k <= |s| && forall j :: 0 <= j < k ==> !IsCollapsible(s[j])
    ensures Collapse(s) == s[..k] + Collapse(s[k..])
  {
    if k == 0 {
      assert s[..0] + Collapse(s[0..]) == Collapse(s);
    } else {
      CollapseKeepsWord(s[1..], k - 1);
      assert s[1..][k - 1..] == s[k..] && [s[0]] + s[1..][..k - 1] == s[..k];
    }
  }

  lemma JoinMore(word: string, more: seq<string>)
    ensures Join([word] + more, " ") == if more == [] then word else word + " " + Join(more, " ")
  {
    assert ([word] + more)[1..] == more;
  }

  // Text that starts with a word collapses to its words with single spaces between, and one more space if
  // it does not end with one.
  lemma {:induction false} CollapseIsWords(s: string)
    requires s == [] || !IsCollapsible(s[0])
    ensures Collapse(s) == Join(Words(s), " ") + Spaces(s != [] && IsCollapsible(s[|s| - 1]))
    ensures s != [] ==> Words(s) != []
    decreases |s|
  {
    hide Collapse, DropRun, Join, Words, WordEnd;
    NothingCollapses();
    if s != [] {
      var k := WordEnd(s);
      FirstWord(s);
      CollapseKeepsWord(s, k);
      if k < |s| {
        var rest := DropRun(s[k + 1..]);
        assert s[k..][1..] == s[k + 1..];
        OneRunCollapses(s[k..]);
        DropRunKeepsWords(s[k + 1..]);
        CollapseIsWords(rest);
        JoinMore(s[..k], Words(rest));
        TrailIs(s, k, rest);
      } else {
        assert s[k..] == [] && s[..k] == s;
        JoinMore(s, []);
        assert [s] + [] == [s];
      }
    }
  }

  lemma FirstWord(s: string)
    requires s != [] && !IsCollapsible(s[0])
    ensures var k := WordEnd(s);
      k > 0 && Words(s) == [s[..k]] + if k < |s| then Words(s[k + 1..]) else []
  {
  }

  // The words before a run, one space, and what follows it.
  lemma TrailIs(s: string, k: nat, rest: string)
    requires k < |s| && IsCollapsible(s[k])
    requires rest == [] ==> s[k + 1..] == [] || IsCollapsible(s[|s| - 1])
    requires rest != [] ==> s[k + 1..] != [] && rest[|rest| - 1] == s[|s| - 1]
    ensures IsCollapsible(s[|s| - 1]) == (rest == [] || IsCollapsible(rest[|rest| - 1]))
  {
  }

  lemma NothingCollapses()
    ensures Collapse([]) == [] && Words([]) == [] && Join(Words([]), " ") == ""
  {
  }

  lemma OneRunCollapses(s: string)
    requires s != [] && IsCollapsible(s[0])
    ensures Collapse(s) == [' '] + Collapse(DropRun(s[1..]))
  {
  }

  // No word is empty or holds a collapsible character.
  predicate AreWords(words: seq<string>) {
    forall k :: 0 <= k < |words| ==> words[k] != [] && forall c :: c in words[k] ==> !IsCollapsible(c)
  }

  lemma {:induction false} WordsAre(s: string)
    ensures AreWords(Words(s))
    decreases |s|
  {
    if s != [] && WordEnd(s) < |s| { WordsAre(s[WordEnd(s) + 1..]); }
  }

  lemma {:induction false} JoinedIsTrimmed(words: seq<string>)
    requires AreWords(words)
    ensures Trimmed(Join(words, " ")) && (words != [] ==> Join(words, " ") != [])
  {
    if |words| == 1 {
      assert words[0][0] in words[0] && words[0][|words[0]| - 1] in words[0];
    } else if |words| > 1 {
      JoinedIsTrimmed(words[1..]);
      assert words[0][0] in words[0];
    }
  }

  lemma TrimPadded(lead: bool, s: string, trail: bool)
    requires Trimmed(s) && s != []
    ensures Trim(Spaces(lead) + s + Spaces(trail)) == s
  {
    var t := Spaces(lead) + s + Spaces(trail);
    if lead { assert t[1..] == s + Spaces(trail); }
    assert TrimLeft(s + Spaces(trail)) == s + Spaces(trail);
    assert TrimLeft(t) == s + Spaces(trail) by { if !lead { assert t == s + Spaces(trail); } }
    if trail { assert (s + Spaces(trail))[..|s|] == s; } else { assert s + Spaces(trail) == s; }
    assert TrimRight(s) == s;
  }

  // Normalized text is the words of the text as given, in NFC, with single spaces between them.
  lemma NormalizeIsWords(u: Unicode, s: string)
    ensures NormalizeText(u, s) == Join(Words(u.nfc(s)), " ")
  {
    hide Collapse, DropRun, Join, Words, Trim;
    var t := u.nfc(s);
    NothingCollapses();
    WordsAre(t);
    JoinedIsTrimmed(Words(t));
    if t == [] {
      TrimOfTrimmed([]);
    } else if IsCollapsible(t[0]) {
      var rest := DropRun(t[1..]);
      OneRunCollapses(t);
      DropRunKeepsWords(t[1..]);
      LeadingRun(t);
      CollapseIsWords(rest);
      if rest == [] {
        TrimSpace();
        assert [' '] + [] == [' '];
      } else {
        var trail := IsCollapsible(rest[|rest| - 1]);
        TrimPadded(true, Join(Words(t), " "), trail);
        assert Collapse(t) == Spaces(true) + Join(Words(t), " ") + Spaces(trail);
      }
    } else {
      CollapseIsWords(t);
      var trail := IsCollapsible(t[|t| - 1]);
      TrimPadded(false, Join(Words(t), " "), trail);
      assert Collapse(t) == Spaces(false) + Join(Words(t), " ") + Spaces(trail);
    }
  }

  lemma TrimSpace()
    ensures Trim([' ']) == []
  {
    assert [' '][1..] == [];
  }

  lemma LeadingRun(t: string)
    requires t != [] && IsCollapsible(t[0])
    ensures Words(t) == Words(t[1..])
  {
  }

  // So the sentences together hold exactly the words of the text as given, in order.
  lemma SentencesHoldTheWords(u: Unicode, text: string)
    ensures Join(SegmentSentences(u, text), " ") == Join(Words(u.nfc(text)), " ")
  {
    SegmentationIsLossless(u, text);
    NormalizeIsWords(u, text);
  }

  // ---------- the rule, position by position ----------

  // The characters from `b` to `i` are the word before `i`, those up to `c` the brackets and quotes that
  // open it.
  ghost predicate Word(t: string, b: nat, c: nat, i: nat) {
    && b <= c <= i <= |t|
    && (b == 0 || IsSpace(t[b - 1])) && (forall j :: b <= j < i ==> !IsSpace(t[j]))
    && (forall j :: b <= j < c ==> IsOpener(t[j])) && (c == i || !IsOpener(t[c]))
  }

  // Without those it is a listed abbreviation or one capital letter.
  ghost predicate Abbreviates(u: Unicode, t: string, i: nat) {
    exists b: nat, c: nat :: Word(t, b, c, i) && (t[c..i] in ABBREVIATIONS || (c + 1 == i && u.isUpper(t[c])))
  }

  // From `i` on terminators up to `m`, closers up to `k`, whitespace up to `q`, and there a character that
  // may open a sentence.
  ghost predicate Marks(u: Unicode, t: string, i: nat, m: nat, k: nat, q: nat) {
    && i < m <= k < q < |t|
    && (i == 0 || !IsTerminator(t[i - 1]))
    && (forall j :: i <= j < m ==> IsTerminator(t[j]))
    && (forall j :: m <= j < k ==> IsCloser(t[j]))
    && (forall j :: k <= j < q ==> IsSpace(t[j])) && !IsSpace(t[q])
    && (u.isUpper(t[q]) || u.isNumber(t[q]) || IsOpener(t[q]))
  }

  // A sentence ends at `k`: not after a lone full stop that belongs to an abbreviation.
  ghost predicate SentenceEnd(u: Unicode, t: string, k: nat) {
    exists i: nat, m: nat, q: nat ::
      Marks(u, t, i, m, k, q) && !(t[i] == '.' && t[i + 1] != '.' && Abbreviates(u, t, i))
  }

  lemma {:induction false} RunEndIs(t: string, i: nat, p: char -> bool, k: nat)
    requires i <= k <= |t| && (forall j :: i <= j < k ==> p(t[j])) && (k < |t| ==> !p(t[k]))
    ensures RunEnd(t, i, p) == k
    decreases k - i
  {
    if i < k { RunEndIs(t, i + 1, p, k); }
  }

  lemma {:induction false} TokenStartIs(t: string, i: nat, b: nat)
    requires b <= i <= |t| && (b == 0 || IsSpace(t[b - 1])) && forall j :: b <= j < i ==> !IsSpace(t[j])
    ensures TokenStart(t, i) == b
    decreases i
  {
    if b < i { TokenStartIs(t, i - 1, b); }
  }

  lemma {:induction false} TokenStartStops(t: string, i: nat)
    requires i <= |t|
    ensures var b := TokenStart(t, i);
      b <= i && (b == 0 || IsSpace(t[b - 1])) && forall j :: b <= j < i ==> !IsSpace(t[j])
    decreases i
  {
    if i > 0 && !IsSpace(t[i - 1]) { TokenStartStops(t, i - 1); }
  }

  // The word before `i` without what opens it is the token the segmenter looks up.
  lemma TokenIsWord(t: string, b: nat, c: nat, i: nat)
    requires Word(t, b, c, i)
    ensures TokenBefore(t, i) == t[c..i]
  {
    TokenStartIs(t, i, b);
    var token := t[b..i];
    RunEndIs(token, 0, IsOpener, c - b);
    assert token[c - b..] == t[c..i];
  }

  lemma WordBefore(t: string, i: nat) returns (b: nat, c: nat)
    requires i <= |t|
    ensures Word(t, b, c, i)
  {
    hide TokenStart;
    b := TokenStart(t, i);
    TokenStartStops(t, i);
    var token := t[b..i];
    var n := RunEnd(token, 0, IsOpener);
    c := b + n;
    forall j | b <= j < c ensures IsOpener(t[j]) { assert token[j - b] == t[j]; }
    assert n < |token| ==> token[n] == t[c];
  }

  lemma AbbreviatesIs(u: Unicode, t: string, i: nat)
    requires i <= |t|
    ensures Abbreviates(u, t, i) <==> IsAbbreviation(u, t, i)
  {
    hide TokenBefore, IsSpace, IsOpener, TokenStart, RunEnd;
    var b, c := WordBefore(t, i);
    TokenIsWord(t, b, c, i);
    if b': nat, c': nat :|
      Word(t, b', c', i) && (t[c'..i] in ABBREVIATIONS || (c' + 1 == i && u.isUpper(t[c'])))
    {
      TokenIsWord(t, b', c', i);
    }
  }

  lemma MarksMatch(u: Unicode, t: string, i: nat, m: nat, k: nat, q: nat)
    requires Marks(u, t, i, m, k, q)
    ensures IsBoundary(t, i) && MatchEnd(t, i) == k && OpensAt(u, t, k)
  {
    RunEndIs(t, i, IsTerminator, m);
    RunEndIs(t, m, IsCloser, k);
    RunEndIs(t, k, IsSpace, q);
  }

  lemma MatchMarks(u: Unicode, t: string, i: nat)
    requires IsBoundary(t, i) && OpensAt(u, t, MatchEnd(t, i))
    ensures Marks(u, t, i, RunEnd(t, i, IsTerminator), MatchEnd(t, i), RunEnd(t, MatchEnd(t, i), IsSpace))
  {
  }

  lemma SentenceEndIs(u: Unicode, t: string, k: nat)
    ensures SentenceEnd(u, t, k) <==> EndsAt(u, t, 0, k)
  {
    hide Abbreviates, IsAbbreviation, OpensAt, MatchEnd;
    if SentenceEnd(u, t, k) {
      var i: nat, m: nat, q: nat :|
        Marks(u, t, i, m, k, q) && !(t[i] == '.' && t[i + 1] != '.' && Abbreviates(u, t, i));
      MarksMatch(u, t, i, m, k, q);
      AbbreviatesIs(u, t, i);
      assert EndsSentence(u, t, i);
    }
    if EndsAt(u, t, 0, k) {
      var i: nat :| EndsSentence(u, t, i) && MatchEnd(t, i) == k;
      MatchMarks(u, t, i);
      AbbreviatesIs(u, t, i);
    }
  }

  // The text is cut at exactly those positions.
  lemma CutsAreSentenceEnds(u: Unicode, text: string, k: nat)
    ensures k in Cuts(SegmentSentences(u, text), 0) <==> SentenceEnd(u, NormalizeText(u, text), k)
  {
    CutsAreExact(u, text, k);
    SentenceEndIs(u, NormalizeText(u, text), k);
  }
}
