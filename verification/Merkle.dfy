// Quote proofs: a Merkle tree over sentence leaves with odd-node promotion, and the loop verifier
// that replays the tree's shape from (index, count) alone.
//
// SHA-256 is taken to be injective and domain-separated: one constructor per domain tag, and
// `Other` for the 64-digit hex strings that are the digest of nothing in this protocol.
module Merkle {
  import opened Wrappers

  datatype Digest =
    | LeafDigest(index: nat, sentence: string)
    | NodeDigest(left: Digest, right: Digest)
    | RootDigest(count: nat, top: Digest)
    | Other(id: nat)

  // What a verifier is handed: a string that is 64 lowercase hex digits, or one that is not.
  datatype Wire = Hex(digest: Digest) | Malformed(text: string)

  datatype TreeError = NoLeaves | IndexOutOfRange | CountOutOfRange

  const U32_MAX: nat := 0xffff_ffff

  function LeafHash(index: int, sentence: string): Result<Digest, TreeError> {
    if 0 <= index <= U32_MAX then Ok(LeafDigest(index, sentence)) else Err(IndexOutOfRange)
  }

  // ---------- the tree, level by level ----------

  function NextLevel(level: seq<Digest>): (next: seq<Digest>)
    ensures |next| == (|level| + 1) / 2
  {
    seq((|level| + 1) / 2, i requires 0 <= i < (|level| + 1) / 2 =>
      if 2 * i + 1 < |level| then NodeDigest(level[2 * i], level[2 * i + 1]) else level[2 * i])
  }

  function LevelsFrom(level: seq<Digest>): seq<seq<Digest>>
    requires |level| > 0
    decreases |level|
  {
    [level] + if |level| == 1 then [] else LevelsFrom(NextLevel(level))
  }

  function Top(level: seq<Digest>): Digest
    requires |level| > 0
    decreases |level|
  {
    if |level| == 1 then level[0] else Top(NextLevel(level))
  }

  function Sibling(i: nat): nat {
    if i % 2 == 1 then i - 1 else i + 1
  }

  // What one level contributes to a proof: the sibling, or nothing for a promoted node.
  function ProofStep(level: seq<Digest>, i: nat): seq<Digest> {
    if Sibling(i) < |level| then [level[Sibling(i)]] else []
  }

  function ProofFrom(level: seq<Digest>, i: nat): seq<Digest>
    requires i < |level|
    decreases |level|
  {
    if |level| == 1 then []
    else ProofStep(level, i) + ProofFrom(NextLevel(level), i / 2)
  }

  function Root(leaves: seq<Digest>): Result<Digest, TreeError> {
    if |leaves| == 0 then Err(NoLeaves)
    else if |leaves| > U32_MAX then Err(CountOutOfRange)
    else Ok(RootDigest(|leaves|, Top(leaves)))
  }

  // ---------- the verifier's replay ----------

  // The top a proof leads to from node `h` at position `i` of `n`; None when the proof is too short
  // or too long for that shape.
  function Replay(h: Digest, i: nat, n: nat, proof: seq<Digest>): Option<Digest>
    requires i < n
    decreases n
  {
    if n == 1 then
      if proof == [] then Some(h) else None
    else if i % 2 == 1 then
      if proof == [] then None else Replay(NodeDigest(proof[0], h), i / 2, (n + 1) / 2, proof[1..])
    else if i + 1 < n then
      if proof == [] then None else Replay(NodeDigest(h, proof[0]), i / 2, (n + 1) / 2, proof[1..])
    else
      Replay(h, i / 2, (n + 1) / 2, proof)
  }

  predicate WellFormed(proof: seq<Wire>) {
    forall k :: 0 <= k < |proof| ==> proof[k].Hex?
  }

  function Digests(proof: seq<Wire>): seq<Digest>
    requires WellFormed(proof)
  {
    seq(|proof|, k requires 0 <= k < |proof| => proof[k].digest)
  }

  function Encode(proof: seq<Digest>): seq<Wire> {
    seq(|proof|, k requires 0 <= k < |proof| => Hex(proof[k]))
  }

  predicate Verify(root: Wire, index: int, count: int, sentence: string, proof: seq<Wire>) {
    && 1 <= count <= U32_MAX
    && 0 <= index < count
    && root.Hex? && WellFormed(proof)
    && match Replay(LeafDigest(index, sentence), index, count, Digests(proof))
       case None => false
       case Some(top) => root.digest == RootDigest(count, top)
  }

  // ---------- the source's loops, against those functions ----------

  method PairUp(cur: seq<Digest>) returns (next: seq<Digest>)
    ensures next == NextLevel(cur)
  {
    next := [];
    var i := 0;
    while i < |cur|
      invariant 0 <= i <= |cur| + 1 && i % 2 == 0 && |next| == i / 2
      invariant forall k :: 0 <= k < |next| ==> next[k] == NextLevel(cur)[k]
    {
      next := next + [if i + 1 < |cur| then NodeDigest(cur[i], cur[i + 1]) else cur[i]];
      i := i + 2;
    }
  }

  method Levels(leaves: seq<Digest>) returns (r: Result<seq<seq<Digest>>, TreeError>)
    ensures |leaves| == 0 ==> r == Err(NoLeaves)
    ensures |leaves| > 0 ==> r == Ok(LevelsFrom(leaves))
  {
    if |leaves| == 0 { return Err(NoLeaves); }
    var out, cur := [leaves], leaves;
    while |cur| > 1
      invariant |out| > 0 && |cur| > 0 && out[|out| - 1] == cur
      invariant LevelsFrom(leaves) == out[..|out| - 1] + LevelsFrom(cur)
      decreases |cur|
    {
      var next := PairUp(cur);
      Extend(out, cur, next);
      out, cur := out + [next], next;
    }
    Extend(out, cur, cur);
    return Ok(out);
  }

  lemma Extend(out: seq<seq<Digest>>, cur: seq<Digest>, next: seq<Digest>)
    requires |out| > 0 && |cur| > 0 && out[|out| - 1] == cur
    requires |cur| > 1 ==> next == NextLevel(cur)
    ensures |cur| > 1 ==> out[..|out| - 1] + LevelsFrom(cur) == (out + [next])[..|out|] + LevelsFrom(next)
    ensures |cur| == 1 ==> out[..|out| - 1] + LevelsFrom(cur) == out
  {
    assert out == out[..|out| - 1] + [cur];
    if |cur| > 1 {
      assert LevelsFrom(cur) == [cur] + LevelsFrom(next);
      assert (out + [next])[..|out|] == out;
    }
  }

  method MerkleRoot(leaves: seq<Digest>) returns (r: Result<Digest, TreeError>)
    ensures r == Root(leaves)
  {
    var ls := Levels(leaves);
    if ls.Err? { return Err(ls.error); }
    LastLevelIsTop(leaves);
    var top := ls.value[|ls.value| - 1][0];
    if |leaves| > U32_MAX { return Err(CountOutOfRange); }
    return Ok(RootDigest(|leaves|, top));
  }

  lemma {:induction false} LastLevelIsTop(leaves: seq<Digest>)
    requires |leaves| > 0
    ensures var ls := LevelsFrom(leaves);
            |ls| > 0 && ls[|ls| - 1] == [Top(leaves)]
    decreases |leaves|
  {
    if |leaves| > 1 { LastLevelIsTop(NextLevel(leaves)); }
  }

  // Walking a list of levels: the suffix at `l` starts with its own level and continues with the next.
  lemma LevelStep(level: seq<Digest>, ls: seq<seq<Digest>>, l: nat)
    requires |level| > 0 && l < |ls| && ls[l..] == LevelsFrom(level)
    ensures ls[l] == level
    ensures l + 1 < |ls| <==> |level| > 1
    ensures |level| > 1 ==> ls[l + 1..] == LevelsFrom(NextLevel(level)) && ls[l + 1] == NextLevel(level)
  {
    assert ls[l] == ls[l..][0];
    if |level| > 1 {
      assert ls[l + 1..] == ls[l..][1..] == LevelsFrom(NextLevel(level));
      assert ls[l + 1] == ls[l + 1..][0];
    }
  }

  method InclusionProof(leaves: seq<Digest>, index: int) returns (r: Result<seq<Digest>, TreeError>)
    ensures !(0 <= index < |leaves|) ==> r == Err(IndexOutOfRange)
    ensures 0 <= index < |leaves| ==> r == Ok(ProofFrom(leaves, index))
  {
    if index < 0 || index >= |leaves| { return Err(IndexOutOfRange); }
    var built := Levels(leaves);
    var ls := built.value;
    var proof, i, l := [], index, 0;
    LevelStep(leaves, ls, 0);
    while l < |ls| - 1
      invariant 0 <= l < |ls| && 0 <= i < |ls[l]|
      invariant ls[l..] == LevelsFrom(ls[l])
      invariant proof + ProofFrom(ls[l], i) == ProofFrom(leaves, index)
    {
      var cur := ls[l];
      LevelStep(cur, ls, l);
      ClimbProof(proof, cur, i);
      var sibling := if i % 2 == 1 then i - 1 else i + 1;
      proof := if sibling < |cur| then proof + [cur[sibling]] else proof;
      i, l := i / 2, l + 1;
    }
    LevelStep(ls[l], ls, l);
    assert proof + [] == proof;
    return Ok(proof);
  }

  lemma ClimbProof(sofar: seq<Digest>, level: seq<Digest>, i: nat)
    requires i < |level| && |level| > 1
    ensures i / 2 < |NextLevel(level)|
    ensures sofar + ProofFrom(level, i) == (sofar + ProofStep(level, i)) + ProofFrom(NextLevel(level), i / 2)
    ensures Sibling(i) >= |level| ==> sofar + ProofStep(level, i) == sofar
  {
    var step, rest := ProofStep(level, i), ProofFrom(NextLevel(level), i / 2);
    assert sofar + (step + rest) == (sofar + step) + rest;
  }

  method VerifyInclusion(root: Wire, index: int, count: int, sentence: string, proof: seq<Wire>)
    returns (ok: bool)
    ensures ok <==> Verify(root, index, count, sentence, proof)
  {
    if count < 1 || count > U32_MAX { return false; }
    if index < 0 || index >= count { return false; }
    if root.Malformed? || exists k :: 0 <= k < |proof| && proof[k].Malformed? { return false; }
    ghost var digests := Digests(proof);
    ghost var target := Replay(LeafDigest(index, sentence), index, count, digests);
    var h, i, n, used := LeafDigest(index, sentence), index, count, 0;
    while n > 1
      invariant 0 <= i < n && 0 <= used <= |proof|
      invariant Replay(h, i, n, digests[used..]) == target
    {
      if i % 2 == 1 {
        if used >= |proof| { return false; }
        h := NodeDigest(proof[used].digest, h);
        used := used + 1;
      } else if i + 1 < n {
        if used >= |proof| { return false; }
        h := NodeDigest(h, proof[used].digest);
        used := used + 1;
      }
      i, n := i / 2, (n + 1) / 2;
    }
    return used == |proof| && root.digest == RootDigest(count, h);
  }

  // ---------- what the tree promises ----------

  // The replay reaches a level's top exactly from that level's own node with that node's own proof.
  lemma {:induction false} ReplayReachesTop(level: seq<Digest>, h: Digest, i: nat, proof: seq<Digest>)
    requires i < |level|
    ensures Replay(h, i, |level|, proof) == Some(Top(level)) <==> h == level[i] && proof == ProofFrom(level, i)
    decreases |level|
  {
    if |level| > 1 {
      NextNode(level, i);
      var next := NextLevel(level);
      if Sibling(i) >= |level| {
        ReplayReachesTop(next, h, i / 2, proof);
      } else if proof != [] {
        var parent := if i % 2 == 1 then NodeDigest(proof[0], h) else NodeDigest(h, proof[0]);
        ReplayReachesTop(next, parent, i / 2, proof[1..]);
        ConsMatches(proof, level[Sibling(i)], ProofFrom(next, i / 2));
      }
    }
  }

  lemma NextNode(level: seq<Digest>, i: nat)
    requires i < |level| && |level| > 1
    ensures Sibling(i) < |level| && i % 2 == 1 ==> NextLevel(level)[i / 2] == NodeDigest(level[Sibling(i)], level[i])
    ensures Sibling(i) < |level| && i % 2 == 0 ==> NextLevel(level)[i / 2] == NodeDigest(level[i], level[Sibling(i)])
    ensures Sibling(i) >= |level| ==> NextLevel(level)[i / 2] == level[i]
  {
  }

  lemma ConsMatches(proof: seq<Digest>, first: Digest, rest: seq<Digest>)
    requires proof != []
    ensures proof == [first] + rest <==> proof[0] == first && proof[1..] == rest
  {
    assert proof == [proof[0]] + proof[1..];
    if proof == [first] + rest { assert proof[1..] == rest; }
  }

  // Complete, sound, bound to position and count, and with exactly one accepted proof.
  lemma InclusionIsExact(leaves: seq<Digest>, index: int, count: int, sentence: string, proof: seq<Wire>)
    requires 1 <= |leaves| <= U32_MAX
    ensures Verify(Hex(Root(leaves).value), index, count, sentence, proof) <==>
            && count == |leaves| && 0 <= index < count
            && LeafHash(index, sentence) == Ok(leaves[index])
            && proof == Encode(ProofFrom(leaves, index))
  {
    if count == |leaves| && 0 <= index < count {
      if WellFormed(proof) {
        ReplayReachesTop(leaves, LeafDigest(index, sentence), index, Digests(proof));
        assert proof == Encode(Digests(proof));
      }
      assert Digests(Encode(ProofFrom(leaves, index))) == ProofFrom(leaves, index);
    }
  }

  // For a published text, the only sentence provable at a position is the one written there.
  lemma OnlyTheWrittenSentence(sentences: seq<string>, index: int, count: int, sentence: string, proof: seq<Wire>)
    requires 1 <= |sentences| <= U32_MAX
    ensures var leaves := seq(|sentences|, k requires 0 <= k < |sentences| => LeafDigest(k, sentences[k]));
            Verify(Hex(Root(leaves).value), index, count, sentence, proof) ==>
              0 <= index < |sentences| && sentences[index] == sentence
  {
    var leaves := seq(|sentences|, k requires 0 <= k < |sentences| => LeafDigest(k, sentences[k]));
    InclusionIsExact(leaves, index, count, sentence, proof);
  }

  lemma {:induction false} TopDeterminesLevel(a: seq<Digest>, b: seq<Digest>)
    requires |a| == |b| > 0 && Top(a) == Top(b)
    ensures a == b
    decreases |a|
  {
    if |a| > 1 {
      var x, y := NextLevel(a), NextLevel(b);
      TopDeterminesLevel(x, y);
      forall k | 0 <= k < |a| ensures a[k] == b[k] {
        assert x[k / 2] == y[k / 2];
      }
    }
  }

  // A root commits to its whole leaf list: no two texts share one.
  lemma RootDeterminesLeaves(a: seq<Digest>, b: seq<Digest>)
    requires Root(a).Ok? && Root(a) == Root(b)
    ensures a == b
  {
    TopDeterminesLevel(a, b);
  }
}
