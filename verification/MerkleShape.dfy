// The shape of the tree without its levels: at every node the left side holds the largest power of two
// of leaves that leaves something for the right.
module MerkleShape {
  import opened Wrappers
  import opened Merkle

  // The largest power of two below n.
  function LeftSize(n: nat): (p: nat)
    requires n > 1
    ensures 0 < p < n <= 2 * p
  {
    if n == 2 then 1 else 2 * LeftSize((n + 1) / 2)
  }

  function PowerOfTwo(k: nat): nat { if k == 0 then 1 else 2 * PowerOfTwo(k - 1) }

  lemma {:induction false} LeftSizeIsPower(n: nat) returns (k: nat)
    requires n > 1
    ensures LeftSize(n) == PowerOfTwo(k)
  {
    if n == 2 {
      k := 0;
    } else {
      var j := LeftSizeIsPower((n + 1) / 2);
      k := j + 1;
    }
  }

  function Tree(leaves: seq<Digest>): Digest
    requires leaves != []
    decreases |leaves|
  {
    if |leaves| == 1 then leaves[0]
    else
      var p := LeftSize(|leaves|);
      NodeDigest(Tree(leaves[..p]), Tree(leaves[p..]))
  }

  // The other side's tree at every node on the way down to leaf i, the nearest first.
  function AuditPath(leaves: seq<Digest>, i: nat): seq<Digest>
    requires i < |leaves|
    decreases |leaves|
  {
    if |leaves| == 1 then []
    else
      var p := LeftSize(|leaves|);
      if i < p then AuditPath(leaves[..p], i) + [Tree(leaves[p..])]
      else AuditPath(leaves[p..], i - p) + [Tree(leaves[..p])]
  }

  // One level up, a cut at an even place is a cut at half of it.
  lemma NextSplits(level: seq<Digest>, p: nat)
    requires p % 2 == 0 && p <= |level|
    ensures NextLevel(level)[..p / 2] == NextLevel(level[..p])
    ensures NextLevel(level)[p / 2..] == NextLevel(level[p..])
  {
  }

  lemma TopUp(level: seq<Digest>)
    requires level != []
    ensures Top(NextLevel(level)) == Top(level)
  {
    if |level| == 1 { assert NextLevel(level) == level; }
  }

  lemma {:induction false} TopSplits(level: seq<Digest>)
    requires |level| > 1
    ensures var p := LeftSize(|level|); Top(level) == NodeDigest(Top(level[..p]), Top(level[p..]))
    decreases |level|
  {
    if |level| == 2 {
      PairTop(level);
    } else {
      hide Top, NextLevel, LeftSize;
      var p := LeftSize(|level|);
      HalfWay(|level|, 0);
      NextSplits(level, p);
      TopSplits(NextLevel(level));
      TopUp(level[..p]);
      TopUp(level[p..]);
    }
  }

  lemma PairTop(level: seq<Digest>)
    requires |level| == 2
    ensures Top(level) == NodeDigest(Top(level[..1]), Top(level[1..]))
  {
    assert NextLevel(level) == [NodeDigest(level[0], level[1])];
    assert level[..1] == [level[0]] && level[1..] == [level[1]];
  }

  // The top the levels lead to is the tree's.
  lemma {:induction false} TopIsTree(leaves: seq<Digest>)
    requires leaves != []
    ensures Top(leaves) == Tree(leaves)
    decreases |leaves|
  {
    if |leaves| > 1 {
      var p := LeftSize(|leaves|);
      TopSplits(leaves);
      TopIsTree(leaves[..p]);
      TopIsTree(leaves[p..]);
    }
  }

  lemma ProofUp(level: seq<Digest>, i: nat)
    requires i < |level|
    ensures ProofFrom(level, i) == ProofStep(level, i) + ProofFrom(NextLevel(level), i / 2)
  {
    if |level| == 1 { assert NextLevel(level) == level && ProofFrom(level, 0) == []; }
  }

  lemma {:induction false} ProofSplits(level: seq<Digest>, i: nat)
    requires i < |level| && |level| > 1
    ensures var p := LeftSize(|level|);
      ProofFrom(level, i) == if i < p then ProofFrom(level[..p], i) + [Top(level[p..])]
                             else ProofFrom(level[p..], i - p) + [Top(level[..p])]
    decreases |level|
  {
    if |level| == 2 {
      PairProof(level, i);
    } else {
      hide ProofFrom, ProofStep, Top, NextLevel, LeftSize;
      var p := LeftSize(|level|);
      var next := NextLevel(level);
      HalfWay(|level|, i);
      NextSplits(level, p);
      ProofSplits(next, i / 2);
      StepStays(level, p, i);
      ProofUp(level, i);
      if i < p {
        TopUp(level[p..]);
        ProofUp(level[..p], i);
        Regroup(ProofStep(level, i), ProofFrom(next[..p / 2], i / 2), [Top(level[p..])]);
      } else {
        TopUp(level[..p]);
        ProofUp(level[p..], i - p);
        Regroup(ProofStep(level, i), ProofFrom(next[p / 2..], i / 2 - p / 2), [Top(level[..p])]);
      }
    }
  }

  lemma HalfWay(n: nat, i: nat)
    requires n > 2
    ensures var p := LeftSize(n);
      && p % 2 == 0 && LeftSize((n + 1) / 2) == p / 2
      && (i < p <==> i / 2 < p / 2) && (i >= p ==> (i - p) / 2 == i / 2 - p / 2)
  {
  }

  lemma Regroup(a: seq<Digest>, b: seq<Digest>, c: seq<Digest>)
    ensures a + (b + c) == (a + b) + c
  {
  }

  lemma PairProof(level: seq<Digest>, i: nat)
    requires i < |level| == 2
    ensures ProofFrom(level, i) == if i == 0 then ProofFrom(level[..1], 0) + [Top(level[1..])]
                                   else ProofFrom(level[1..], 0) + [Top(level[..1])]
  {
    assert |NextLevel(level)| == 1;
    assert ProofFrom(NextLevel(level), 0) == [];
  }

  lemma StepStays(level: seq<Digest>, p: nat, i: nat)
    requires p % 2 == 0 && p <= |level| && i < |level|
    ensures ProofStep(level, i) == if i < p then ProofStep(level[..p], i) else ProofStep(level[p..], i - p)
  {
  }

  // And the proof of a leaf is its way down that tree.
  lemma {:induction false} ProofIsAuditPath(leaves: seq<Digest>, i: nat)
    requires i < |leaves|
    ensures ProofFrom(leaves, i) == AuditPath(leaves, i)
    decreases |leaves|
  {
    if |leaves| > 1 {
      var p := LeftSize(|leaves|);
      ProofSplits(leaves, i);
      TopIsTree(leaves[..p]);
      TopIsTree(leaves[p..]);
      if i < p { ProofIsAuditPath(leaves[..p], i); } else { ProofIsAuditPath(leaves[p..], i - p); }
    }
  }

  // For a published text: its root is the tree over its numbered sentences, and a proof is accepted for a
  // sentence exactly when it is that sentence's way down.
  lemma PublishedTree(sentences: seq<string>, i: int, sentence: string, proof: seq<Wire>)
    requires 1 <= |sentences| <= U32_MAX
    ensures var leaves := seq(|sentences|, k requires 0 <= k < |sentences| => LeafDigest(k, sentences[k]));
      && Root(leaves) == Ok(RootDigest(|sentences|, Tree(leaves)))
      && (Verify(Hex(RootDigest(|sentences|, Tree(leaves))), i, |sentences|, sentence, proof)
          <==> 0 <= i < |sentences| && sentence == sentences[i] && proof == Encode(AuditPath(leaves, i)))
  {
    hide Verify, ProofFrom, AuditPath, Tree, Top;
    var leaves := seq(|sentences|, k requires 0 <= k < |sentences| => LeafDigest(k, sentences[k]));
    TopIsTree(leaves);
    InclusionIsExact(leaves, i, |sentences|, sentence, proof);
    if 0 <= i < |sentences| { ProofIsAuditPath(leaves, i); }
  }
}
