/** Merkle paths: the fold over siblings, against the root of the complete tree, and the block's
    merkle root as its index-0 case. */
module Merkle {
  import opened Words
  import opened Bytes
  import Sha256

  type Hash = seq<byte> -> Bytes32

  // ----- Complete trees -----

  /** The root of the complete tree of depth d over 2^d leaves. */
  function Root(h: Hash, leaves: seq<Bytes32>, d: nat): Bytes32
    requires |leaves| == Pow2(d)
  {
    if d == 0 then leaves[0]
    else
      var half := Pow2(d - 1);
      h(Root(h, leaves[..half], d - 1) + Root(h, leaves[half..], d - 1))
  }

  /** The siblings met from a leaf up to the root, lowest first. */
  function Path(h: Hash, leaves: seq<Bytes32>, d: nat, index: nat): (p: seq<Bytes32>)
    requires |leaves| == Pow2(d) && index < Pow2(d)
    ensures |p| == d
  {
    if d == 0 then []
    else
      var half := Pow2(d - 1);
      if index < half then Path(h, leaves[..half], d - 1, index) + [Root(h, leaves[half..], d - 1)]
      else Path(h, leaves[half..], d - 1, index - half) + [Root(h, leaves[..half], d - 1)]
  }

  // ----- The fold -----

  /** One level: the sibling goes left of an odd index, right of an even one. */
  function Pair(digest: Bytes32, index: nat, sibling: Bytes32): (p: seq<byte>)
    ensures |p| == 64
  {
    if index % 2 == 1 then sibling + digest else digest + sibling
  }

  function Join(h: Hash, digest: Bytes32, index: nat, sibling: Bytes32): Bytes32 {
    h(Pair(digest, index, sibling))
  }

  function Fold(h: Hash, digest: Bytes32, index: nat, siblings: seq<Bytes32>): Bytes32
    decreases |siblings|
  {
    if siblings == [] then digest else Fold(h, Join(h, digest, index, siblings[0]), index / 2, siblings[1..])
  }

  function ShiftRight(x: nat, n: nat): nat {
    QuotientNonNegative(x, Pow2(n));
    x / Pow2(n)
  }

  lemma QuotientNonNegative(x: nat, d: nat)
    requires d > 0
    ensures x / d >= 0
  {
    hide Pow2;
    var q, r := x / d, x % d;
    assert x == q * d + r;
    assert q <= -1 ==> q * d <= -1 * d;
  }

  lemma {:induction false} FoldLast(h: Hash, digest: Bytes32, index: nat, s: seq<Bytes32>, top: Bytes32)
    ensures Fold(h, digest, index, s + [top]) == Join(h, Fold(h, digest, index, s), ShiftRight(index, |s|), top)
    decreases |s|
  {
    hide Join;
    if s == [] {
      assert (s + [top])[1..] == [];
    } else {
      assert (s + [top])[1..] == s[1..] + [top];
      FoldLast(h, Join(h, digest, index, s[0]), index / 2, s[1..], top);
      DivideTwice(index, 2, Pow2(|s| - 1));
    }
  }

  /** Only the low bits of the index matter. */
  lemma {:induction false} FoldLowBits(h: Hash, digest: Bytes32, i: nat, q: nat, s: seq<Bytes32>)
    ensures Fold(h, digest, q * Pow2(|s|) + i, s) == Fold(h, digest, i, s)
    decreases |s|
  {
    if s != [] {
      hide Join;
      var p := Pow2(|s| - 1);
      assert q * (2 * p) == 2 * (q * p);
      SameParity(h, digest, 2 * (q * p) + i, i, q * p, s[0]);
      FoldLowBits(h, Join(h, digest, i, s[0]), i / 2, q, s[1..]);
    }
  }

  lemma SameParity(h: Hash, digest: Bytes32, j: nat, i: nat, k: nat, sibling: Bytes32)
    requires j == 2 * k + i
    ensures Join(h, digest, j, sibling) == Join(h, digest, i, sibling) && j / 2 == k + i / 2
  {
  }

  /** For every depth and every leaf, the fold over the leaf's sibling path is the root. */
  lemma {:induction false} PathGivesRoot(h: Hash, leaves: seq<Bytes32>, d: nat, index: nat)
    requires |leaves| == Pow2(d) && index < Pow2(d)
    ensures Fold(h, leaves[index], index, Path(h, leaves, d, index)) == Root(h, leaves, d)
    decreases d
  {
    hide Fold, Root, Path;
    if d == 0 {
      LeafIsRoot(h, leaves, index);
    } else {
      var half := Pow2(d - 1);
      if index < half {
        PathGivesRoot(h, leaves[..half], d - 1, index);
        LeftHalf(h, leaves, d, index);
      } else {
        PathGivesRoot(h, leaves[half..], d - 1, index - half);
        RightHalf(h, leaves, d, index);
      }
    }
  }

  lemma LeafIsRoot(h: Hash, leaves: seq<Bytes32>, index: nat)
    requires |leaves| == Pow2(0) && index < Pow2(0)
    ensures Fold(h, leaves[index], index, Path(h, leaves, 0, index)) == Root(h, leaves, 0)
  {
  }

  lemma {:induction false} LeftHalf(h: Hash, leaves: seq<Bytes32>, d: nat, index: nat)
    requires d > 0 && |leaves| == Pow2(d) && index < Pow2(d - 1) <= Pow2(d)
    requires var l := leaves[..Pow2(d - 1)]; Fold(h, l[index], index, Path(h, l, d - 1, index)) == Root(h, l, d - 1)
    ensures Fold(h, leaves[index], index, Path(h, leaves, d, index)) == Root(h, leaves, d)
  {
    hide Fold, Root, Path, Pow2;
    Halves(h, leaves, d, index);
    var l, r := leaves[..Pow2(d - 1)], leaves[Pow2(d - 1)..];
    LastLevel(h, l[index], index, 0, index, Path(h, l, d - 1, index), Root(h, r, d - 1));
  }

  lemma {:induction false} RightHalf(h: Hash, leaves: seq<Bytes32>, d: nat, index: nat)
    requires d > 0 && |leaves| == Pow2(d) && Pow2(d - 1) <= index < Pow2(d)
    requires
      var r, i := leaves[Pow2(d - 1)..], index - Pow2(d - 1);
      Fold(h, r[i], i, Path(h, r, d - 1, i)) == Root(h, r, d - 1)
    ensures Fold(h, leaves[index], index, Path(h, leaves, d, index)) == Root(h, leaves, d)
  {
    hide Fold, Root, Path, Pow2;
    Halves(h, leaves, d, index);
    var l, r, i := leaves[..Pow2(d - 1)], leaves[Pow2(d - 1)..], index - Pow2(d - 1);
    LastLevel(h, r[i], i, 1, index, Path(h, r, d - 1, i), Root(h, l, d - 1));
  }

  lemma Halves(h: Hash, leaves: seq<Bytes32>, d: nat, index: nat)
    requires |leaves| == Pow2(d) && index < Pow2(d) && d > 0
    ensures Pow2(d) == 2 * Pow2(d - 1)
    ensures
      var half := Pow2(d - 1);
      var l, r := leaves[..half], leaves[half..];
      && Root(h, leaves, d) == h(Root(h, l, d - 1) + Root(h, r, d - 1))
      && (index < half ==> Path(h, leaves, d, index) == Path(h, l, d - 1, index) + [Root(h, r, d - 1)])
      && (index >= half ==> Path(h, leaves, d, index) == Path(h, r, d - 1, index - half) + [Root(h, l, d - 1)])
  {
  }

  /** The last step of the fold, for the left (q = 0) or the right (q = 1) half of the tree. */
  lemma {:induction false} LastLevel(h: Hash, digest: Bytes32, i: nat, q: nat, index: nat, s: seq<Bytes32>, top: Bytes32)
    requires i < Pow2(|s|) && q <= 1 && index == (if q == 1 then Pow2(|s|) + i else i)
    ensures Fold(h, digest, index, s + [top]) == if q == 1 then h(top + Fold(h, digest, i, s)) else h(Fold(h, digest, i, s) + top)
  {
    hide Fold, Pow2;
    var p := Pow2(|s|);
    FoldLast(h, digest, index, s, top);
    FoldLowBits(h, digest, i, q, s);
    DivModUnique(index, q, i, p);
  }

  /** A root binds its leaf: another digest or path that folds to the same root at the same index
      yields two different pairs with one hash. */
  lemma {:induction false} FoldBinds(h: Hash, x: Bytes32, y: Bytes32, index: nat, s: seq<Bytes32>, t: seq<Bytes32>)
      returns (a: seq<byte>, b: seq<byte>)
    requires |s| == |t| && Fold(h, x, index, s) == Fold(h, y, index, t)
    ensures (x == y && s == t) || (a != b && |a| == |b| == 64 && h(a) == h(b))
    decreases |s|
  {
    a, b := [], [];
    if s != [] {
      a, b := FoldBinds(h, Join(h, x, index, s[0]), Join(h, y, index, t[0]), index / 2, s[1..], t[1..]);
      if !(a != b && |a| == |b| == 64 && h(a) == h(b)) {
        a, b := Pair(x, index, s[0]), Pair(y, index, t[0]);
        if a == b { PairBinds(x, y, index, s[0], t[0]); }
        assert s == [s[0]] + s[1..] && t == [t[0]] + t[1..];
      }
    }
  }

  lemma PairBinds(x: Bytes32, y: Bytes32, index: nat, s: Bytes32, t: Bytes32)
    requires Pair(x, index, s) == Pair(y, index, t)
    ensures x == y && s == t
  {
    assert (x + s)[..32] == x && (x + s)[32..] == s && (s + x)[..32] == s && (s + x)[32..] == x;
    assert (y + t)[..32] == y && (y + t)[32..] == t && (t + y)[..32] == t && (t + y)[32..] == y;
  }

  // ----- getDigestFromSiblings -----

  /** The pair buffer is filled in place at each level and hashed into the digest. */
  method DigestFromSiblings(h: Hash, input: seq<byte>, index: nat, siblings: seq<Bytes32>) returns (output: Bytes32)
    ensures output == Fold(h, h(input), index, siblings)
  {
    hide Join;
    var pair := new byte[64];
    var digest := h(input);
    var digestIndex := index;
    assert siblings[0..] == siblings;
    for i := 0 to |siblings|
      invariant Fold(h, digest, digestIndex, siblings[i..]) == Fold(h, h(input), index, siblings)
    {
      var first, second := digest, siblings[i];
      if digestIndex % 2 == 1 {
        first, second := siblings[i], digest;
      }
      FillPair(pair, first, second);
      OneLevel(h, digest, digestIndex, siblings[i], pair[..]);
      assert siblings[i..][1..] == siblings[i + 1..];
      digest := h(pair[..]);
      digestIndex := digestIndex / 2;
    }
    output := digest;
  }

  lemma OneLevel(h: Hash, digest: Bytes32, index: nat, sibling: Bytes32, pair: seq<byte>)
    requires pair == if index % 2 == 1 then sibling + digest else digest + sibling
    ensures h(pair) == Join(h, digest, index, sibling)
  {
  }

  method FillPair(pair: array<byte>, first: Bytes32, second: Bytes32)
    requires pair.Length == 64
    modifies pair
    ensures pair[..] == first + second
  {
    forall k | 0 <= k < 64 { pair[k] := if k < 32 then first[k] else second[k - 32]; }
  }

  /** Any leaf of a complete tree, checked with its path, gives the tree's root. */
  method RootFromLeaf(h: Hash, inputs: seq<seq<byte>>, d: nat, index: nat, siblings: seq<Bytes32>) returns (output: Bytes32)
    requires |inputs| == Pow2(d) && index < Pow2(d)
    requires siblings == Path(h, seq(|inputs|, i requires 0 <= i < |inputs| => h(inputs[i])), d, index)
    ensures output == Root(h, seq(|inputs|, i requires 0 <= i < |inputs| => h(inputs[i])), d)
  {
    hide Path, Root, Fold;
    ghost var leaves: seq<Bytes32> := seq(|inputs|, i requires 0 <= i < |inputs| => h(inputs[i]));
    PathGivesRoot(h, leaves, d, index);
    output := DigestFromSiblings(h, inputs[index], index, siblings);
  }

  // ----- calculateMerkleRoot -----

  function DoubleSha(f: Sha256.Compression, m: seq<byte>): Bytes32 {
    Sha256.Digest(f, Sha256.Digest(f, m))
  }

  function ShaHash(f: Sha256.Compression): Hash {
    m => DoubleSha(f, m)
  }

  /** Two rounds of init, update and final over one context. */
  method DoubleSha256(f: Sha256.Compression, data: seq<byte>) returns (digest: Bytes32)
    requires |data| < TWO64
    ensures digest == DoubleSha(f, data)
  {
    hide Sha256.Digest;
    var ctx := new Sha256.Context(f);
    ctx.Update(f, data, []);
    assert [] + data == data;
    var first := Sha256.Final(f, ctx, data);
    var again := new Sha256.Context(f);
    again.Update(f, first, []);
    assert [] + first == first;
    digest := Sha256.Final(f, again, first);
  }

  /** The running hash always goes left of the next branch, whatever the branch's length. */
  function LeftFold(h: Hash, digest: Bytes32, branches: seq<seq<byte>>): Bytes32
    decreases |branches|
  {
    if branches == [] then digest else LeftFold(h, h(digest + branches[0]), branches[1..])
  }

  method MerkleRoot(f: Sha256.Compression, coinbase1: seq<byte>, coinbase2: seq<byte>, extraNonce1: seq<byte>, extraNonce2: seq<byte>,
                    branches: seq<seq<byte>>) returns (root: Bytes32)
    requires |coinbase1| + |extraNonce1| + |extraNonce2| + |coinbase2| < TWO64
    requires forall i :: 0 <= i < |branches| ==> |branches[i]| < TWO63
    ensures root == LeftFold(ShaHash(f), DoubleSha(f, coinbase1 + extraNonce1 + extraNonce2 + coinbase2), branches)
  {
    hide DoubleSha;
    ghost var h := ShaHash(f);
    var coinbase := coinbase1 + extraNonce1 + extraNonce2 + coinbase2;
    root := DoubleSha256(f, coinbase);
    assert branches[0..] == branches;
    for i := 0 to |branches|
      invariant LeftFold(h, root, branches[i..]) == LeftFold(h, DoubleSha(f, coinbase), branches)
    {
      assert branches[i..][1..] == branches[i + 1..];
      root := DoubleSha256(f, root + branches[i]);
    }
  }

  /** With 32-byte branches this is the fold along the path of leaf 0. */
  lemma {:induction false} LeftFoldIsIndexZero(h: Hash, digest: Bytes32, branches: seq<Bytes32>)
    ensures LeftFold(h, digest, branches) == Fold(h, digest, 0, branches)
    decreases |branches|
  {
    if branches != [] { LeftFoldIsIndexZero(h, h(digest + branches[0]), branches[1..]); }
  }

  // ----- The pool's tree -----

  function Combined(h: Hash, left: seq<byte>, right: seq<byte>): Bytes32 {
    h(left + right)
  }

  /** The next level of a block's tree: neighbours hashed together, an odd last node with itself. */
  function Pairs(h: Hash, level: seq<Bytes32>): (next: seq<Bytes32>)
    ensures |next| == (|level| + 1) / 2
    decreases |level|
  {
    if level == [] then []
    else if |level| == 1 then [Combined(h, level[0], level[0])]
    else [Combined(h, level[0], level[1])] + Pairs(h, level[2..])
  }

  /** The root over all transactions of a block. */
  function TreeRoot(h: Hash, level: seq<Bytes32>): Bytes32
    requires level != []
    decreases |level|
  {
    if |level| == 1 then level[0] else TreeRoot(h, Pairs(h, level))
  }

  /** The right-hand neighbours met from the first leaf up, `rest` being the other nodes of its
      level: they do not depend on the first leaf. */
  function Steps(h: Hash, rest: seq<Bytes32>): seq<Bytes32>
    decreases |rest|
  {
    if rest == [] then [] else [rest[0]] + Steps(h, Pairs(h, rest[1..]))
  }

  /** Folding the first leaf with the steps sent to the miners is the root over the whole block. */
  lemma {:induction false} StepsGiveRoot(h: Hash, first: Bytes32, rest: seq<Bytes32>)
    ensures LeftFold(h, first, Steps(h, rest)) == TreeRoot(h, [first] + rest)
    decreases |rest|
  {
    if rest == [] {
      assert [first] + rest == [first];
    } else {
      var level := [first] + rest;
      assert level[2..] == rest[1..] && level[1] == rest[0];
      var up, next := h(first + rest[0]), Pairs(h, rest[1..]);
      assert Pairs(h, level) == [up] + next;
      StepsGiveRoot(h, up, next);
      var steps := Steps(h, rest);
      assert steps[0] == rest[0] && steps[1..] == Steps(h, next);
    }
  }

  lemma {:induction false} PairsAt(h: Hash, level: seq<Bytes32>, i: nat)
    requires i < (|level| + 1) / 2
    ensures Pairs(h, level)[i] == if 2 * i + 1 < |level| then Combined(h, level[2 * i], level[2 * i + 1]) else Combined(h, level[2 * i], level[2 * i])
    decreases |level|
  {
    if |level| > 1 && i > 0 { PairsAt(h, level[2..], i - 1); }
  }

  /** With an odd number of nodes on a level, more than one, the last counts twice. */
  lemma OddCountsTwice(h: Hash, level: seq<Bytes32>)
    requires |level| % 2 == 1 && |level| > 1
    ensures TreeRoot(h, level) == TreeRoot(h, level + [level[|level| - 1]])
  {
    var more := level + [level[|level| - 1]];
    SamePairs(h, level, more);
    hide Pairs;
  }

  lemma SamePairs(h: Hash, level: seq<Bytes32>, more: seq<Bytes32>)
    requires |level| % 2 == 1 && |level| > 1 && more == level + [level[|level| - 1]]
    ensures Pairs(h, level) == Pairs(h, more)
  {
    hide Pairs, Combined;
    forall i | 0 <= i < (|level| + 1) / 2 ensures Pairs(h, level)[i] == Pairs(h, more)[i] {
      PairsAt(h, level, i);
      PairsAt(h, more, i);
    }
  }

  lemma {:induction false} PairsSplit(h: Hash, a: seq<Bytes32>, b: seq<Bytes32>)
    requires |a| % 2 == 0
    ensures Pairs(h, a + b) == Pairs(h, a) + Pairs(h, b)
    decreases |a|
  {
    if a == [] {
      assert a + b == b;
    } else {
      assert (a + b)[2..] == a[2..] + b;
      PairsSplit(h, a[2..], b);
    }
  }

  /** One level up, a complete tree is a complete tree. */
  lemma {:induction false} PairsKeepRoot(h: Hash, leaves: seq<Bytes32>, d: nat)
    requires d > 0 && |leaves| == Pow2(d)
    ensures |Pairs(h, leaves)| == Pow2(d - 1) && Root(h, Pairs(h, leaves), d - 1) == Root(h, leaves, d)
    decreases d, 1
  {
    hide Root, Pairs, Path, Pow2;
    if d == 1 {
      TwoLeaves(h, leaves);
    } else {
      PowerIsTwice(d);
      PowerIsTwice(d - 1);
      JoinedPairs(h, leaves[..Pow2(d - 1)], leaves[Pow2(d - 1)..], d - 1);
      assert leaves == leaves[..Pow2(d - 1)] + leaves[Pow2(d - 1)..];
    }
  }

  lemma PowerIsTwice(d: nat)
    requires d > 0
    ensures Pow2(d) == 2 * Pow2(d - 1)
  {
  }

  /** The step of the induction, from the halves to the whole. */
  lemma {:induction false} JoinedPairs(h: Hash, l: seq<Bytes32>, r: seq<Bytes32>, d: nat)
    requires d > 0 && |l| == |r| == Pow2(d)
    ensures |Pairs(h, l + r)| == Pow2(d) && |l + r| == Pow2(d + 1) && Root(h, Pairs(h, l + r), d) == Root(h, l + r, d + 1)
    decreases d, 2
  {
    hide Root, Pairs, Path, Pow2;
    PairsKeepRoot(h, l, d);
    PairsKeepRoot(h, r, d);
    PowerIsTwice(d);
    PairsSplit(h, l, r);
    RootOfHalves(h, l, r, d);
    RootOfHalves(h, Pairs(h, l), Pairs(h, r), d - 1);
  }

  lemma RootOfHalves(h: Hash, l: seq<Bytes32>, r: seq<Bytes32>, d: nat)
    requires |l| == |r| == Pow2(d)
    ensures |l + r| == Pow2(d + 1) && Root(h, l + r, d + 1) == h(Root(h, l, d) + Root(h, r, d))
  {
    assert Pow2(d + 1) == 2 * Pow2(d);
    var leaves := l + r;
    assert leaves[..Pow2(d)] == l && leaves[Pow2(d)..] == r;
    Halves(h, leaves, d + 1, 0);
  }

  lemma TwoLeaves(h: Hash, leaves: seq<Bytes32>)
    requires |leaves| == Pow2(1)
    ensures |Pairs(h, leaves)| == Pow2(0) && Root(h, Pairs(h, leaves), 0) == Root(h, leaves, 1)
  {
    assert Pow2(1) == 2 * Pow2(0) == 2;
    PairsAt(h, leaves, 0);
    Halves(h, leaves, 1, 0);
  }

  /** Over a power of two of leaves the pool's tree is the complete tree. */
  lemma {:induction false} CompleteTreeRoot(h: Hash, leaves: seq<Bytes32>, d: nat)
    requires |leaves| == Pow2(d)
    ensures TreeRoot(h, leaves) == Root(h, leaves, d)
    decreases d
  {
    if d > 0 {
      PairsKeepRoot(h, leaves, d);
      hide Pairs, Root;
      CompleteTreeRoot(h, Pairs(h, leaves), d - 1);
    }
  }
}
