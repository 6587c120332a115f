/** KangarooTwelve as the code computes it, in place, against KT128 with an empty customization
    string (section 3.2 of RFC 9861). */
module KangarooTwelve {
  import opened Bytes
  import opened Sponge

  const CHUNK := 8192
  const CAPACITY := 32

  // ----- The reference -----

  /** x in big-endian bytes without leading zeros. */
  function BigEndian(x: nat): seq<byte> {
    if x == 0 then [] else BigEndian(x / 256) + [x % 256]
  }

  function LengthEncode(x: nat): seq<byte>
    requires |BigEndian(x)| < 256
  {
    BigEndian(x) + [|BigEndian(x)|]
  }

  /** The chaining values of the chunks of s, in order. */
  function ChainingValues(f: Permutation, s: seq<byte>): seq<byte>
    decreases |s|
  {
    if |s| == 0 then []
    else if |s| <= CHUNK then TurboShake(f, s, 0x0B, CAPACITY)
    else TurboShake(f, s[..CHUNK], 0x0B, CAPACITY) + ChainingValues(f, s[CHUNK..])
  }

  function ChunkCount(n: nat): nat {
    (n + CHUNK - 1) / CHUNK
  }

  const TREE_MARK: seq<byte> := [3, 0, 0, 0, 0, 0, 0, 0]

  /** KT128 of m: s is the message followed by the encoded length 0 of the empty customization. */
  function KT128(f: Permutation, m: seq<byte>, outLen: nat): (r: seq<byte>)
    requires outLen <= RATE && |m| < 0x1_0000_0000
    ensures |r| == outLen
  {
    var s := m + [0];
    if |s| <= CHUNK then TurboShake(f, s, 0x07, outLen)
    else TurboShake(f, FinalNode(f, s), 0x06, outLen)
  }

  function FinalNode(f: Permutation, s: seq<byte>): seq<byte>
    requires CHUNK < |s| <= 0x1_0000_0000
  {
    BigEndianLength(ChunkCount(|s| - CHUNK), 4);
    s[..CHUNK] + TREE_MARK + ChainingValues(f, s[CHUNK..]) + LengthEncode(ChunkCount(|s| - CHUNK)) + [0xFF, 0xFF]
  }

  lemma {:induction false} BigEndianLength(x: nat, n: nat)
    requires n == 0 ==> x == 0
    requires n == 1 ==> x < 0x100
    requires n == 2 ==> x < 0x1_0000
    requires n == 3 ==> x < 0x100_0000
    requires n == 4 ==> x < 0x1_0000_0000
    requires n <= 4
    ensures |BigEndian(x)| <= n
  {
    if x > 0 { BigEndianLength(x / 256, n - 1); }
  }

  // ----- What the tree encoding tells apart -----

  /** What the sponge absorbs at the top: the padded single node, or the padded final node. */
  function TopNode(f: Permutation, m: seq<byte>): (p: seq<byte>)
    requires |m| < 0x1_0000_0000
    ensures |p| % RATE == 0
  {
    if |m| + 1 <= CHUNK then Pad(m + [0], 0x07) else Pad(FinalNode(f, m + [0]), 0x06)
  }

  lemma KT128IsTop(f: Permutation, m: seq<byte>, outLen: nat)
    requires outLen <= RATE && |m| < 0x1_0000_0000
    ensures KT128(f, m, outLen) == AbsorbBlocks(f, ZERO_STATE, TopNode(f, m))[..outLen]
  {
    hide Pad, FinalNode, AbsorbBlocks;
  }

  /** No single node and no final node are absorbed as the same string. */
  lemma DomainsApart(s: seq<byte>, node: seq<byte>)
    ensures Pad(s, 0x07) != Pad(node, 0x06)
  {
    if Pad(s, 0x07) == Pad(node, 0x06) { PadTellsApart(s, 0x07, node, 0x06); }
  }

  lemma {:induction false} LongerNumber(x: nat, y: nat)
    requires x <= y
    ensures |BigEndian(x)| <= |BigEndian(y)|
    decreases x
  {
    if x > 0 { LongerNumber(x / 256, y / 256); }
  }

  lemma NextChunk(n: nat)
    requires n > CHUNK
    ensures ChunkCount(n) == 1 + ChunkCount(n - CHUNK)
  {
  }

  lemma FewChunks(n: nat)
    ensures n == 0 ==> ChunkCount(n) == 0
    ensures 0 < n <= CHUNK ==> ChunkCount(n) == 1
    ensures n > CHUNK ==> ChunkCount(n) >= 2
  {
  }

  lemma {:induction false} ChainingLength(f: Permutation, s: seq<byte>)
    ensures |ChainingValues(f, s)| == CAPACITY * ChunkCount(|s|)
    decreases |s|
  {
    hide TurboShake, ChunkCount;
    FewChunks(|s|);
    if |s| > CHUNK {
      ChainingLength(f, s[CHUNK..]);
      NextChunk(|s|);
    }
  }

  lemma OneChunk(f: Permutation, s: seq<byte>)
    requires |s| <= CHUNK
    ensures ChainingValues(f, s) == if s == [] then [] else TurboShake(f, s, 0x0B, CAPACITY)
  {
    hide TurboShake;
  }

  lemma FirstChunk(f: Permutation, s: seq<byte>)
    requires |s| > CHUNK
    ensures
      var c := ChainingValues(f, s);
      |c| >= CAPACITY && c[..CAPACITY] == TurboShake(f, s[..CHUNK], 0x0B, CAPACITY) && c[CAPACITY..] == ChainingValues(f, s[CHUNK..])
  {
    hide TurboShake;
  }

  /** Equally many chunks with the same chaining values are the same chunks, or two of them collide. */
  lemma {:induction false} ChainingBinds(f: Permutation, s: seq<byte>, t: seq<byte>) returns (a: seq<byte>, b: seq<byte>)
    requires ChunkCount(|s|) == ChunkCount(|t|) && ChainingValues(f, s) == ChainingValues(f, t)
    ensures s == t || (a != b && TurboShake(f, a, 0x0B, CAPACITY) == TurboShake(f, b, 0x0B, CAPACITY))
    decreases |s|
  {
    hide TurboShake, ChunkCount, ChainingValues;
    FewChunks(|s|);
    FewChunks(|t|);
    a, b := s, t;
    if |s| <= CHUNK {
      OneChunk(f, s);
      OneChunk(f, t);
    } else {
      var x, y, s', t' := s[..CHUNK], t[..CHUNK], s[CHUNK..], t[CHUNK..];
      FirstChunk(f, s);
      FirstChunk(f, t);
      NextChunk(|s|);
      NextChunk(|t|);
      if x == y {
        a, b := ChainingBinds(f, s', t');
        if s' == t' { assert s == x + s' && t == y + t'; }
      } else {
        a, b := x, y;
      }
    }
  }

  lemma {:induction false} FinalNodeBinds(f: Permutation, s: seq<byte>, t: seq<byte>) returns (a: seq<byte>, b: seq<byte>)
    requires CHUNK < |s| <= 0x1_0000_0000 && CHUNK < |t| <= 0x1_0000_0000 && FinalNode(f, s) == FinalNode(f, t)
    ensures s == t || (a != b && TurboShake(f, a, 0x0B, CAPACITY) == TurboShake(f, b, 0x0B, CAPACITY))
  {
    var m, n := ChunkCount(|s| - CHUNK), ChunkCount(|t| - CHUNK);
    BigEndianLength(m, 4);
    BigEndianLength(n, 4);
    ChainingLength(f, s[CHUNK..]);
    ChainingLength(f, t[CHUNK..]);
    if m <= n { LongerNumber(m, n); } else { LongerNumber(n, m); }
    hide ChainingValues, BigEndian, ChunkCount, TurboShake;
    assert |FinalNode(f, s)| == CHUNK + 8 + CAPACITY * m + |BigEndian(m)| + 3;
    assert |FinalNode(f, t)| == CHUNK + 8 + CAPACITY * n + |BigEndian(n)| + 3;
    assert m == n;
    NodeParts(f, s);
    NodeParts(f, t);
    a, b := ChainingBinds(f, s[CHUNK..], t[CHUNK..]);
    assert s == s[..CHUNK] + s[CHUNK..] && t == t[..CHUNK] + t[CHUNK..];
  }

  lemma NodeParts(f: Permutation, s: seq<byte>)
    requires CHUNK < |s| <= 0x1_0000_0000
    ensures
      var c := ChainingValues(f, s[CHUNK..]);
      |FinalNode(f, s)| >= CHUNK + 8 + |c| && FinalNode(f, s)[..CHUNK] == s[..CHUNK] && FinalNode(f, s)[CHUNK + 8..CHUNK + 8 + |c|] == c
  {
    hide ChainingValues, LengthEncode;
    BigEndianLength(ChunkCount(|s| - CHUNK), 4);
  }

  /** The encoding binds its input: two inputs absorbed as one string are equal, or two leaves collide. */
  lemma TopNodeBinds(f: Permutation, m: seq<byte>, n: seq<byte>) returns (a: seq<byte>, b: seq<byte>)
    requires |m| < 0x1_0000_0000 && |n| < 0x1_0000_0000 && TopNode(f, m) == TopNode(f, n)
    ensures m == n || (a != b && TurboShake(f, a, 0x0B, CAPACITY) == TurboShake(f, b, 0x0B, CAPACITY))
  {
    hide Pad, FinalNode, TurboShake;
    var s, t := m + [0], n + [0];
    assert s[..|m|] == m && t[..|n|] == n;
    a, b := [], [];
    if |s| <= CHUNK && |t| <= CHUNK {
      PadTellsApart(s, 0x07, t, 0x07);
    } else if |s| <= CHUNK {
      PadTellsApart(s, 0x07, FinalNode(f, t), 0x06);
    } else if |t| <= CHUNK {
      PadTellsApart(FinalNode(f, s), 0x06, t, 0x07);
    } else {
      PadTellsApart(FinalNode(f, s), 0x06, FinalNode(f, t), 0x06);
      a, b := FinalNodeBinds(f, s, t);
    }
  }

  // ----- The in-place node -----

  lemma Extended(before: State, st: State, at: nat, data: seq<byte>, m: nat, n: nat)
    requires at + m + n <= 200 && m + n <= |data|
    requires st == XorInto(before, at, data[..m])
    ensures XorInto(st, at + m, data[m..m + n]) == XorInto(before, at, data[..m + n])
  {
    XorIntoSplit(before, at, data[..m], data[m..m + n]);
    assert data[..m] + data[m..m + n] == data[..m + n];
  }

  lemma {:induction false} Joined(f: Permutation, before: Sponge, data: seq<byte>, i: nat, n: nat)
    requires before.Valid() && i + n <= |data|
    ensures Absorbed(f, Absorbed(f, before, data[..i]), data[i..i + n]) == Absorbed(f, before, data[..i + n])
  {
    hide Absorbed;
    AbsorbSplit(f, before, data[..i], data[i..i + n]);
    assert data[..i] + data[i..i + n] == data[..i + n];
  }

  /** The first lane boundary after the byte at the index. */
  function NextLane(i: nat): nat {
    (i + 8) / 8 * 8
  }

  class Node {
    const state: array<byte>
    var byteIOIndex: nat

    ghost predicate Valid()
      reads this
    {
      state.Length == 200 && byteIOIndex < RATE
    }

    ghost function Abs(): Sponge
      requires Valid()
      reads this, state
    {
      Sponge(state[..], byteIOIndex)
    }

    constructor ()
      ensures Valid() && fresh(state) && Abs() == FRESH
    {
      state := new byte[200](_ => 0);
      byteIOIndex := 0;
      new;
      assert state[..] == ZERO_STATE;
    }

    /** n bytes of data, from `from`, xored into the state at `at`: whole lanes or part of one. */
    method XorBytes(at: nat, data: seq<byte>, from: nat, n: nat)
      requires Valid() && at + n <= 200 && from + n <= |data|
      modifies state
      ensures state[..] == XorInto(old(state[..]), at, data[from..from + n])
    {
      hide Xor;
      for k := 0 to n
        invariant forall i :: 0 <= i < 200 ==>
                    state[i] == if at <= i < at + k then XorByte(old(state[i]), data[from + i - at]) else old(state[i])
      {
        state[at + k] := XorByte(state[at + k], data[from + k]);
      }
    }

    /** The branch for an empty block: lanes in groups of eight, four, two and one, then the tail. */
    method XorAligned(data: seq<byte>)
      requires Valid() && |data| <= RATE
      modifies state
      ensures state[..] == XorInto(old(state[..]), 0, data)
    {
      hide XorInto;
      ghost var before := state[..];
      var lanes := |data| / 8;
      var j := 0;
      XorIntoNothing(before, 0);
      j := XorGroups(data, j, 8, before);
      j := XorGroups(data, j, 4, before);
      j := XorGroups(data, j, 2, before);
      if j < lanes {
        XorBytes(8 * j, data, 8 * j, 8);
        Extended(before, XorInto(before, 0, data[..8 * j]), 0, data, 8 * j, 8);
        assert lanes == j + 1;
      }
      if |data| % 8 != 0 {
        XorBytes(8 * lanes, data, 8 * lanes, |data| % 8);
        Extended(before, XorInto(before, 0, data[..8 * lanes]), 0, data, 8 * lanes, |data| % 8);
      }
      assert data[..|data|] == data;
    }

    /** One of the unrolled loops: `group` lanes a turn. */
    method XorGroups(data: seq<byte>, j0: nat, group: nat, ghost before: State) returns (j: nat)
      requires Valid() && |data| <= RATE && group >= 1 && 8 * j0 <= |data|
      requires state[..] == XorInto(before, 0, data[..8 * j0])
      modifies state
      ensures j0 <= j && 8 * j <= |data| && |data| / 8 < j + group
      ensures state[..] == XorInto(before, 0, data[..8 * j])
    {
      j := j0;
      while j + group <= |data| / 8
        invariant j0 <= j && 8 * j <= |data|
        invariant state[..] == XorInto(before, 0, data[..8 * j])
      {
        ghost var st := state[..];
        XorBytes(8 * j, data, 8 * j, 8 * group);
        Extended(before, st, 0, data, 8 * j, 8 * group);
        j := j + group;
      }
    }

    /** The branch for a block already begun: lane by lane, the first one from its offset. */
    method XorUnaligned(at: nat, data: seq<byte>)
      requires Valid() && at + |data| <= RATE
      modifies state
      ensures state[..] == XorInto(old(state[..]), at, data)
    {
      ghost var before := state[..];
      XorIntoNothing(before, at);
      var sizeLeft, lanePosition, offsetInLane, cur := |data|, at / 8, at % 8, 0;
      while sizeLeft > 0
        invariant 0 <= cur && 0 <= sizeLeft && sizeLeft + cur == |data| && 0 <= offsetInLane < 8
        invariant sizeLeft > 0 ==> 8 * lanePosition + offsetInLane == at + cur
        invariant state[..] == XorInto(before, at, data[..cur])
      {
        ghost var st := state[..];
        var bytesInLane := 8 - offsetInLane;
        if bytesInLane > sizeLeft {
          bytesInLane := sizeLeft;
        }
        XorBytes(8 * lanePosition + offsetInLane, data, cur, bytesInLane);
        Extended(before, st, at, data, cur, bytesInLane);
        sizeLeft, lanePosition, offsetInLane, cur := sizeLeft - bytesInLane, lanePosition + 1, 0, cur + bytesInLane;
      }
      assert data[..|data|] == data;
    }

    method Permute(f: Permutation)
      requires state.Length == 200
      modifies state
      ensures state[..] == f(old(state[..]))
    {
      var st := f(state[..]);
      forall i | 0 <= i < 200 { state[i] := st[i]; }
      assert state[..] == st;
    }

    /** KangarooTwelve_F_Absorb: whole blocks at once while the block is empty, else up to its end. */
    method Absorb(f: Permutation, data: seq<byte>)
      requires Valid()
      modifies this, state
      ensures Valid() && Abs() == Absorbed(f, old(Abs()), data)
    {
      ghost var before := Abs();
      hide XorInto;
      var i := 0;
      while i < |data|
        invariant 0 <= i <= |data| && Valid() && Abs() == Absorbed(f, before, data[..i])
      {
        if byteIOIndex == 0 && |data| >= i + RATE {
          i := AbsorbBlocks(f, data, i, before);
        } else {
          var partialBlock := if |data| - i + byteIOIndex > RATE then RATE - byteIOIndex else |data| - i;
          AbsorbPartial(f, data[i..i + partialBlock]);
          Joined(f, before, data, i, partialBlock);
          i := i + partialBlock;
        }
      }
      assert data[..|data|] == data;
    }

    method AbsorbBlocks(f: Permutation, data: seq<byte>, i0: nat, ghost before: Sponge) returns (i: nat)
      requires Valid() && byteIOIndex == 0 && i0 + RATE <= |data| && before.Valid()
      requires Abs() == Absorbed(f, before, data[..i0])
      modifies this, state
      ensures Valid() && i0 < i <= |data| && Abs() == Absorbed(f, before, data[..i])
    {
      hide XorInto, Absorbed;
      i := i0;
      while |data| - i >= RATE
        invariant i0 <= i <= |data| && Valid() && byteIOIndex == 0
        invariant i == i0 ==> |data| - i >= RATE
        invariant Abs() == Absorbed(f, before, data[..i])
      {
        ghost var st := state[..];
        XorBytes(0, data, i, RATE);
        Permute(f);
        AbsorbFill(f, st, 0, data[i..i + RATE]);
        Joined(f, before, data, i, RATE);
        i := i + RATE;
      }
    }

    method AbsorbPartial(f: Permutation, data: seq<byte>)
      requires Valid() && 0 < |data| && byteIOIndex + |data| <= RATE
      modifies this, state
      ensures Valid() && Abs() == Absorbed(f, old(Abs()), data)
    {
      hide XorInto, Absorbed;
      ghost var st, at := state[..], byteIOIndex;
      if byteIOIndex == 0 {
        XorAligned(data);
      } else {
        XorUnaligned(byteIOIndex, data);
      }
      byteIOIndex := byteIOIndex + |data|;
      if byteIOIndex == RATE {
        Permute(f);
        byteIOIndex := 0;
        AbsorbFill(f, st, at, data);
      } else {
        AbsorbPart(f, st, at, data);
      }
    }

    /** Moving the index past a zero byte. */
    method Skip(f: Permutation)
      requires Valid()
      modifies this, state
      ensures Valid() && Abs() == Absorbed(f, old(Abs()), [0])
    {
      hide Absorbed, XorInto;
      ghost var st, at := state[..], byteIOIndex;
      XorIntoNothing(st, at);
      XorIntoZeros(st, at, [], 1);
      assert [] + Zeros(1) == [0];
      byteIOIndex := byteIOIndex + 1;
      if byteIOIndex == RATE {
        Permute(f);
        byteIOIndex := 0;
        AbsorbFill(f, st, at, [0]);
      } else {
        AbsorbPart(f, st, at, [0]);
      }
    }

    /** The tree mark: 0x03, then the index rounded up to a whole lane. This absorbs 0x03 and the
        zeros up to the next lane, except from inside the last lane of a block: there the index is
        left at the end of the block. After a chunk of 8192 bytes it is 0x03 and seven zeros. */
    method MarkTree(f: Permutation)
      requires Valid()
      modifies this, state
      ensures old(byteIOIndex) + 1 == RATE ==> Valid() && Abs() == Absorbed(f, old(Abs()), [3])
      ensures NextLane(old(byteIOIndex)) < RATE ==>
                Valid() && Abs() == Absorbed(f, old(Abs()), [3] + Zeros(NextLane(old(byteIOIndex)) - old(byteIOIndex) - 1))
      ensures RATE - 8 <= old(byteIOIndex) < RATE - 1 ==>
                byteIOIndex == RATE && state.Length == 200 && state[..] == XorInto(old(state[..]), old(byteIOIndex), [3])
    {
      hide Absorbed, XorInto;
      ghost var st, at := state[..], byteIOIndex;
      XorBytes(byteIOIndex, [3], 0, 1);
      assert [3][0..1] == [3];
      byteIOIndex := byteIOIndex + 1;
      if byteIOIndex == RATE {
        Permute(f);
        byteIOIndex := 0;
        AbsorbFill(f, st, at, [3]);
      } else {
        byteIOIndex := (byteIOIndex + 7) / 8 * 8;
        if byteIOIndex < RATE {
          var gap := byteIOIndex - at - 1;
          AbsorbPart(f, st, at, [3] + Zeros(gap));
          XorIntoZeros(st, at, [3], gap);
        }
      }
    }

    /** Domain byte, final bit, permutation. */
    method Close(f: Permutation, d: byte)
      requires Valid()
      modifies state
      ensures state.Length == 200 && state[..] == Finish(f, old(Abs()), d)
    {
      hide XorInto;
      XorBytes(byteIOIndex, [d], 0, 1);
      XorBytes(RATE - 1, [0x80], 0, 1);
      assert [d][0..1] == [d] && [0x80][0..1] == [0x80];
      Permute(f);
    }
  }

  lemma XorIntoZeros(st: State, at: nat, a: seq<byte>, n: nat)
    requires at + |a| + n <= 200
    ensures XorInto(st, at, a + Zeros(n)) == XorInto(st, at, a)
  {
    hide Xor;
    forall i | 0 <= i < 200
      ensures XorInto(st, at, a + Zeros(n))[i] == XorInto(st, at, a)[i]
    {
      XorZero(st[i]);
    }
  }

  // ----- The tree -----

  lemma {:induction false} ChainingValuesAppend(f: Permutation, s: seq<byte>, t: seq<byte>)
    requires |s| % CHUNK == 0
    ensures ChainingValues(f, s + t) == ChainingValues(f, s) + ChainingValues(f, t)
    decreases |s|
  {
    hide TurboShake;
    if s == [] {
      assert s + t == t;
    } else {
      ChainingValuesAppend(f, s[CHUNK..], t);
      assert (s + t)[..CHUNK] == s[..CHUNK] && (s + t)[CHUNK..] == s[CHUNK..] + t;
      assert |s| == CHUNK ==> s[..CHUNK] == s && s[CHUNK..] == [];
      assert t == [] ==> s + t == s;
    }
  }

  lemma {:induction false} IndexAfter(f: Permutation, m: seq<byte>)
    ensures Absorbed(f, FRESH, m).index == |m| % RATE
  {
    if m != [] { IndexAfter(f, m[..|m| - 1]); }
  }

  /** Closes a leaf and absorbs its chaining value into the final node. */
  method CloseLeaf(f: Permutation, queue: Node, final: Node, ghost chunk: seq<byte>, ghost head: seq<byte>)
    requires queue.Valid() && final.Valid() && queue != final && queue.state != final.state
    requires queue.Abs() == Absorbed(f, FRESH, chunk) && final.Abs() == Absorbed(f, FRESH, head)
    modifies queue.state, final, final.state
    ensures final.Valid() && final.Abs() == Absorbed(f, FRESH, head + TurboShake(f, chunk, 0x0B, CAPACITY))
  {
    hide Absorbed, Finish, TurboShake;
    queue.Close(f, 0x0B);
    FinishIsTurboShake(f, chunk, 0x0B, CAPACITY);
    final.Absorb(f, queue.state[..CAPACITY]);
    AbsorbSplit(f, FRESH, head, queue.state[..CAPACITY]);
  }

  /** What the queue holds between the chunks of the leaf loop. */
  ghost predicate Pending(f: Permutation, queue: Node, queueAbsorbedLen: nat, pending: seq<byte>)
    reads queue, queue.state
  {
    && |pending| == queueAbsorbedLen < CHUNK
    && (queueAbsorbedLen > 0 ==> queue.Valid() && queue.Abs() == Absorbed(f, FRESH, pending))
  }

  /** The leaf loop: every whole chunk of `rest` becomes a chaining value, a last partial one stays
      in the queue. */
  method LeafLoop(f: Permutation, final: Node, rest: seq<byte>, ghost head: seq<byte>)
    returns (blockNumber: nat, queue: Node, queueAbsorbedLen: nat, ghost done: seq<byte>, ghost pending: seq<byte>)
    requires final.Valid() && final.Abs() == Absorbed(f, FRESH, head)
    modifies final, final.state
    ensures fresh(queue) && fresh(queue.state)
    ensures rest == done + pending && |done| % CHUNK == 0 && blockNumber == 1 + |done| / CHUNK
    ensures Pending(f, queue, queueAbsorbedLen, pending)
    ensures final.Valid() && final.Abs() == Absorbed(f, FRESH, head + ChainingValues(f, done))
  {
    hide Absorbed, TurboShake, Node.Abs;
    blockNumber, queueAbsorbedLen := 1, 0;
    queue := new Node();
    var left := rest;
    done, pending := [], [];
    assert head + ChainingValues(f, []) == head;
    while |left| > 0
      invariant fresh(queue) && fresh(queue.state)
      invariant rest == done + pending + left && |done| % CHUNK == 0 && blockNumber == 1 + |done| / CHUNK
      invariant Pending(f, queue, queueAbsorbedLen, pending) && (left != [] ==> pending == [])
      invariant final.Valid() && final.Abs() == Absorbed(f, FRESH, head + ChainingValues(f, done))
      decreases |left|
    {
      var len := if |left| < CHUNK then |left| else CHUNK;
      var chunk := left[..len];
      assert left == chunk + left[len..];
      left := left[len..];
      queue := new Node();
      queue.Absorb(f, chunk);
      if len == CHUNK {
        blockNumber := blockNumber + 1;
        CloseLeaf(f, queue, final, chunk, head + ChainingValues(f, done));
        ChainingValuesAppend(f, done, chunk);
        assert head + ChainingValues(f, done) + TurboShake(f, chunk, 0x0B, CAPACITY) == head + ChainingValues(f, done + chunk);
        done := done + chunk;
      } else {
        queueAbsorbedLen := len;
        pending := chunk;
      }
    }
  }

  /** The chunks of rest + [0]: the queue takes the zero byte and is closed, at once when that
      fills its chunk. */
  method LastLeaf(f: Permutation, final: Node, rest: seq<byte>, ghost head: seq<byte>) returns (blockNumber: nat)
    requires final.Valid() && final.Abs() == Absorbed(f, FRESH, head)
    modifies final, final.state
    ensures blockNumber == 1 + ChunkCount(|rest| + 1)
    ensures final.Valid() && final.Abs() == Absorbed(f, FRESH, head + ChainingValues(f, rest + [0]))
  {
    hide Absorbed, TurboShake, Node.Abs;
    var queue, queueAbsorbedLen;
    ghost var done, pending;
    blockNumber, queue, queueAbsorbedLen, done, pending := LeafLoop(f, final, rest, head);
    ghost var h := head + ChainingValues(f, done);
    if queueAbsorbedLen > 0 {
      queue.Skip(f);
      AbsorbSplit(f, FRESH, pending, [0]);
      queueAbsorbedLen := queueAbsorbedLen + 1;
      if queueAbsorbedLen == CHUNK {
        blockNumber := blockNumber + 1;
        queueAbsorbedLen := 0;
        CloseLeaf(f, queue, final, pending + [0], h);
      }
    } else {
      queue := new Node();
      queue.Skip(f);
      assert pending + [0] == [0];
      queueAbsorbedLen := 1;
    }
    if queueAbsorbedLen > 0 {
      blockNumber := blockNumber + 1;
      CloseLeaf(f, queue, final, pending + [0], h);
    }
    ChainingValuesAppend(f, done, pending + [0]);
    assert rest + [0] == done + (pending + [0]);
    assert h + TurboShake(f, pending + [0], 0x0B, CAPACITY) == head + ChainingValues(f, rest + [0]);
  }

  // ----- The encoded number of leaves -----

  function Shifted(x: nat, k: nat): nat {
    if k == 0 then x else Shifted(x / 256, k - 1)
  }

  lemma {:induction false} BigEndianAt(x: nat, k: nat)
    requires k < |BigEndian(x)|
    ensures BigEndian(x)[|BigEndian(x)| - 1 - k] == Shifted(x, k) % 256
  {
    if k > 0 { BigEndianAt(x / 256, k - 1); }
  }

  /** The length-encoding buffer of the final node, followed by the two 0xFF bytes. */
  method EncodeLength(x: nat) returns (encbuf: seq<byte>)
    requires x < 0x1_0000_0000
    ensures |BigEndian(x)| <= 4 && encbuf == LengthEncode(x) + [0xFF, 0xFF]
  {
    BigEndianLength(x, 4);
    var n, v := 0, x;
    while v != 0 && n < 8
      invariant n + |BigEndian(v)| == |BigEndian(x)|
    {
      n, v := n + 1, v / 256;
    }
    var buf := new byte[11];
    for i := 1 to n + 1
      invariant forall j :: 0 <= j < i - 1 ==> buf[j] == BigEndian(x)[j]
    {
      buf[i - 1] := Shifted(x, n - i) % 256;
      BigEndianAt(x, n - i);
    }
    buf[n] := n;
    buf[n + 1] := 0xFF;
    buf[n + 2] := 0xFF;
    encbuf := buf[..n + 3];
  }

  // ----- KangarooTwelve -----

  lemma {:induction false} TreeMessage(f: Permutation, input: seq<byte>)
    requires CHUNK <= |input| < 0x1_0000_0000
    ensures |BigEndian(ChunkCount(|input| - CHUNK + 1))| <= 4
    ensures FinalNode(f, input + [0])
         == input[..CHUNK] + TREE_MARK + ChainingValues(f, input[CHUNK..] + [0])
            + (LengthEncode(ChunkCount(|input| - CHUNK + 1)) + [0xFF, 0xFF])
  {
    hide ChainingValues, BigEndian;
    BigEndianLength(ChunkCount(|input| - CHUNK + 1), 4);
    var s := input + [0];
    assert s[..CHUNK] == input[..CHUNK] && s[CHUNK..] == input[CHUNK..] + [0];
  }

  /** The first outLen bytes of KT128 of the input, for every input shorter than 2^32 bytes. */
  method Hash(f: Permutation, input: seq<byte>, outLen: nat) returns (output: seq<byte>)
    requires |input| < 0x1_0000_0000 && outLen <= RATE
    ensures output == KT128(f, input, outLen)
  {
    hide Absorbed, TurboShake, Finish, Node.Abs, BigEndian, ChainingValues;
    var final := new Node();
    var len := if CHUNK < |input| then CHUNK else |input|;
    final.Absorb(f, input[..len]);
    if len == CHUNK {
      output := Tree(f, final, input, outLen);
    } else {
      assert input[..len] == input;
      final.Skip(f);
      AbsorbSplit(f, FRESH, input, [0]);
      final.Close(f, 0x07);
      FinishIsTurboShake(f, input + [0], 0x07, outLen);
      output := final.state[..outLen];
    }
  }

  method Tree(f: Permutation, final: Node, input: seq<byte>, outLen: nat) returns (output: seq<byte>)
    requires CHUNK <= |input| < 0x1_0000_0000 && outLen <= RATE
    requires final.Valid() && final.Abs() == Absorbed(f, FRESH, input[..CHUNK])
    modifies final, final.state
    ensures output == TurboShake(f, FinalNode(f, input + [0]), 0x06, outLen)
  {
    hide Absorbed, TurboShake, Finish, BigEndian, ChainingValues, LengthEncode, FinalNode;
    IndexAfter(f, input[..CHUNK]);
    final.MarkTree(f);
    assert TREE_MARK == [3] + Zeros(7);
    ghost var head := input[..CHUNK] + TREE_MARK;
    AbsorbSplit(f, FRESH, input[..CHUNK], TREE_MARK);
    var blockNumber := LastLeaf(f, final, input[CHUNK..], head);
    blockNumber := blockNumber - 1;
    var encbuf := EncodeLength(blockNumber);
    final.Absorb(f, encbuf);
    ghost var leaves := ChainingValues(f, input[CHUNK..] + [0]);
    AbsorbSplit(f, FRESH, head + leaves, encbuf);
    TreeMessage(f, input);
    final.Close(f, 0x06);
    FinishIsTurboShake(f, FinalNode(f, input + [0]), 0x06, outLen);
    output := final.state[..outLen];
  }

  /** Shorter outputs are prefixes of longer ones. */
  lemma OutputPrefix(f: Permutation, m: seq<byte>, short: nat, long: nat)
    requires short <= long <= RATE && |m| < 0x1_0000_0000
    ensures KT128(f, m, long)[..short] == KT128(f, m, short)
  {
  }
}
