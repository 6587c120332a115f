/** HMAC-SHA256 and PBKDF2, with the HMAC state of password and salt saved and copied for every
    output block. */
module Pbkdf2 {
  import opened Bytes
  import opened Words
  import opened Sha256

  // ----- The references -----

  /** The key as a 64-byte block: hashed when longer, zero-filled when shorter. */
  function KeyBlock(f: Compression, key: seq<byte>): (k: seq<byte>)
    ensures |k| == 64
  {
    var k := if |key| > 64 then Digest(f, key) else key;
    k + Zeros(64 - |k|)
  }

  function Masked(mask: byte, k: seq<byte>): (r: seq<byte>)
    requires |k| == 64
    ensures |r| == 64
  {
    seq(64, i requires 0 <= i < 64 => XorByte(mask, k[i]))
  }

  function Hmac(f: Compression, key: seq<byte>, m: seq<byte>): (d: seq<byte>)
    ensures |d| == 32
  {
    Digest(f, Masked(0x5c, KeyBlock(f, key)) + Digest(f, Masked(0x36, KeyBlock(f, key)) + m))
  }

  function XorSeq(a: seq<byte>, b: seq<byte>): (r: seq<byte>)
    requires |a| == |b|
    ensures |r| == |a|
  {
    seq(|a|, i requires 0 <= i < |a| => XorByte(a[i], b[i]))
  }

  /** U_j of section 5.2 of RFC 8018, j >= 1. */
  function U(f: Compression, password: seq<byte>, salt: seq<byte>, i: u32, j: nat): (u: seq<byte>)
    requires j >= 1
    ensures |u| == 32
  {
    if j == 1 then Hmac(f, password, salt + BigEndian32(i)) else Hmac(f, password, U(f, password, salt, i, j - 1))
  }

  /** T_i: the exclusive or of U_1 to U_c. */
  function T(f: Compression, password: seq<byte>, salt: seq<byte>, c: nat, i: u32): (t: seq<byte>)
    requires c >= 1
    ensures |t| == 32
  {
    if c == 1 then U(f, password, salt, i, 1) else XorSeq(T(f, password, salt, c - 1, i), U(f, password, salt, i, c))
  }

  /** T_1 to T_n in a row. */
  function Blocks(f: Compression, password: seq<byte>, salt: seq<byte>, c: nat, n: nat): (b: seq<byte>)
    requires c >= 1 && n < TWO32
    ensures |b| == 32 * n
  {
    if n == 0 then [] else Blocks(f, password, salt, c, n - 1) + T(f, password, salt, c, n)
  }

  function DerivedKey(f: Compression, password: seq<byte>, salt: seq<byte>, c: nat, dkLen: nat): (dk: seq<byte>)
    requires c >= 1 && dkLen <= 32 * (TWO32 - 1)
    ensures |dk| == dkLen
  {
    Blocks(f, password, salt, c, (dkLen + 31) / 32)[..dkLen]
  }

  /** A key longer than a block stands for its digest. */
  lemma LongKeyIsHashed(f: Compression, key: seq<byte>, m: seq<byte>)
    requires |key| > 64
    ensures Hmac(f, key, m) == Hmac(f, Digest(f, key), m)
  {
    hide Digest, Masked;
    assert KeyBlock(f, key) == KeyBlock(f, Digest(f, key));
  }

  /** Short keys are told apart by their blocks, up to trailing zeros. */
  lemma ShortKeyBlock(f: Compression, key: seq<byte>)
    requires |key| <= 64
    ensures KeyBlock(f, key)[..|key|] == key && forall i :: |key| <= i < 64 ==> KeyBlock(f, key)[i] == 0
  {
    hide Digest;
  }

  /** Section 5.2 of RFC 8018 step by step: each U is the HMAC of the one before, the first of the salt
      and the block number, and T collects their exclusive or. */
  ghost predicate IsIteration(f: Compression, password: seq<byte>, salt: seq<byte>, c: nat, i: u32, us: seq<seq<byte>>, ts: seq<seq<byte>>) {
    && |us| == |ts| == c && (forall j :: 0 <= j < c ==> |us[j]| == 32 && |ts[j]| == 32)
    && (c > 0 ==> us[0] == ts[0] == Hmac(f, password, salt + BigEndian32(i)))
    && (forall j :: 0 <= j < c - 1 ==> us[j + 1] == Hmac(f, password, us[j]) && ts[j + 1] == XorSeq(ts[j], us[j + 1]))
  }

  /** T_i is the end of every such iteration. */
  lemma {:induction false} IterationEnds(f: Compression, password: seq<byte>, salt: seq<byte>, c: nat, i: u32, us: seq<seq<byte>>, ts: seq<seq<byte>>, j: nat)
    requires IsIteration(f, password, salt, c, i, us, ts) && j < c
    ensures us[j] == U(f, password, salt, i, j + 1) && ts[j] == T(f, password, salt, j + 1, i)
  {
    hide Hmac, XorSeq, BigEndian32;
    if j > 0 {
      IterationEnds(f, password, salt, c, i, us, ts, j - 1);
      assert us[j - 1 + 1] == Hmac(f, password, us[j - 1]) && ts[j - 1 + 1] == XorSeq(ts[j - 1], us[j - 1 + 1]);
    }
  }

  /** Block i of the derived key is T_i, cut off at its length. */
  lemma {:induction false} DerivedBlock(f: Compression, password: seq<byte>, salt: seq<byte>, c: nat, n: nat, i: nat)
    requires c >= 1 && n < TWO32 && 1 <= i <= n
    ensures Blocks(f, password, salt, c, n)[32 * (i - 1)..32 * i] == T(f, password, salt, c, i)
  {
    hide T;
    if i < n {
      DerivedBlock(f, password, salt, c, n - 1, i);
      var b := Blocks(f, password, salt, c, n - 1);
      assert (b + T(f, password, salt, c, n))[32 * (i - 1)..32 * i] == b[32 * (i - 1)..32 * i];
    }
  }

  lemma XorSeqCancel(a: seq<byte>, b: seq<byte>)
    requires |a| == |b|
    ensures XorSeq(XorSeq(a, b), b) == a
  {
    forall i | 0 <= i < |a| ensures XorByte(XorByte(a[i], b[i]), b[i]) == a[i] { XorCancel(a[i], b[i]); }
  }

  // ----- HMAC contexts -----

  class HmacContext {
    const ictx: Context
    const octx: Context

    ghost predicate Holds(f: Compression, key: seq<byte>, m: seq<byte>)
      reads this, ictx, octx, ictx.buf, octx.buf
    {
      && ictx != octx && ictx.buf != octx.buf
      && ictx.Holds(f, Masked(0x36, KeyBlock(f, key)) + m)
      && octx.Holds(f, Masked(0x5c, KeyBlock(f, key)))
    }

    constructor (f: Compression, key: seq<byte>)
      requires |key| < TWO64
      ensures fresh(ictx) && fresh(octx) && fresh(ictx.buf) && fresh(octx.buf) && Holds(f, key, [])
    {
      hide Compressed, LeftOver, Digest, Masked;
      var k := key;
      if |key| > 64 {
        var kctx := new Context(f);
        kctx.Update(f, key, []);
        assert [] + key == key;
        k := Final(f, kctx, key);
      }
      var ipad := Mask(0x36, k);
      var opad := Mask(0x5c, k);
      var i := new Context(f);
      i.Update(f, ipad, []);
      var o := new Context(f);
      o.Update(f, opad, []);
      ictx, octx := i, o;
      new;
      assert [] + ipad == ipad && [] + opad == opad && ipad + [] == ipad;
    }

    constructor Copy(other: HmacContext, f: Compression, ghost key: seq<byte>, ghost m: seq<byte>)
      requires other.Holds(f, key, m)
      ensures fresh(ictx) && fresh(octx) && fresh(ictx.buf) && fresh(octx.buf) && Holds(f, key, m)
    {
      hide Compressed, LeftOver, Digest, Masked;
      var i := new Context.Copy(other.ictx, f, Masked(0x36, KeyBlock(f, key)) + m);
      var o := new Context.Copy(other.octx, f, Masked(0x5c, KeyBlock(f, key)));
      ictx, octx := i, o;
    }

    method Update(f: Compression, data: seq<byte>, ghost key: seq<byte>, ghost m: seq<byte>)
      requires Holds(f, key, m) && |data| < TWO64
      modifies ictx, ictx.buf
      ensures Holds(f, key, m + data)
    {
      hide Compressed, LeftOver, Digest, Masked, KeyBlock;
      ictx.Update(f, data, Masked(0x36, KeyBlock(f, key)) + m);
      assert Masked(0x36, KeyBlock(f, key)) + m + data == Masked(0x36, KeyBlock(f, key)) + (m + data);
    }

    method Finish(f: Compression, ghost key: seq<byte>, ghost m: seq<byte>) returns (digest: seq<byte>)
      requires Holds(f, key, m)
      modifies ictx, octx, ictx.buf, octx.buf
      ensures digest == Hmac(f, key, m)
    {
      hide Compressed, LeftOver, Digest, Masked, KeyBlock;
      var ihash := Final(f, ictx, Masked(0x36, KeyBlock(f, key)) + m);
      octx.Update(f, ihash, Masked(0x5c, KeyBlock(f, key)));
      digest := Final(f, octx, Masked(0x5c, KeyBlock(f, key)) + ihash);
    }
  }

  /** A block of mask bytes with the key xored in. */
  method Mask(mask: byte, k: seq<byte>) returns (r: seq<byte>)
    requires |k| <= 64
    ensures r == Masked(mask, k + Zeros(64 - |k|))
  {
    hide Xor;
    var pad := new byte[64](_ => mask);
    for i := 0 to |k|
      invariant forall j :: 0 <= j < 64 ==> pad[j] == if j < i then XorByte(mask, k[j]) else mask
    {
      pad[i] := XorByte(pad[i], k[i]);
    }
    XorZero(mask);
    r := pad[..];
  }

  /** HMAC of a message in one update. */
  method OneShot(f: Compression, key: seq<byte>, m: seq<byte>) returns (digest: seq<byte>)
    requires |key| < TWO64 && |m| < TWO64
    ensures digest == Hmac(f, key, m)
  {
    hide Hmac;
    var hctx := new HmacContext(f, key);
    hctx.Update(f, m, key, []);
    assert [] + m == m;
    digest := hctx.Finish(f, key, m);
  }

  lemma FirstRound(f: Compression, password: seq<byte>, salt: seq<byte>, i: u32)
    ensures T(f, password, salt, 1, i) == U(f, password, salt, i, 1)
  {
    hide Hmac, XorSeq;
  }

  lemma NextRound(f: Compression, password: seq<byte>, salt: seq<byte>, i: u32, j: nat)
    requires j >= 2
    ensures U(f, password, salt, i, j) == Hmac(f, password, U(f, password, salt, i, j - 1))
    ensures T(f, password, salt, j, i) == XorSeq(T(f, password, salt, j - 1, i), U(f, password, salt, i, j))
  {
    hide Hmac, XorSeq;
  }

  /** T_i from the first U: the inner loop of PBKDF2_SHA256. */
  method Iterate(f: Compression, password: seq<byte>, ghost salt: seq<byte>, c: nat, ghost i: u32, u1: seq<byte>) returns (t: seq<byte>)
    requires |password| < TWO64 && u1 == U(f, password, salt, i, 1)
    ensures t == T(f, password, salt, if c == 0 then 1 else c, i)
  {
    hide Hmac, XorSeq, U, T;
    FirstRound(f, password, salt, i);
    var u := u1;
    var acc := new byte[32];
    forall k | 0 <= k < 32 { acc[k] := u[k]; }
    assert acc[..] == u;
    var j := 2;
    while j <= c
      invariant j >= 2 && (j <= c + 1 || j == 2)
      invariant u == U(f, password, salt, i, j - 1) && acc[..] == T(f, password, salt, j - 1, i)
      decreases c + 1 - j
    {
      NextRound(f, password, salt, i, j);
      u := OneShot(f, password, u);
      XorInPlace(acc, u);
      j := j + 1;
    }
    t := acc[..];
  }

  method XorInPlace(acc: array<byte>, u: seq<byte>)
    requires acc.Length == |u|
    modifies acc
    ensures acc[..] == XorSeq(old(acc[..]), u)
  {
    hide Xor;
    for k := 0 to |u|
      invariant forall i :: 0 <= i < |u| ==> acc[i] == if i < k then XorByte(old(acc[i]), u[i]) else old(acc[i])
    {
      acc[k] := XorByte(acc[k], u[k]);
    }
  }

  /** PBKDF2_SHA256; c = 0 is treated as c = 1. */
  method DeriveKey(f: Compression, password: seq<byte>, salt: seq<byte>, c: nat, buf: array<byte>, dkLen: nat)
    requires |password| < TWO64 && |salt| < TWO64 && dkLen <= buf.Length && dkLen <= 32 * (TWO32 - 1)
    modifies buf
    ensures buf[..dkLen] == DerivedKey(f, password, salt, if c == 0 then 1 else c, dkLen)
    ensures buf[dkLen..] == old(buf[dkLen..])
  {
    hide Hmac, T, BigEndian32, Blocks, Written, HmacContext.Holds;
    ghost var c' := if c == 0 then 1 else c;
    var saved := new HmacContext(f, password);
    saved.Update(f, salt, password, []);
    assert [] + salt == salt;
    var i := 0;
    NoBlocks(f, password, salt, c', buf[..], dkLen);
    while i * 32 < dkLen
      invariant 0 <= i < TWO32 && fresh(saved.ictx) && fresh(saved.octx) && fresh(saved.ictx.buf) && fresh(saved.octx.buf)
      invariant saved.Holds(f, password, salt)
      invariant i <= (dkLen + 31) / 32
      invariant Written(buf[..], i, dkLen, Blocks(f, password, salt, c', i)) && buf[dkLen..] == old(buf[dkLen..])
      decreases dkLen - i * 32
    {
      var t := OutputBlock(f, password, salt, c, i, saved);
      NextBlock(f, password, salt, c', i);
      WriteBlock(buf, i, dkLen, t, Blocks(f, password, salt, c', i));
      i := i + 1;
    }
    AllWritten(f, password, salt, c', buf[..], i, dkLen);
  }

  /** The first i blocks of the key, as far as it goes, are in place. */
  predicate Written(s: seq<byte>, i: nat, dkLen: nat, blocks: seq<byte>) {
    var n := if 32 * i < dkLen then 32 * i else dkLen;
    |blocks| == 32 * i && n <= |s| && s[..n] == blocks[..n]
  }

  lemma NoBlocks(f: Compression, password: seq<byte>, salt: seq<byte>, c: nat, s: seq<byte>, dkLen: nat)
    requires c >= 1
    ensures Written(s, 0, dkLen, Blocks(f, password, salt, c, 0))
  {
  }

  lemma NextBlock(f: Compression, password: seq<byte>, salt: seq<byte>, c: nat, i: nat)
    requires c >= 1 && i + 1 < TWO32
    ensures Blocks(f, password, salt, c, i + 1) == Blocks(f, password, salt, c, i) + T(f, password, salt, c, i + 1)
  {
    hide T;
  }

  lemma AllWritten(f: Compression, password: seq<byte>, salt: seq<byte>, c: nat, s: seq<byte>, i: nat, dkLen: nat)
    requires c >= 1 && dkLen <= 32 * (TWO32 - 1) && i < TWO32 && i <= (dkLen + 31) / 32 && i * 32 >= dkLen
    requires Written(s, i, dkLen, Blocks(f, password, salt, c, i))
    ensures dkLen <= |s| && s[..dkLen] == DerivedKey(f, password, salt, c, dkLen)
  {
    hide Blocks;
    assert i == (dkLen + 31) / 32;
  }

  /** As many bytes of the block as are still wanted. */
  method WriteBlock(buf: array<byte>, i: nat, dkLen: nat, t: seq<byte>, ghost blocks: seq<byte>)
    requires |t| == 32 && 32 * i < dkLen <= buf.Length && Written(buf[..], i, dkLen, blocks)
    modifies buf
    ensures Written(buf[..], i + 1, dkLen, blocks + t) && buf[dkLen..] == old(buf[dkLen..])
  {
    var clen := if dkLen - i * 32 > 32 then 32 else dkLen - i * 32;
    CopyInto(buf, i * 32, t[..clen]);
    assert buf[dkLen..] == buf[i * 32 + clen..][dkLen - (i * 32 + clen)..];
    assert (blocks + t)[..i * 32 + clen] == blocks + t[..clen];
  }

  method CopyInto(buf: array<byte>, at: nat, data: seq<byte>)
    requires at + |data| <= buf.Length
    modifies buf
    ensures buf[..at + |data|] == old(buf[..at]) + data && buf[at + |data|..] == old(buf[at + |data|..])
  {
    forall k | 0 <= k < |data| { buf[at + k] := data[k]; }
  }

  method OutputBlock(f: Compression, password: seq<byte>, salt: seq<byte>, c: nat, i: nat, saved: HmacContext) returns (t: seq<byte>)
    requires |password| < TWO64 && i + 1 < TWO32 && saved.Holds(f, password, salt)
    ensures t == T(f, password, salt, if c == 0 then 1 else c, i + 1)
  {
    hide Hmac, T, BigEndian32;
    var ivec := BigEndian32(i + 1);
    var hctx := new HmacContext.Copy(saved, f, password, salt);
    hctx.Update(f, ivec, password, salt);
    var u := hctx.Finish(f, password, salt + ivec);
    t := Iterate(f, password, salt, c, i + 1, u);
  }
}
