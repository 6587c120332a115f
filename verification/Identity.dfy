/** Identities: a public key as four base-26 fragments of fourteen letters and a four-letter
    checksum. */
module Identity {
  import opened Wrappers
  import opened Words
  import opened Bytes
  import opened Sponge
  import opened KangarooTwelve

  /** The first three bytes of the key's hash. */
  type CheckHash = seq<byte> -> nat

  const POW26_4 := 456976
  const POW26_14 := 64509974703297150976

  // ----- Base 26 -----

  /** n letters, least significant first. */
  function Letters(x: nat, n: nat, base: char): (s: string)
    requires base == 'A' || base == 'a'
    ensures |s| == n
  {
    if n == 0 then [] else [(x % 26 + base as int) as char] + Letters(x / 26, n - 1, base)
  }

  predicate Upper(s: string) {
    forall i :: 0 <= i < |s| ==> 'A' <= s[i] <= 'Z'
  }

  function Value(s: string): nat
    requires Upper(s)
  {
    if s == [] then 0 else s[0] as int - 'A' as int + 26 * Value(s[1..])
  }

  function Pow26(n: nat): (p: nat)
    ensures p > 0
  {
    if n == 0 then 1 else 26 * Pow26(n - 1)
  }

  /** Fourteen letters are enough for 64 bits, and more than enough. */
  lemma Capacity()
    ensures Pow26(4) == POW26_4 && Pow26(14) == POW26_14 > TWO64
  {
    assert Pow26(4) == 26 * Pow26(3) && Pow26(3) == 26 * Pow26(2) && Pow26(2) == 26 * Pow26(1) && Pow26(1) == 26 * Pow26(0);
    Times26(4, 6);
    Times26(6, 8);
    Times26(8, 10);
    Times26(10, 12);
    Times26(12, 14);
  }

  lemma Times26(m: nat, n: nat)
    requires n == m + 2
    ensures Pow26(n) == 676 * Pow26(m)
  {
    assert Pow26(n) == 26 * Pow26(n - 1) && Pow26(n - 1) == 26 * Pow26(m);
  }

  lemma {:induction false} LettersUpper(x: nat, n: nat)
    ensures Upper(Letters(x, n, 'A'))
  {
    if n > 0 { LettersUpper(x / 26, n - 1); }
  }

  lemma {:induction false} ValueOfLetters(x: nat, n: nat)
    requires x < Pow26(n)
    ensures Upper(Letters(x, n, 'A')) && Value(Letters(x, n, 'A')) == x
  {
    LettersUpper(x, n);
    if n > 0 {
      ValueOfLetters(x / 26, n - 1);
      assert Letters(x, n, 'A')[1..] == Letters(x / 26, n - 1, 'A');
    }
  }

  lemma {:induction false} LettersOfValue(s: string)
    requires Upper(s)
    ensures Value(s) < Pow26(|s|) && Letters(Value(s), |s|, 'A') == s
  {
    if s != [] {
      LettersOfValue(s[1..]);
      var d, v := s[0] as int - 'A' as int, Value(s[1..]);
      assert (d + 26 * v) % 26 == d && (d + 26 * v) / 26 == v;
    }
  }

  // ----- One fragment -----

  lemma NextLetter(x: nat, n: nat, base: char)
    requires n > 0 && (base == 'A' || base == 'a')
    ensures Letters(x, n, base) == [(x % 26 + base as int) as char] + Letters(x / 26, n - 1, base)
  {
  }

  /** Fourteen digits by repeated division. */
  method EncodeFragment(x: nat, n: nat, base: char) returns (s: string)
    requires base == 'A' || base == 'a'
    ensures s == Letters(x, n, base)
  {
    hide Letters;
    s := [];
    var rest: nat := x;
    for j := 0 to n
      invariant s + Letters(rest, n - j, base) == Letters(x, n, base)
    {
      NextLetter(rest, n - j, base);
      s := s + [(rest % 26 + base as int) as char];
      rest := rest / 26;
    }
  }

  /** Horner's rule from the last letter, in a 64-bit word that wraps. */
  method DecodeFragment(s: string) returns (v: Option<u64>)
    ensures v == if Upper(s) then Some(Value(s) % TWO64) else None
  {
    var acc: u64 := 0;
    var j := |s|;
    assert s[|s|..] == [];
    while j > 0
      invariant 0 <= j <= |s| && Upper(s[j..]) && acc == Value(s[j..]) % TWO64
    {
      j := j - 1;
      if s[j] < 'A' || s[j] > 'Z' {
        assert !Upper(s);
        return None;
      }
      UpperFront(s, j);
      var d := s[j] as int - 'A' as int;
      WrapStep(acc, Value(s[j + 1..]), d);
      acc := (acc * 26 + d) % TWO64;
    }
    assert s[0..] == s;
    v := Some(acc);
  }

  lemma UpperFront(s: string, j: nat)
    requires j < |s| && Upper(s[j + 1..]) && 'A' <= s[j] <= 'Z'
    ensures Upper(s[j..]) && Value(s[j..]) == s[j] as int - 'A' as int + 26 * Value(s[j + 1..])
  {
    assert s[j..] == [s[j]] + s[j + 1..];
    assert s[j..][1..] == s[j + 1..];
  }

  lemma WrapStep(acc: u64, v: nat, d: nat)
    requires acc == v % TWO64
    ensures (acc * 26 + d) % TWO64 == (d + 26 * v) % TWO64
  {
    var q := v / TWO64;
    assert v == q * TWO64 + acc;
    var x: int := acc * 26 + d;
    DivModUnique(d + 26 * v, 26 * q + x / TWO64, x % TWO64, TWO64);
  }

  // ----- Whole identities -----

  function KeyWord(key: Bytes32, i: nat): nat
    requires i < 4
  {
    LittleEndian(key[8 * i..8 * i + 8])
  }

  lemma KeyWordBound(key: Bytes32, i: nat)
    requires i < 4
    ensures KeyWord(key, i) < TWO64
  {
    hide LittleEndian, Pow2;
    LittleEndianBound(key[8 * i..8 * i + 8]);
    Pow2Values();
  }

  /** The first three bytes of the key's KangarooTwelve hash. */
  function KeyHash(f: Permutation): CheckHash {
    key => if |key| == 32 then LittleEndian(KT128(f, key, 3)) else 0
  }

  method HashKey(f: Permutation, key: Bytes32) returns (c: nat)
    ensures c == KeyHash(f)(key)
  {
    var b := Hash(f, key, 3);
    c := LittleEndian(b);
  }

  /** The checksum is the hash masked with 0x3FFFF. */
  lemma ChecksumIsMasked(check: CheckHash, key: Bytes32)
    ensures Checksum(check, key) == And(check(key), 0x3FFFF)
  {
    var n := 18;
    assert Pow2(n) == 0x40000 by { EighteenBits(n); }
    MaskIsRemainder(check(key), n);
  }

  lemma EighteenBits(n: nat)
    requires n == 18
    ensures Pow2(n) == 0x40000
  {
    Pow2Add(8, 10);
    Pow2Add(2, 8);
    assert Pow2(8) == 256 && Pow2(2) == 4;
  }

  /** Eighteen bits of the hash. */
  function Checksum(check: CheckHash, key: Bytes32): (c: nat)
    ensures c < 0x40000
  {
    check(key) % 0x40000
  }

  function IdentityOf(check: CheckHash, key: Bytes32, base: char): (id: string)
    requires base == 'A' || base == 'a'
    ensures |id| == 60
  {
    Letters(KeyWord(key, 0), 14, base) + Letters(KeyWord(key, 1), 14, base) + Letters(KeyWord(key, 2), 14, base)
      + Letters(KeyWord(key, 3), 14, base) + Letters(Checksum(check, key), 4, base)
  }

  function Fragment(id: string, i: nat): (f: string)
    requires |id| == 60 && i < 4
    ensures |f| == 14
  {
    id[14 * i..14 * i + 14]
  }

  predicate AllUpper(id: string)
    requires |id| == 60
  {
    Upper(Fragment(id, 0)) && Upper(Fragment(id, 1)) && Upper(Fragment(id, 2)) && Upper(Fragment(id, 3))
  }

  function KeyOf(id: string): (key: Bytes32)
    requires |id| == 60 && AllUpper(id)
  {
    ToBytes(Value(Fragment(id, 0)) % TWO64, 8) + ToBytes(Value(Fragment(id, 1)) % TWO64, 8)
      + ToBytes(Value(Fragment(id, 2)) % TWO64, 8) + ToBytes(Value(Fragment(id, 3)) % TWO64, 8)
  }

  /** getIdentityFromPublicKey. */
  method Encode(check: CheckHash, key: Bytes32, lower: bool) returns (id: string)
    ensures id == IdentityOf(check, key, if lower then 'a' else 'A')
  {
    hide Letters, LittleEndian;
    var base := if lower then 'a' else 'A';
    id := [];
    for i := 0 to 4
      invariant i == 0 ==> id == []
      invariant i == 1 ==> id == Letters(KeyWord(key, 0), 14, base)
      invariant i == 2 ==> id == Letters(KeyWord(key, 0), 14, base) + Letters(KeyWord(key, 1), 14, base)
      invariant i == 3 ==> id == Letters(KeyWord(key, 0), 14, base) + Letters(KeyWord(key, 1), 14, base) + Letters(KeyWord(key, 2), 14, base)
      invariant i == 4 ==> id == Letters(KeyWord(key, 0), 14, base) + Letters(KeyWord(key, 1), 14, base) + Letters(KeyWord(key, 2), 14, base) + Letters(KeyWord(key, 3), 14, base)
    {
      var f := EncodeFragment(KeyWord(key, i), 14, base);
      id := id + f;
    }
    var c := EncodeFragment(Checksum(check, key), 4, base);
    id := id + c;
  }

  /** getPublicKeyFromIdentity: nothing is written when a letter is not upper case. */
  method Decode(id: string) returns (key: Option<Bytes32>)
    requires |id| == 60
    ensures key == if AllUpper(id) then Some(KeyOf(id)) else None
  {
    hide Upper, Value, ToBytes;
    var buf := new byte[32];
    for i := 0 to 4
      invariant forall j :: 0 <= j < i ==> Upper(Fragment(id, j))
      invariant forall j :: 0 <= j < i ==> buf[8 * j..8 * j + 8] == ToBytes(Value(Fragment(id, j)) % TWO64, 8)
    {
      var w := DecodeFragment(id[i * 14..i * 14 + 14]);
      assert id[i * 14..i * 14 + 14] == Fragment(id, i);
      if w.None? { return None; }
      var b := ToBytes(w.value, 8);
      StoreFragment(buf, i, b, id);
    }
    assert buf[..] == buf[8 * 0..8 * 0 + 8] + buf[8 * 1..8 * 1 + 8] + buf[8 * 2..8 * 2 + 8] + buf[8 * 3..8 * 3 + 8];
    key := Some(buf[..]);
  }

  method StoreFragment(buf: array<byte>, i: nat, b: Bytes8, ghost id: string)
    requires buf.Length == 32 && i < 4
    modifies buf
    ensures buf[8 * i..8 * i + 8] == b
    ensures forall j :: 0 <= j < i ==> buf[8 * j..8 * j + 8] == old(buf[8 * j..8 * j + 8])
  {
    forall k | 0 <= k < 8 { buf[8 * i + k] := b[k]; }
  }

  predicate ChecksumMatches(check: CheckHash, id: string)
    requires |id| == 60
  {
    AllUpper(id) && id[56..60] == Letters(Checksum(check, KeyOf(id)), 4, 'A')
  }

  /** checkSumIdentity: the checksum letters compared one by one. */
  method CheckIdentity(check: CheckHash, id: string) returns (ok: bool)
    requires |id| == 60
    ensures ok <==> ChecksumMatches(check, id)
  {
    hide Upper, Value, ToBytes, Letters;
    var key := Decode(id);
    if key.None? { return false; }
    var c := Checksum(check, key.value);
    var whole := Letters(c, 4, 'A');
    var rest: nat := c;
    for i := 0 to 4
      invariant (forall k :: 0 <= k < i ==> id[56 + k] == whole[k]) && Letters(rest, 4 - i, 'A') == whole[i..]
    {
      NextLetter(rest, 4 - i, 'A');
      assert whole[i] == whole[i..][0] == (rest % 26 + 'A' as int) as char;
      assert whole[i + 1..] == whole[i..][1..];
      if (rest % 26 + 'A' as int) as char != id[56 + i] {
        assert id[56..60][i] != whole[i];
        return false;
      }
      rest := rest / 26;
    }
    assert id[56..60] == whole;
    return true;
  }

  // ----- Round trips -----

  lemma FragmentsOf(check: CheckHash, key: Bytes32, base: char)
    requires base == 'A' || base == 'a'
    ensures var id := IdentityOf(check, key, base);
      && (forall i :: 0 <= i < 4 ==> Fragment(id, i) == Letters(KeyWord(key, i), 14, base))
      && id[56..60] == Letters(Checksum(check, key), 4, base)
  {
    hide Letters, KeyWord;
    var id := IdentityOf(check, key, base);
    assert Fragment(id, 0) == Letters(KeyWord(key, 0), 14, base);
    assert Fragment(id, 1) == Letters(KeyWord(key, 1), 14, base);
    assert Fragment(id, 2) == Letters(KeyWord(key, 2), 14, base);
    assert Fragment(id, 3) == Letters(KeyWord(key, 3), 14, base);
  }

  lemma {:induction false} FragmentValue(check: CheckHash, key: Bytes32, i: nat)
    requires i < 4
    ensures var f := Fragment(IdentityOf(check, key, 'A'), i);
      Upper(f) && Value(f) == KeyWord(key, i) < TWO64 && ToBytes(Value(f) % TWO64, 8) == key[8 * i..8 * i + 8]
  {
    hide IdentityOf, Letters, Value, Upper, Pow26, LittleEndian, ToBytes;
    FragmentsOf(check, key, 'A');
    KeyWordBound(key, i);
    Capacity();
    ValueOfLetters(KeyWord(key, i), 14);
    DivModUnique(KeyWord(key, i), 0, KeyWord(key, i), TWO64);
    RoundTripBytes(key[8 * i..8 * i + 8]);
  }

  /** Every key comes back from its upper-case identity, whose checksum is right. */
  lemma RoundTrip(check: CheckHash, key: Bytes32)
    ensures var id := IdentityOf(check, key, 'A'); AllUpper(id) && KeyOf(id) == key && ChecksumMatches(check, id)
  {
    hide IdentityOf, Letters, Value, Upper, ToBytes, Fragment;
    FragmentValue(check, key, 0);
    FragmentValue(check, key, 1);
    FragmentValue(check, key, 2);
    FragmentValue(check, key, 3);
    FragmentsOf(check, key, 'A');
    assert key == key[0..8] + key[8..16] + key[16..24] + key[24..32];
  }

  /** A lower-case identity is never decoded. */
  lemma LowerCaseRejected(check: CheckHash, key: Bytes32)
    ensures !AllUpper(IdentityOf(check, key, 'a'))
  {
    hide IdentityOf;
    FragmentsOf(check, key, 'a');
    var f := Fragment(IdentityOf(check, key, 'a'), 0);
    assert f[0] >= 'a';
  }

  /** Each fragment says a 64-bit word. */
  predicate Fits(id: string)
    requires |id| == 60
  {
    forall i :: 0 <= i < 4 ==> Upper(Fragment(id, i)) && Value(Fragment(id, i)) < TWO64
  }

  /** Decoding then encoding gives an identity back exactly when its checksum is right and each
      fragment is below 2^64; fourteen letters can say more, and then the word wraps. */
  lemma Canonical(check: CheckHash, id: string)
    requires |id| == 60 && AllUpper(id)
    ensures IdentityOf(check, KeyOf(id), 'A') == id <==> ChecksumMatches(check, id) && Fits(id)
  {
    hide IdentityOf, ChecksumMatches, KeyOf, Fits, AllUpper;
    if IdentityOf(check, KeyOf(id), 'A') == id {
      RoundTrip(check, KeyOf(id));
      EncodedFits(check, KeyOf(id));
    }
    if ChecksumMatches(check, id) && Fits(id) { DecodedBack(check, id); }
  }

  lemma EncodedFits(check: CheckHash, key: Bytes32)
    ensures Fits(IdentityOf(check, key, 'A'))
  {
    hide IdentityOf, Value, Upper, ToBytes, Fragment;
    forall i | 0 <= i < 4 ensures Upper(Fragment(IdentityOf(check, key, 'A'), i)) && Value(Fragment(IdentityOf(check, key, 'A'), i)) < TWO64 {
      FragmentValue(check, key, i);
    }
  }

  lemma {:induction false} DecodedBack(check: CheckHash, id: string)
    requires |id| == 60 && ChecksumMatches(check, id) && Fits(id)
    ensures IdentityOf(check, KeyOf(id), 'A') == id
  {
    hide IdentityOf, Letters, Value, Upper, ToBytes, KeyOf, Fragment;
    var key := KeyOf(id);
    FragmentsOf(check, key, 'A');
    forall i | 0 <= i < 4 ensures Fragment(id, i) == Letters(KeyWord(key, i), 14, 'A') {
      WordOfKey(id, i);
      DivModUnique(Value(Fragment(id, i)), 0, Value(Fragment(id, i)), TWO64);
      LettersOfValue(Fragment(id, i));
    }
    SameParts(id, IdentityOf(check, key, 'A'));
  }

  lemma {:induction false} WordOfKey(id: string, i: nat)
    requires |id| == 60 && AllUpper(id) && i < 4
    ensures Upper(Fragment(id, i)) && KeyWord(KeyOf(id), i) == Value(Fragment(id, i)) % TWO64
  {
    hide Value, Upper, ToBytes, LittleEndian, Fragment;
    var w := Value(Fragment(id, i)) % TWO64;
    assert KeyOf(id)[8 * i..8 * i + 8] == ToBytes(w, 8);
    Pow2Values();
    RoundTripNumber(w, 8);
  }

  lemma SameParts(a: string, b: string)
    requires |a| == |b| == 60 && a[56..60] == b[56..60] && forall i :: 0 <= i < 4 ==> Fragment(a, i) == Fragment(b, i)
    ensures a == b
  {
    assert a == Fragment(a, 0) + Fragment(a, 1) + Fragment(a, 2) + Fragment(a, 3) + a[56..60];
    assert b == Fragment(b, 0) + Fragment(b, 1) + Fragment(b, 2) + Fragment(b, 3) + b[56..60];
  }

  /** The wrap is real: the fragments of 0 and of 2^64 differ and decode to the same word. */
  lemma {:induction false} TwoFragmentsOneWord()
    ensures var a, b := Letters(0, 14, 'A'), Letters(TWO64, 14, 'A');
      Upper(a) && Upper(b) && a != b && Value(a) % TWO64 == Value(b) % TWO64
  {
    Capacity();
    hide Letters, Value, Pow26;
    ValueOfLetters(0, 14);
    ValueOfLetters(TWO64, 14);
  }
}
