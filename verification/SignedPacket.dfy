/** A solution packet signed with a derived key, through the dispatcher's own signature check. */
module SignedPacket {
  import opened Wrappers
  import opened Bytes
  import opened Sponge
  import opened KangarooTwelve
  import opened Schnorr
  import opened SolutionPacket
  import TaskPacket
  import Comb

  /** The check processSolution makes: verify, on the KangarooTwelve digest of the signed bytes. */
  ghost function CheckedBy<T(!new)>(f: Permutation, c: Curve<T>, t: nat): Verifier
    requires Sound(c, t)
  {
    (key, body, sig) =>
      |key| == 32 && |sig| == 64 && |body| < 0x1_0000_0000 && Accepts(f, c, t, key, KT128(f, body, 32), sig)
  }

  /** processSolution, with the hash and the signature check run. */
  method ProcessSolution<T(!new)>(f: Permutation, c: Curve<T>, packet: seq<byte>, ghost t: nat) returns (r: Option<Solution>)
    requires Sound(c, t)
    ensures r == Processed(CheckedBy(f, c, t), packet)
  {
    if |packet| != PACKET_SIZE || packet[3] != 69 || packet[48] != 0 { return None; }
    var payload := packet[8..];
    var digest := Hash(f, payload[..89], 32);
    hide Sound, Accepts, KT128, Overlay;
    var ok := Verify(f, c, payload[..32], digest, payload[89..], t);
    r := if ok then Some(Overlay(payload[..89])) else None;
  }

  /** A packet whose body is signed with the key it names is queued with its fields. */
  lemma SignedIsQueued<T(!new)>(f: Permutation, c: Curve<T>, t: nat, subseed: seq<byte>, s: Solution, sig: TaskPacket.Signature)
    requires Sound(c, t) && |subseed| == 32 && s.source == PublicKey(f, c, subseed)
    requires IsSignature(f, c, subseed, s.source, KT128(f, Body(s, 0), 32), sig)
    ensures Processed(CheckedBy(f, c, t), Packed(s, 0, sig)) == Some(s)
  {
    hide Sound, Accepts, KT128, IsSignature, Satisfies, PublicKey, Processed, Packed, Body;
    SignatureAccepted(f, c, t, subseed, KT128(f, Body(s, 0), 32), sig);
    SentIsQueued(CheckedBy(f, c, t), s, 0, sig);
  }

  /** Derive the key, sign the body, send the packet and process it: the solution is queued. */
  method SendSolution<T(!new)>(f: Permutation, c: Curve<T>, subseed: seq<byte>, unsigned: Solution, ghost t: nat)
      returns (s: Solution, r: Option<Solution>)
    requires Sound(c, t) && t == Comb.COLUMNS && |subseed| == 32
    ensures s == unsigned.(source := PublicKey(f, c, subseed)) && r == Some(s)
  {
    hide Sound, Accepts, KT128, IsSignature, PublicKey, Processed, Packed, Body;
    var key := DerivePublicKey(f, c, subseed, t);
    s := unsigned.(source := key);
    var digest := Hash(f, Body(s, 0), 32);
    var sig := Sign(f, c, subseed, key, digest, t);
    SignedLength(f, c, subseed, key, digest, sig);
    SignedIsQueued(f, c, t, subseed, s, sig);
    r := ProcessSolution(f, c, Packed(s, 0, sig), t);
  }

  lemma SignedLength<T>(f: Permutation, c: Curve<T>, subseed: seq<byte>, key: seq<byte>, digest: seq<byte>, sig: seq<byte>)
    requires |subseed| == |key| == |digest| == 32 && IsSignature(f, c, subseed, key, digest, sig)
    ensures |sig| == 64
  {
  }
}
