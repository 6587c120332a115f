/** The key under which the validator remembers a share: the decimal job id, an underscore and the
    hex of nonce and extraNonce2. */
module DedupeKey {
  import opened Hex
  import opened SolutionPacket

  /** std::to_string. */
  function Decimal(n: nat): (s: string)
    ensures |s| > 0 && forall i :: 0 <= i < |s| ==> '0' <= s[i] <= '9'
  {
    if n < 10 then [(n + '0' as int) as char] else Decimal(n / 10) + [(n % 10 + '0' as int) as char]
  }

  function DecimalValue(s: string): int {
    if s == [] then 0 else 10 * DecimalValue(s[..|s| - 1]) + (s[|s| - 1] as int - '0' as int)
  }

  lemma {:induction false} DecimalReadBack(n: nat)
    ensures DecimalValue(Decimal(n)) == n
  {
    if n >= 10 {
      DecimalReadBack(n / 10);
      assert Decimal(n)[..|Decimal(n)| - 1] == Decimal(n / 10);
    } else {
      assert Decimal(n)[..0] == [];
    }
  }

  function Key(s: Solution): string {
    Decimal(s.jobId) + "_" + HexOf(s.nonce) + HexOf(s.extraNonce2)
  }

  /** Two shares have the same key exactly when job, nonce and extraNonce2 are the same. */
  lemma {:induction false} KeyInjective(a: Solution, b: Solution)
    ensures Key(a) == Key(b) <==> a.jobId == b.jobId && a.nonce == b.nonce && a.extraNonce2 == b.extraNonce2
  {
    hide Decimal, HexOf;
    if Key(a) == Key(b) {
      KeyParts(a);
      KeyParts(b);
      HexInjective(a.nonce, b.nonce);
      HexInjective(a.extraNonce2, b.extraNonce2);
      DecimalReadBack(a.jobId);
      DecimalReadBack(b.jobId);
    }
  }

  lemma KeyParts(s: Solution)
    ensures |Key(s)| == |Decimal(s.jobId)| + 25 && Key(s)[..|Key(s)| - 25] == Decimal(s.jobId)
    ensures Key(s)[|Key(s)| - 24..|Key(s)| - 16] == HexOf(s.nonce) && Key(s)[|Key(s)| - 16..] == HexOf(s.extraNonce2)
  {
    hide Decimal, HexOf;
  }
}
