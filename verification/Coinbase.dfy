/** The generation transaction: the split of the block reward, the two halves around the extra
    nonces, and the scripts in it. */
module Coinbase {
  import opened Wrappers
  import opened Words
  import opened Bytes
  import opened Transaction
  import Script

  const PLACEHOLDER := 12
  const TWO53 := 0x20_0000_0000_0000

  /** The floating-point number stored for an exact product. */
  type Rounding = real -> real

  datatype Recipient = Recipient(percentage: real, script: seq<byte>)

  /** What handleGeneration takes from the configuration and the block template. */
  datatype Config = Config(round: Rounding, version: nat, reward: nat, poolScript: seq<byte>, scriptSig: seq<byte>, recipients: seq<Recipient>, commitment: Option<seq<byte>>)

  predicate Serializable(c: Config) {
    && c.version < TWO32 && c.reward < TWO64 && |c.poolScript| < TWO64 && |c.scriptSig| + PLACEHOLDER < TWO64
    && (forall i :: 0 <= i < |c.recipients| ==> |c.recipients[i].script| < TWO64)
    && (c.commitment.Some? ==> |c.commitment.value| < TWO64) && |c.recipients| + 2 < TWO64
  }

  // ----- The reward split -----

  /** Rounding to 53 bits: off by at most one part in 2^53, upwards or downwards; small products,
      where the format is coarser, stay small. */
  ghost predicate Rounds(fl: Rounding) {
    forall x: real :: x >= 0.0 ==>
      0.0 <= fl(x) && (if x < 0.5 then fl(x) < 1.0 else x - x / TWO53 as real <= fl(x) <= x + x / TWO53 as real)
  }

  ghost predicate Exact(fl: Rounding) {
    forall x: real :: fl(x) == x
  }

  function Product(r: Recipient, reward: nat): real {
    r.percentage * reward as real
  }

  /** Math.floor(percentage * reward). */
  function Share(fl: Rounding, r: Recipient, reward: nat): int {
    fl(Product(r, reward)).Floor
  }

  function Total(fl: Rounding, recipients: seq<Recipient>, reward: nat): int {
    if recipients == [] then 0
    else Total(fl, recipients[..|recipients| - 1], reward) + Share(fl, recipients[|recipients| - 1], reward)
  }

  function PercentageSum(recipients: seq<Recipient>): real {
    if recipients == [] then 0.0 else PercentageSum(recipients[..|recipients| - 1]) + recipients[|recipients| - 1].percentage
  }

  predicate AllShares(fl: Rounding, recipients: seq<Recipient>, reward: nat) {
    forall i :: 0 <= i < |recipients| ==> Share(fl, recipients[i], reward) >= 0
  }

  /** Every amount can be written: none is negative. */
  predicate Payable(c: Config) {
    AllShares(c.round, c.recipients, c.reward) && Total(c.round, c.recipients, c.reward) <= c.reward
  }

  predicate NoneNegative(recipients: seq<Recipient>) {
    forall i :: 0 <= i < |recipients| ==> recipients[i].percentage >= 0.0
  }

  /** Shares that are not negative and sum below one. */
  predicate Sensible(recipients: seq<Recipient>) {
    NoneNegative(recipients) && PercentageSum(recipients) < 1.0
  }

  /** The sum the loader forms, rounded at every addition. */
  function LoaderSum(fl: Rounding, recipients: seq<Recipient>): real {
    if recipients == [] then 0.0 else fl(LoaderSum(fl, recipients[..|recipients| - 1]) + recipients[|recipients| - 1].percentage)
  }

  /** Shares that are not negative and that checkPoolRecipients lets pass. */
  predicate Accepted(fl: Rounding, recipients: seq<Recipient>) {
    NoneNegative(recipients) && LoaderSum(fl, recipients) < 1.0
  }

  /** Rounding to nearest: in order, stable, and below one off by at most 2^-54. */
  ghost predicate RoundsSums(fl: Rounding) {
    && fl(0.0) == 0.0 && (forall x: real, y: real :: 0.0 <= x <= y ==> 0.0 <= fl(x) <= fl(y))
    && (forall x: real :: x >= 0.0 ==> fl(fl(x)) == fl(x))
    && (forall x: real :: x >= 0.0 && fl(x) < 1.0 ==> x <= fl(x) + 0.5 / TWO53 as real)
  }

  /** Products as computed, and shares small enough for them: exact ones; rounded ones of shares that
      truly sum below one; or rounded ones of shares whose rounded sum is below one. */
  ghost predicate Covered(c: Config) {
    || (Exact(c.round) && Sensible(c.recipients))
    || (Rounds(c.round) && Sensible(c.recipients) && c.reward <= TWO53)
    || (Rounds(c.round) && RoundsSums(c.round) && Accepted(c.round, c.recipients) && c.reward * (|c.recipients| + 2) <= TWO53)
  }

  /** No share exceeds its exact product by more than the factor q. */
  ghost predicate WithinFactor(fl: Rounding, q: real) {
    forall x: real :: x >= 0.0 ==> 0 <= fl(x).Floor && fl(x).Floor as real <= x * q
  }

  lemma RoundsWithin(fl: Rounding)
    requires Rounds(fl)
    ensures WithinFactor(fl, 1.0 + 1.0 / TWO53 as real)
  {
    forall x: real | x >= 0.0 ensures 0 <= fl(x).Floor && fl(x).Floor as real <= x * (1.0 + 1.0 / TWO53 as real) {
      Scaled(x, TWO53 as real);
    }
  }

  lemma Scaled(x: real, m: real)
    requires x >= 0.0 && m > 0.0
    ensures x * (1.0 + 1.0 / m) == x + x / m >= x
  {
    var u := 1.0 / m;
    assert x * u == x / m;
    assert x * (1.0 + u) == x + x * u;
  }

  lemma ExactWithin(fl: Rounding)
    requires Exact(fl)
    ensures WithinFactor(fl, 1.0)
  {
  }

  lemma {:induction false} TotalBelow(fl: Rounding, q: real, recipients: seq<Recipient>, reward: nat)
    requires WithinFactor(fl, q) && NoneNegative(recipients)
    ensures AllShares(fl, recipients, reward) && 0 <= Total(fl, recipients, reward)
    ensures Total(fl, recipients, reward) as real <= PercentageSum(recipients) * (reward as real * q)
  {
    if recipients != [] {
      var front, r := recipients[..|recipients| - 1], recipients[|recipients| - 1];
      TotalBelow(fl, q, front, reward);
      ShareBelow(fl, q, r, reward);
      hide Share;
      Distribute(PercentageSum(front), r.percentage, reward as real * q);
      assert forall i :: 0 <= i < |front| ==> recipients[i] == front[i];
    }
  }

  lemma ShareBelow(fl: Rounding, q: real, r: Recipient, reward: nat)
    requires WithinFactor(fl, q) && r.percentage >= 0.0
    ensures 0 <= Share(fl, r, reward) && Share(fl, r, reward) as real <= r.percentage * (reward as real * q)
  {
    var x := reward as real;
    assert r.percentage * x >= 0.0 * x;
    Reassociate(r.percentage, x, q);
  }

  lemma Reassociate(a: real, b: real, c: real)
    ensures a * b * c == a * (b * c)
  {
  }

  lemma Distribute(a: real, b: real, x: real)
    ensures (a + b) * x == a * x + b * x
  {
  }

  /** Non-negative shares that sum below one can always be paid, with the products rounded to 53
      bits and any reward up to 2^53; computed exactly, for any reward, and the pool then keeps
      something of it. */
  lemma SensibleIsPayable(c: Config)
    requires Sensible(c.recipients) && (Exact(c.round) || (Rounds(c.round) && c.reward <= TWO53))
    ensures Payable(c) && (Exact(c.round) && c.reward > 0 ==> Total(c.round, c.recipients, c.reward) < c.reward)
  {
    if Exact(c.round) { ExactPayable(c); } else { RoundedPayable(c); }
  }

  lemma ExactPayable(c: Config)
    requires Sensible(c.recipients) && Exact(c.round)
    ensures Payable(c) && (c.reward > 0 ==> Total(c.round, c.recipients, c.reward) < c.reward)
  {
    ExactWithin(c.round);
    hide Exact, WithinFactor;
    TotalBelow(c.round, 1.0, c.recipients, c.reward);
    hide Total, PercentageSum, AllShares;
    var total, x := Total(c.round, c.recipients, c.reward), c.reward as real;
    BelowWhole(total, PercentageSum(c.recipients), x * 1.0, x);
    WholeNumbers(total, c.reward);
  }

  lemma RoundedPayable(c: Config)
    requires Sensible(c.recipients) && Rounds(c.round) && c.reward <= TWO53
    ensures Payable(c)
  {
    hide Rounds, Total, PercentageSum, AllShares;
    RoundedTotal(c.round, c.recipients, c.reward);
    RoundedWhole(Total(c.round, c.recipients, c.reward), PercentageSum(c.recipients), c.reward, TWO53);
  }

  lemma RoundedWhole(total: int, s: real, reward: nat, m: nat)
    requires 0 < m && reward <= m && s < 1.0 && total as real <= s * (reward as real * (1.0 + 1.0 / m as real))
    ensures total <= reward
  {
    var x := reward as real;
    Scaled(x, m as real);
    AtMostOneMore(reward, m);
    BelowWhole(total, s, x * (1.0 + 1.0 / m as real), x + 1.0);
    WholeNumbers(total, reward);
  }

  // ----- The loader's sum -----

  /** The loader's sum is short of the exact one by at most 2^-54 for each recipient. */
  lemma {:induction false} LoaderSumClose(fl: Rounding, recipients: seq<Recipient>)
    requires RoundsSums(fl) && Accepted(fl, recipients)
    ensures 0.0 <= LoaderSum(fl, recipients) && PercentageSum(recipients) <= LoaderSum(fl, recipients) + |recipients| as real * (0.5 / TWO53 as real)
  {
    if recipients != [] {
      var front, r := recipients[..|recipients| - 1], recipients[|recipients| - 1];
      var a, p := LoaderSum(fl, front), r.percentage;
      LoaderSumStable(fl, front);
      assert 0.0 <= a <= a + p;
      assert a == fl(a) <= fl(a + p) < 1.0;
      LoaderSumClose(fl, front);
      assert a + p <= fl(a + p) + 0.5 / TWO53 as real;
      hide RoundsSums, LoaderSum, PercentageSum;
      OneMoreTerm(|front|, 0.5 / TWO53 as real);
    }
  }

  lemma OneMoreTerm(n: nat, e: real)
    ensures (n + 1) as real * e == n as real * e + e
  {
  }

  lemma {:induction false} LoaderSumStable(fl: Rounding, recipients: seq<Recipient>)
    requires RoundsSums(fl) && NoneNegative(recipients)
    ensures 0.0 <= LoaderSum(fl, recipients) == fl(LoaderSum(fl, recipients))
  {
    if recipients != [] { LoaderSumStable(fl, recipients[..|recipients| - 1]); }
  }

  /** What the loader lets pass can be paid, when the reward times the number of recipients and two
      more stays within 2^53. */
  lemma AcceptedIsPayable(c: Config)
    requires Rounds(c.round) && RoundsSums(c.round) && Accepted(c.round, c.recipients) && c.reward * (|c.recipients| + 2) <= TWO53
    ensures Payable(c)
  {
    hide Rounds, RoundsSums, Accepted;
    AcceptedSum(c.round, c.recipients);
    RoundedTotal(c.round, c.recipients, c.reward);
    hide Total, PercentageSum, AllShares;
    LoadedWhole(Total(c.round, c.recipients, c.reward), PercentageSum(c.recipients), |c.recipients|, c.reward, TWO53);
  }

  lemma AcceptedSum(fl: Rounding, recipients: seq<Recipient>)
    requires RoundsSums(fl) && Accepted(fl, recipients)
    ensures NoneNegative(recipients) && PercentageSum(recipients) < 1.0 + |recipients| as real * (0.5 / TWO53 as real)
  {
    hide RoundsSums, PercentageSum, LoaderSum;
    LoaderSumClose(fl, recipients);
  }

  lemma RoundedTotal(fl: Rounding, recipients: seq<Recipient>, reward: nat)
    requires Rounds(fl) && NoneNegative(recipients)
    ensures AllShares(fl, recipients, reward)
    ensures Total(fl, recipients, reward) as real <= PercentageSum(recipients) * (reward as real * (1.0 + 1.0 / TWO53 as real))
  {
    hide Rounds, Total, PercentageSum, AllShares, WithinFactor;
    RoundsWithin(fl);
    TotalBelow(fl, 1.0 + 1.0 / TWO53 as real, recipients, reward);
  }

  lemma LoadedWhole(total: int, s: real, n: nat, reward: nat, m: nat)
    requires m > 0 && reward * (n + 2) <= m && s < 1.0 + n as real * (0.5 / m as real)
    requires total as real <= s * (reward as real * (1.0 + 1.0 / m as real))
    ensures total <= reward
  {
    var x, k, u := reward as real, n as real, 1.0 / m as real;
    var e := x * u;
    Scaled(x, m as real);
    PartOfWhole(reward, n, m, e);
    var y := x + e;
    ExcessBound(s, k, u, x, e, y);
    if reward > 0 { assert e > 0.0 by { SmallPositive(x, u); } }
    WholeNumbers(total, reward);
  }

  lemma SmallPositive(x: real, u: real)
    requires x > 0.0 && u > 0.0
    ensures x * u > 0.0
  {
  }

  lemma PartOfWhole(reward: nat, n: nat, m: nat, e: real)
    requires m > 0 && reward * (n + 2) <= m && e == reward as real * (1.0 / m as real)
    ensures 0.0 <= e <= reward as real && e * (n as real + 2.0) <= 1.0
  {
    var u := 1.0 / m as real;
    assert 0.0 < u <= 1.0 && m as real * u == 1.0;
    var w := reward * (n + 2);
    assert w as real == reward as real * (n as real + 2.0);
    TimesOrder(w as real, m as real, u);
    TimesOrder(u, 1.0, reward as real);
    assert w as real * u == e * (n as real + 2.0);
  }

  lemma TimesOrder(a: real, b: real, c: real)
    requires a <= b && c >= 0.0
    ensures a * c <= b * c
  {
  }

  lemma ExcessBound(s: real, k: real, u: real, x: real, e: real, y: real)
    requires s < 1.0 + k * (0.5 * u) && k >= 0.0 && u >= 0.0 && e == x * u && 0.0 <= e <= x && y == x + e
    ensures s * y <= x + e * (k + 1.0)
  {
    TimesOrder(s, 1.0 + k * (0.5 * u), y);
    TimesOrder(y, 2.0 * x, k * (0.5 * u));
    assert (1.0 + k * (0.5 * u)) * y == y + y * (k * (0.5 * u));
    assert 2.0 * x * (k * (0.5 * u)) == k * e;
  }

  lemma AtMostOneMore(reward: nat, m: nat)
    requires reward <= m && m > 0
    ensures reward as real / m as real <= 1.0
  {
  }

  /** A total of shares of x stays below any positive bound of x. */
  lemma BelowWhole(total: int, s: real, x: real, bound: real)
    requires s < 1.0 && 0.0 <= x <= bound && total as real <= s * x
    ensures total as real <= bound && (bound > 0.0 ==> total as real < bound)
  {
    if x > 0.0 {
      ScaleBelow(s, x);
    } else {
      assert s * x == 0.0;
    }
  }

  lemma WholeNumbers(total: int, reward: nat)
    ensures total as real < reward as real + 1.0 ==> total <= reward
    ensures total as real < reward as real ==> total < reward
    ensures total as real <= reward as real ==> total <= reward
  {
    assert total as real < reward as real + 1.0 ==> (total as real) < (reward + 1) as real;
  }

  lemma ScaleBelow(s: real, x: real)
    requires s < 1.0 && x > 0.0
    ensures s * x < x
  {
    var d := 1.0 - s;
    assert d * x > 0.0;
    assert d * x == 1.0 * x - s * x;
  }

  function RecipientOutputs(fl: Rounding, recipients: seq<Recipient>, reward: nat): (outs: seq<Output>)
    requires AllShares(fl, recipients, reward)
    ensures |outs| == |recipients|
  {
    seq(|recipients|, i requires 0 <= i < |recipients| => Output(Share(fl, recipients[i], reward), recipients[i].script))
  }

  /** The pool first, then the recipients in order, then a witness commitment paying nothing. */
  function Outputs(c: Config): seq<Output>
    requires Payable(c)
  {
    [Output(c.reward - Total(c.round, c.recipients, c.reward), c.poolScript)]
      + RecipientOutputs(c.round, c.recipients, c.reward)
      + (if c.commitment.Some? then [Output(0, c.commitment.value)] else [])
  }

  function Sum(outs: seq<Output>): nat {
    if outs == [] then 0 else Sum(outs[..|outs| - 1]) + outs[|outs| - 1].amount
  }

  lemma {:induction false} SumAppend(a: seq<Output>, b: seq<Output>)
    ensures Sum(a + b) == Sum(a) + Sum(b)
    decreases |b|
  {
    if b == [] {
      assert a + b == a;
    } else {
      assert (a + b)[..|a + b| - 1] == a + b[..|b| - 1];
      SumAppend(a, b[..|b| - 1]);
    }
  }

  lemma {:induction false} SumOfShares(fl: Rounding, recipients: seq<Recipient>, reward: nat)
    requires AllShares(fl, recipients, reward)
    ensures Sum(RecipientOutputs(fl, recipients, reward)) == Total(fl, recipients, reward)
  {
    hide Share;
    if recipients != [] {
      var n := |recipients| - 1;
      assert RecipientOutputs(fl, recipients, reward)[..n] == RecipientOutputs(fl, recipients[..n], reward);
      SumOfShares(fl, recipients[..n], reward);
    }
  }

  /** The outputs pay exactly the block reward. */
  lemma RewardConserved(c: Config)
    requires Payable(c)
    ensures Sum(Outputs(c)) == c.reward
  {
    hide RecipientOutputs, Total;
    var pool := [Output(c.reward - Total(c.round, c.recipients, c.reward), c.poolScript)];
    var shares := RecipientOutputs(c.round, c.recipients, c.reward);
    var extra := if c.commitment.Some? then [Output(0, c.commitment.value)] else [];
    SumAppend(pool, shares);
    SumAppend(pool + shares, extra);
    SumOfShares(c.round, c.recipients, c.reward);
    assert Sum(pool) == pool[0].amount by { assert pool[..0] == []; }
    assert Sum(extra) == 0 by { if c.commitment.Some? { assert extra[..0] == []; } }
  }

  /** An amount that is x, off by at most x * u, rounded down. */
  predicate Paid(amount: int, x: real, u: real) {
    x - x * u - 1.0 < amount as real <= x + x * u
  }

  /** The amount a product x is paid as: x rounded down with exact products, and within one part in
      2^53 of that with rounded ones. */
  ghost predicate FairlyPaid(fl: Rounding, amount: int, x: real) {
    (Exact(fl) ==> Paid(amount, x, 0.0)) && (Rounds(fl) ==> Paid(amount, x, 1.0 / TWO53 as real))
  }

  /** A recipient is paid its percentage of the reward. */
  lemma SharePaid(fl: Rounding, r: Recipient, reward: nat)
    requires r.percentage >= 0.0
    ensures FairlyPaid(fl, Share(fl, r, reward), r.percentage * reward as real)
  {
    var x := Product(r, reward);
    SmallProduct(r.percentage, reward as real);
    assert x >= 0.0;
    ProductPaid(fl, r, reward);
    SamePaid(fl, Share(fl, r, reward), x, r.percentage * reward as real);
  }

  lemma SamePaid(fl: Rounding, amount: int, x: real, y: real)
    requires x == y && FairlyPaid(fl, amount, x)
    ensures FairlyPaid(fl, amount, y)
  {
  }

  lemma ProductPaid(fl: Rounding, r: Recipient, reward: nat)
    requires Product(r, reward) >= 0.0
    ensures FairlyPaid(fl, Share(fl, r, reward), Product(r, reward))
  {
    hide Paid, Exact, Rounds, Product;
    var x := Product(r, reward);
    if Exact(fl) { ExactlyPaid(fl, x); }
    if Rounds(fl) {
      RoundsAt(fl, x);
      FloorPaid(x, fl(x), TWO53 as real);
    }
  }

  lemma ExactlyPaid(fl: Rounding, x: real)
    requires Exact(fl)
    ensures Paid(fl(x).Floor, x, 0.0)
  {
    assert fl(x) == x;
  }

  lemma RoundsAt(fl: Rounding, x: real)
    requires Rounds(fl) && x >= 0.0
    ensures 0.0 <= fl(x) && (if x < 0.5 then fl(x) < 1.0 else x - x / TWO53 as real <= fl(x) <= x + x / TWO53 as real)
  {
  }

  lemma SmallProduct(a: real, b: real)
    requires a >= 0.0 && b >= 0.0
    ensures a * b >= 0.0
  {
  }

  lemma FloorPaid(x: real, y: real, m: real)
    requires x >= 0.0 && m >= 1.0 && 0.0 <= y && (if x < 0.5 then y < 1.0 else x - x / m <= y <= x + x / m)
    ensures Paid(y.Floor, x, 1.0 / m)
  {
    var u := 1.0 / m;
    assert 0.0 <= u <= 1.0 && x * u == x / m;
    TimesOrder(0.0, u, x);
    assert u * x == x * u;
  }

  /** Output i + 1 pays recipient i its percentage of the reward. */
  ghost predicate PaysRecipient(c: Config, outs: seq<Output>, i: nat)
    requires i < |c.recipients| < |outs|
  {
    var o := outs[i + 1];
    o.script == c.recipients[i].script && FairlyPaid(c.round, o.amount, c.recipients[i].percentage * c.reward as real)
  }

  lemma RecipientPaid(c: Config, outs: seq<Output>, i: nat)
    requires i < |c.recipients| < |outs| && NoneNegative(c.recipients) && Share(c.round, c.recipients[i], c.reward) >= 0
    requires outs[i + 1] == Output(Share(c.round, c.recipients[i], c.reward), c.recipients[i].script)
    ensures PaysRecipient(c, outs, i)
  {
    hide Exact, Rounds, Share;
    SharePaid(c.round, c.recipients[i], c.reward);
  }

  /** What each output pays, and to whom. */
  lemma OutputsPay(c: Config)
    requires Payable(c)
    ensures
      var outs, n := Outputs(c), |c.recipients|;
      && |outs| == n + (if c.commitment.Some? then 2 else 1)
      && outs[0].script == c.poolScript && Sum(outs[1..]) + outs[0].amount == c.reward
      && (forall i :: 0 <= i < n ==> outs[i + 1] == Output(Share(c.round, c.recipients[i], c.reward), c.recipients[i].script))
      && (c.commitment.Some? ==> outs[n + 1] == Output(0, c.commitment.value))
  {
    RewardConserved(c);
    hide Total, Share, AllShares;
    var outs := Outputs(c);
    assert outs == [outs[0]] + outs[1..];
    SumAppend([outs[0]], outs[1..]);
    assert Sum([outs[0]]) == outs[0].amount by { assert [outs[0]][..0] == []; }
  }

  // ----- The two halves -----

  function FirstHalf(c: Config): seq<byte>
    requires Serializable(c)
  {
    ToBytes(c.version, 4) + (VarInt(1) + (Zeros(32) + (ToBytes(TWO32 - 1, 4) + (VarInt(|c.scriptSig| + PLACEHOLDER) + c.scriptSig))))
  }

  predicate Writable(outs: seq<Output>) {
    |outs| < TWO64 && forall i :: 0 <= i < |outs| ==> Encodable(outs[i])
  }

  function SecondHalf(outs: seq<Output>): seq<byte>
    requires Writable(outs)
  {
    ToBytes(0, 4) + (VarInt(|outs|) + OutputsBytes(outs) + ToBytes(0, 4))
  }

  lemma OutputsEncodable(c: Config)
    requires Serializable(c) && Payable(c)
    ensures Writable(Outputs(c))
  {
    hide Share, Total;
    TotalBounds(c.round, c.recipients, c.reward);
  }

  lemma {:induction false} TotalBounds(fl: Rounding, recipients: seq<Recipient>, reward: nat)
    requires AllShares(fl, recipients, reward)
    ensures 0 <= Total(fl, recipients, reward)
    ensures forall i :: 0 <= i < |recipients| ==> Share(fl, recipients[i], reward) <= Total(fl, recipients, reward)
  {
    hide Share;
    if recipients != [] {
      var front := recipients[..|recipients| - 1];
      TotalBounds(fl, front, reward);
      assert forall i :: 0 <= i < |front| ==> recipients[i] == front[i];
    }
  }

  /** The buffer of one output; packUInt64LE throws when the amount is not a 64-bit number. */
  function OutputBuffer(amount: int, script: seq<byte>): Option<seq<byte>>
    requires |script| < TWO64
  {
    if amount < 0 || amount >= TWO64 then None else Some(OutputBytes(Output(amount, script)))
  }

  /** handleGeneration: None when an amount is negative, otherwise the two halves. */
  method HandleGeneration(c: Config) returns (halves: Option<(seq<byte>, seq<byte>)>)
    requires Serializable(c)
    ensures halves.Some? <==> Payable(c)
    ensures Payable(c) ==> Writable(Outputs(c)) && halves.value == (FirstHalf(c), SecondHalf(Outputs(c)))
  {
    hide Share, OutputBytes, VarInt, ToBytes;
    var p1 := ToBytes(c.version, 4) + (VarInt(1) + (Zeros(32) + (ToBytes(TWO32 - 1, 4) + (VarInt(|c.scriptSig| + PLACEHOLDER) + c.scriptSig))));
    var buffers, total, ok := RecipientBuffers(c);
    if !ok {
      if AllShares(c.round, c.recipients, c.reward) { TotalBounds(c.round, c.recipients, c.reward); }
      return None;
    }
    if c.reward - total < 0 { return None; }
    TotalBounds(c.round, c.recipients, c.reward);
    OutputsEncodable(c);
    var pool := Output(c.reward - total, c.poolScript);
    buffers := [OutputBytes(pool)] + buffers;
    if c.commitment.Some? {
      buffers := buffers + [OutputBytes(Output(0, c.commitment.value))];
    }
    BuffersFlat(Outputs(c), buffers);
    var p2 := ToBytes(0, 4) + (VarInt(|buffers|) + Flat(buffers) + ToBytes(0, 4));
    halves := Some((p1, p2));
  }

  /** The recipient loop: the running total and one pushed buffer per recipient. */
  method RecipientBuffers(c: Config) returns (buffers: seq<seq<byte>>, total: int, ok: bool)
    requires Serializable(c)
    ensures ok <==> AllShares(c.round, c.recipients, c.reward) && forall i :: 0 <= i < |c.recipients| ==> Share(c.round, c.recipients[i], c.reward) < TWO64
    ensures ok ==> total == Total(c.round, c.recipients, c.reward) && |buffers| == |c.recipients|
    ensures ok ==> forall i :: 0 <= i < |buffers| ==> buffers[i] == OutputBytes(Output(Share(c.round, c.recipients[i], c.reward), c.recipients[i].script))
  {
    hide Share, OutputBytes;
    buffers, total, ok := [], 0, true;
    for i := 0 to |c.recipients|
      invariant total == Total(c.round, c.recipients[..i], c.reward) && |buffers| == i
      invariant forall j :: 0 <= j < i ==> 0 <= Share(c.round, c.recipients[j], c.reward) < TWO64 && buffers[j] == OutputBytes(Output(Share(c.round, c.recipients[j], c.reward), c.recipients[j].script))
    {
      var r := c.recipients[i];
      var reward := Share(c.round, r, c.reward);
      assert c.recipients[..i + 1][..i] == c.recipients[..i];
      total := total + reward;
      var buffer := OutputBuffer(reward, r.script);
      if buffer.None? { return [], 0, false; }
      buffers := buffers + [buffer.value];
    }
    assert c.recipients[..|c.recipients|] == c.recipients;
  }

  function Flat(buffers: seq<seq<byte>>): seq<byte> {
    if buffers == [] then [] else buffers[0] + Flat(buffers[1..])
  }

  lemma {:induction false} BuffersFlat(outs: seq<Output>, buffers: seq<seq<byte>>)
    requires |outs| == |buffers| && forall i :: 0 <= i < |outs| ==> Encodable(outs[i]) && buffers[i] == OutputBytes(outs[i])
    ensures Flat(buffers) == OutputsBytes(outs)
    decreases |outs|
  {
    hide OutputBytes;
    if outs != [] { BuffersFlat(outs[1..], buffers[1..]); }
  }

  // ----- The spliced transaction -----

  /** handleCoinbase. */
  function Splice(p1: seq<byte>, extraNonce1: seq<byte>, extraNonce2: seq<byte>, p2: seq<byte>): seq<byte> {
    p1 + (extraNonce1 + extraNonce2 + p2)
  }

  /** The second half, after the sequence number, reads as the outputs and a zero lock time. */
  lemma {:induction false} TailReadBack(outs: seq<Output>)
    requires Writable(outs)
    ensures ReadTail(VarInt(|outs|) + OutputsBytes(outs) + ToBytes(0, 4)) == Some((outs, 0))
  {
    hide VarInt, ReadVarInt, OutputsBytes, ReadOutputs, ToBytes, ReadNumber, Pow2;
    var lock := ToBytes(0, 4);
    assert VarInt(|outs|) + OutputsBytes(outs) + lock == VarInt(|outs|) + (OutputsBytes(outs) + lock);
    VarIntReadBack(|outs|, OutputsBytes(outs) + lock);
    OutputsReadBack(outs, lock);
    assert lock + [] == lock;
    NumberReadBack(0, 4, []);
  }

  /** One input read back: the script runs over the splice and has exactly the declared length. */
  lemma {:induction false} InputReadBack(script: seq<byte>, rest: seq<byte>)
    requires |script| < TWO64
    ensures ReadInput(Zeros(32) + (ToBytes(TWO32 - 1, 4) + (VarInt(|script|) + script + (ToBytes(0, 4) + rest))))
      == Some(Read(Input(Zeros(32), TWO32 - 1, script, 0), rest))
  {
    hide VarInt, ReadScript, ToBytes, ReadNumber, Pow2;
    Pow2Values();
    var s3 := ToBytes(0, 4) + rest;
    var s2 := VarInt(|script|) + script + s3;
    var s1 := ToBytes(TWO32 - 1, 4) + s2;
    var s0 := Zeros(32) + s1;
    assert s0[..32] == Zeros(32) && s0[32..] == s1;
    NumberReadBack(TWO32 - 1, 4, s2);
    ScriptReadBack(script, s3);
    NumberReadBack(0, 4, rest);
  }

  lemma OneInput(s: seq<byte>, i: Read<Input>)
    requires ReadInput(s) == Some(i)
    ensures ReadInputs(s, 1) == Some(Read([i.value], i.rest))
  {
    hide ReadInput;
    assert ReadInputs(i.rest, 0) == Some(Read([], i.rest));
    assert [i.value] + [] == [i.value];
  }

  /** For any extra nonces of four and eight bytes the spliced bytes decode to one coinbase input,
      whose script is the generated script followed by the nonces, and to the outputs of the split. */
  lemma {:induction false} SplicedDecodes(c: Config, extraNonce1: Bytes4, extraNonce2: Bytes8)
    requires Serializable(c) && Payable(c)
    ensures Writable(Outputs(c))
    ensures
      DecodeTx(Splice(FirstHalf(c), extraNonce1, extraNonce2, SecondHalf(Outputs(c))))
        == Some(Tx(c.version, [Input(Zeros(32), TWO32 - 1, c.scriptSig + extraNonce1 + extraNonce2, 0)], Outputs(c), 0))
  {
    hide VarInt, ReadVarInt, OutputsBytes, ReadInput, ReadTail, ToBytes, ReadNumber, Pow2, ReadInputs, Outputs;
    OutputsEncodable(c);
    Pow2Values();
    var outs := Outputs(c);
    var script := c.scriptSig + extraNonce1 + extraNonce2;
    var tail := VarInt(|outs|) + OutputsBytes(outs) + ToBytes(0, 4);
    var input := Zeros(32) + (ToBytes(TWO32 - 1, 4) + (VarInt(|script|) + script + (ToBytes(0, 4) + tail)));
    Respliced(c, extraNonce1, extraNonce2, outs);
    NumberReadBack(c.version, 4, VarInt(1) + input);
    VarIntReadBack(1, input);
    InputReadBack(script, tail);
    OneInput(input, Read(Input(Zeros(32), TWO32 - 1, script, 0), tail));
    TailReadBack(outs);
  }

  /** On the decoded transaction: the first output pays the pool's script what the others leave of the
      reward, output i + 1 pays recipient i its percentage rounded down, and a commitment comes last. */
  lemma {:induction false} RecipientsPaid(c: Config, extraNonce1: Bytes4, extraNonce2: Bytes8) returns (tx: Tx)
    requires Serializable(c) && Payable(c) && NoneNegative(c.recipients)
    ensures Writable(Outputs(c)) && DecodeTx(Splice(FirstHalf(c), extraNonce1, extraNonce2, SecondHalf(Outputs(c)))) == Some(tx)
    ensures |tx.outputs| == |c.recipients| + (if c.commitment.Some? then 2 else 1)
    ensures tx.outputs[0].script == c.poolScript && tx.outputs[0].amount + Sum(tx.outputs[1..]) == c.reward
    ensures forall i :: 0 <= i < |c.recipients| ==> PaysRecipient(c, tx.outputs, i)
    ensures c.commitment.Some? ==> tx.outputs[|c.recipients| + 1] == Output(0, c.commitment.value)
  {
    hide Outputs, Payable, Serializable, Splice, DecodeTx, FirstHalf, SecondHalf, PaysRecipient, Share, Sum, Writable;
    SplicedDecodes(c, extraNonce1, extraNonce2);
    OutputsPay(c);
    tx := Tx(c.version, [Input(Zeros(32), TWO32 - 1, c.scriptSig + extraNonce1 + extraNonce2, 0)], Outputs(c), 0);
    forall i | 0 <= i < |c.recipients| ensures PaysRecipient(c, tx.outputs, i) { RecipientPaid(c, tx.outputs, i); }
  }

  lemma Respliced(c: Config, extraNonce1: Bytes4, extraNonce2: Bytes8, outs: seq<Output>)
    requires Serializable(c) && Writable(outs)
    ensures
      var script := c.scriptSig + extraNonce1 + extraNonce2;
      var tail := VarInt(|outs|) + OutputsBytes(outs) + ToBytes(0, 4);
      Splice(FirstHalf(c), extraNonce1, extraNonce2, SecondHalf(outs))
        == ToBytes(c.version, 4) + (VarInt(1) + (Zeros(32) + (ToBytes(TWO32 - 1, 4) + (VarInt(|script|) + script + (ToBytes(0, 4) + tail)))))
  {
    hide VarInt, OutputsBytes, ToBytes, Zeros, FirstHalf, Splice;
    SplicedFront(c, extraNonce1, extraNonce2, SecondHalf(outs));
  }

  lemma SplicedFront(c: Config, e: seq<byte>, f: seq<byte>, second: seq<byte>)
    requires Serializable(c)
    ensures Splice(FirstHalf(c), e, f, second)
      == ToBytes(c.version, 4) + (VarInt(1) + (Zeros(32) + (ToBytes(TWO32 - 1, 4) + (VarInt(|c.scriptSig| + PLACEHOLDER) + (c.scriptSig + e + f) + second))))
  {
    hide VarInt, ToBytes, Zeros;
    var v, s := VarInt(|c.scriptSig| + PLACEHOLDER), c.scriptSig;
    Regroup(v, s, e, f, second);
    PushAll(ToBytes(c.version, 4), VarInt(1), Zeros(32), ToBytes(TWO32 - 1, 4), v + s, e + f + second, v + (s + e + f) + second);
  }

  /** Appending to a chain of concatenations appends to its last part. */
  lemma PushAll(a: seq<byte>, b: seq<byte>, z: seq<byte>, i: seq<byte>, s: seq<byte>, t: seq<byte>, rest: seq<byte>)
    requires s + t == rest
    ensures a + (b + (z + (i + s))) + t == a + (b + (z + (i + rest)))
  {
    Push(i, s, t, rest);
    Push(z, i + s, t, i + rest);
    Push(b, z + (i + s), t, z + (i + rest));
    Push(a, b + (z + (i + s)), t, b + (z + (i + rest)));
  }

  lemma Push(a: seq<byte>, b: seq<byte>, t: seq<byte>, r: seq<byte>)
    requires b + t == r
    ensures a + b + t == a + r
  {
  }

  lemma Regroup(v: seq<byte>, s: seq<byte>, e: seq<byte>, f: seq<byte>, q: seq<byte>)
    ensures v + s + (e + f + q) == v + (s + e + f) + q
  {
  }

  /** Pool and miner together: a sensible configuration always gives a transaction that decodes and
      pays exactly the reward. */
  lemma {:induction false} SensibleCoinbase(c: Config, extraNonce1: Bytes4, extraNonce2: Bytes8)
    requires Serializable(c) && Covered(c)
    ensures Payable(c)
    ensures Writable(Outputs(c))
    ensures
      exists tx :: DecodeTx(Splice(FirstHalf(c), extraNonce1, extraNonce2, SecondHalf(Outputs(c)))) == Some(tx) && Sum(tx.outputs) == c.reward
  {
    hide Payable, Outputs, Splice, DecodeTx, FirstHalf, SecondHalf, Sum, Exact, Rounds, RoundsSums, Accepted;
    if Sensible(c.recipients) && (Exact(c.round) || (Rounds(c.round) && c.reward <= TWO53)) { SensibleIsPayable(c); } else { AcceptedIsPayable(c); }
    OutputsEncodable(c);
    SplicedDecodes(c, extraNonce1, extraNonce2);
    RewardConserved(c);
  }

  // ----- The input script -----

  /** Height, flags, time, the length of the nonces, and merged-mining data if any. */
  function ScriptSig(height: nat, flags: seq<byte>, time: nat, merged: seq<byte>): seq<byte>
    requires height < 0x8000_0000 && time < 0x8000_0000
  {
    Script.Serialized(height) + (flags + (Script.Serialized(time) + ([PLACEHOLDER] + merged)))
  }

  /** The script of the decoded input starts by pushing the block height. */
  lemma {:induction false} HeightFirst(height: nat, flags: seq<byte>, time: nat, merged: seq<byte>, nonces: seq<byte>) returns (b: seq<byte>, rest: seq<byte>)
    requires height < 0x8000_0000 && time < 0x8000_0000
    ensures rest == flags + (Script.Serialized(time) + ([PLACEHOLDER] + merged)) + nonces
    ensures Script.ReadItem(ScriptSig(height, flags, time, merged) + nonces) == Some(Read(Script.Push(b), rest)) && LittleEndian(b) == height
  {
    hide Script.Serialized, Script.ReadItem, LittleEndian;
    rest := flags + (Script.Serialized(time) + ([PLACEHOLDER] + merged)) + nonces;
    b := Script.NumberReadBack(height, rest);
    assert ScriptSig(height, flags, time, merged) + nonces == Script.Serialized(height) + rest;
  }

  /** Without merged mining, and with flags that read as whole items, the script says: the height,
      the flags, the time, and the two nonces as one last push. */
  lemma {:induction false} ScriptSays(height: nat, flags: seq<byte>, time: nat, extraNonce1: Bytes4, extraNonce2: Bytes8)
      returns (h: seq<byte>, t: seq<byte>)
    requires height < 0x8000_0000 && time < 0x8000_0000 && Script.Items(flags).Some?
    ensures LittleEndian(h) == height && LittleEndian(t) == time
    ensures Script.Items(ScriptSig(height, flags, time, []) + (extraNonce1 + extraNonce2))
      == Some([Script.Push(h)] + (Script.Items(flags).value + [Script.Push(t), Script.Push(extraNonce1 + extraNonce2)]))
  {
    hide Script.Serialized, Script.ReadItem, Script.Items, LittleEndian;
    var nonces := extraNonce1 + extraNonce2;
    var last := [PLACEHOLDER] + [] + nonces;
    var rest;
    h, rest := HeightFirst(height, flags, time, [], nonces);
    t := Script.NumberReadBack(time, last);
    var tail := Script.Serialized(time) + last;
    assert rest == flags + tail;
    SerializedNotEmpty(time);
    LastItems(tail, t, last, nonces);
    Script.ItemsAppend(flags, tail);
    SerializedNotEmpty(height);
    Script.ItemFirst(ScriptSig(height, flags, time, []) + nonces, Script.Push(h), rest);
  }

  /** The coinbase as a miner assembles it: the script of the one decoded input says the height, the
      flags, the time and the two nonces. */
  lemma {:induction false} CoinbaseSays(c: Config, height: nat, flags: seq<byte>, time: nat, extraNonce1: Bytes4, extraNonce2: Bytes8)
      returns (tx: Tx, h: seq<byte>, t: seq<byte>)
    requires Serializable(c) && Payable(c) && height < 0x8000_0000 && time < 0x8000_0000 && Script.Items(flags).Some?
    requires c.scriptSig == ScriptSig(height, flags, time, [])
    ensures Writable(Outputs(c)) && DecodeTx(Splice(FirstHalf(c), extraNonce1, extraNonce2, SecondHalf(Outputs(c)))) == Some(tx)
    ensures |tx.inputs| == 1 && tx.outputs == Outputs(c) && LittleEndian(h) == height && LittleEndian(t) == time
    ensures Script.Items(tx.inputs[0].script)
      == Some([Script.Push(h)] + (Script.Items(flags).value + [Script.Push(t), Script.Push(extraNonce1 + extraNonce2)]))
  {
    hide Script.Items, LittleEndian, Outputs, Payable, Serializable, Splice, DecodeTx, FirstHalf, SecondHalf, ScriptSig;
    SplicedDecodes(c, extraNonce1, extraNonce2);
    var script := c.scriptSig + extraNonce1 + extraNonce2;
    tx := Tx(c.version, [Input(Zeros(32), TWO32 - 1, script, 0)], Outputs(c), 0);
    h, t := ScriptSays(height, flags, time, extraNonce1, extraNonce2);
    assert script == c.scriptSig + (extraNonce1 + extraNonce2);
  }

  lemma SerializedNotEmpty(n: nat)
    requires n < 0x8000_0000
    ensures 1 <= |Script.Serialized(n)| <= 5
  {
    hide Script.NumberBytes;
    Script.FourBytes(n);
  }

  /** The time push and the nonce push. */
  lemma {:induction false} LastItems(tail: seq<byte>, t: seq<byte>, last: seq<byte>, nonces: seq<byte>)
    requires |nonces| == PLACEHOLDER && last == [PLACEHOLDER] + [] + nonces
    requires Script.ReadItem(tail) == Some(Read(Script.Push(t), last)) && |last| < |tail|
    ensures Script.Items(tail) == Some([Script.Push(t), Script.Push(nonces)])
  {
    hide Script.ReadItem;
    NoncesPushed(nonces);
    Script.ItemFirst(last, Script.Push(nonces), []);
    assert Script.Items([]) == Some([]);
    assert [Script.Push(nonces)] + [] == [Script.Push(nonces)];
    Script.ItemFirst(tail, Script.Push(t), last);
    assert [Script.Push(t)] + [Script.Push(nonces)] == [Script.Push(t), Script.Push(nonces)];
  }

  /** The flags matter: a lone 0x4b announces 75 bytes, more than are left, and nothing after the
      height can be read. */
  lemma {:induction false} FlagsCanSwallow(height: nat, time: nat, extraNonce1: Bytes4, extraNonce2: Bytes8)
    requires height < 0x8000_0000 && time < 0x8000_0000
    ensures Script.Items([0x4b]).None?
    ensures Script.Items(ScriptSig(height, [0x4b], time, []) + (extraNonce1 + extraNonce2)).None?
  {
    hide Script.Serialized, LittleEndian;
    var nonces := extraNonce1 + extraNonce2;
    var h, rest := HeightFirst(height, [0x4b], time, [], nonces);
    SerializedNotEmpty(height);
    SerializedNotEmpty(time);
    assert rest[0] == 0x4b && |rest[1..]| < 75;
    assert Script.ReadItem(rest).None?;
    hide Script.ReadItem;
    Script.ItemFirst(ScriptSig(height, [0x4b], time, []) + nonces, Script.Push(h), rest);
  }

  lemma {:induction false} NoncesPushed(n: seq<byte>)
    requires |n| == PLACEHOLDER
    ensures Script.ReadItem([PLACEHOLDER] + [] + n) == Some(Read(Script.Push(n), []))
  {
    hide Script.ReadItem;
    Script.DataReadBack(n, []);
    assert [PLACEHOLDER] + [] + n == Script.Prefix(PLACEHOLDER) + n + [];
  }
}
