/**
 * The guest's `quadratic` computation, step by step: the score loop, the
 * payout loop, the leaf loop and the conversion of the Merkle root, each
 * proved equal to the pure definitions of modules QuadraticFunding and
 * MerkleLeaves.
 *
 * Every intermediate value is stored in a `U256` variable or array, so the
 * verifier checks that each addition and multiplication stays below 2^256
 * under `NoOverflow`.
 */
module Guest {
  import opened BigEndian
  import opened QuadraticFunding
  import opened MerkleLeaves

  /**
   * The first loop: for each grant, x[i] accumulates d*d and y[i] accumulates
   * d over its donations, then x[i] is squared and added to the cumulative
   * score.
   */
  method Scores(donations: seq<seq<U256>>) returns (x: seq<U256>, y: seq<U256>, cumulative: U256)
    requires ScoresFit(donations)
    ensures |x| == |donations| && |y| == |donations|
    ensures forall i :: 0 <= i < |donations| ==> x[i] == X(donations[i]) && y[i] == Sum(donations[i])
    ensures cumulative == Cumulative(donations)
  {
    var n := |donations|;
    var xs := new U256[n](_ => 0);
    var ys := new U256[n](_ => 0);
    cumulative := 0;
    for i := 0 to n
      invariant forall k :: 0 <= k < i ==> xs[k] == X(donations[k]) && ys[k] == Sum(donations[k])
      invariant forall k :: i <= k < n ==> xs[k] == 0 && ys[k] == 0
      invariant cumulative == Cumulative(donations[..i])
    {
      var grant := donations[i];
      RunningCumulativeStep(donations, i);
      SumSqBelowScore(grant);
      AccumulateGrant(xs, ys, i, grant);
      xs[i] := xs[i] * xs[i];  // x[i].pow(2)
      cumulative := cumulative + xs[i];
    }
    assert donations[..n] == donations;
    x, y := xs[..], ys[..];
  }

  /**
   * The inner loop of the score loop: adds d*d to x[i] and d to y[i] for each
   * donation d of the grant, in place, leaving every other entry alone.
   */
  method AccumulateGrant(xs: array<U256>, ys: array<U256>, i: nat, grant: seq<U256>)
    requires xs != ys && i < xs.Length && i < ys.Length
    requires xs[i] == 0 && ys[i] == 0
    requires SumSq(grant) < WordLimit && Sum(grant) < WordLimit
    modifies xs, ys
    ensures xs[i] == SumSq(grant) && ys[i] == Sum(grant)
    ensures forall k :: 0 <= k < xs.Length && k != i ==> xs[k] == old(xs[k])
    ensures forall k :: 0 <= k < ys.Length && k != i ==> ys[k] == old(ys[k])
  {
    for j := 0 to |grant|
      invariant xs[i] == SumSq(grant[..j]) && ys[i] == Sum(grant[..j])
      invariant forall k :: 0 <= k < xs.Length && k != i ==> xs[k] == old(xs[k])
      invariant forall k :: 0 <= k < ys.Length && k != i ==> ys[k] == old(ys[k])
    {
      var donation := grant[j];
      RunningSumsStep(grant, j);
      var square: U256 := donation * donation;
      xs[i] := xs[i] + square;
      ys[i] := ys[i] + donation;
    }
    assert grant[..|grant|] == grant;
  }

  /**
   * The first two loops: the scores, then receive[i] = y[i] + x[i] * m /
   * cumulative for each grant, aborting at the division when the cumulative
   * score is zero.
   */
  method Distribute(donations: seq<seq<U256>>, m: U256) returns (r: Result<seq<U256>>)
    requires NoOverflow(donations, m)
    ensures r == Payouts(donations, m)
  {
    var x, y, cumulative := Scores(donations);
    var n := |donations|;
    var receive := new U256[n](_ => 0);
    for i := 0 to n
      invariant forall k :: 0 <= k < i ==>
        cumulative > 0 && receive[k] == Sum(donations[k]) + Share(donations[k], m, cumulative)
    {
      if cumulative == 0 {
        return Err(DivisionByZero);
      }
      var product: U256 := x[i] * m;
      var receiveFromMatch: U256 := product / cumulative;
      var receiveFromGrant := y[i] + receiveFromMatch;
      receive[i] := receiveFromGrant;
    }
    assert n > 0 ==> cumulative > 0;
    assert receive[..] == Payouts(donations, m).value;
    r := Ok(receive[..]);
  }

  /** The leaf loop: each leaf is the index bytes followed by the amount bytes. */
  method BuildLeaves(receive: seq<U256>, w: nat) returns (leaves: seq<seq<byte>>)
    requires |receive| <= Pow256(w)
    ensures leaves == Leaves(receive, w)
    ensures forall i :: 0 <= i < |leaves| ==>
      |leaves[i]| == w + 32 && DecodeLeaf(leaves[i], w) == (i, receive[i] as nat)
  {
    leaves := [];
    for i := 0 to |receive|
      invariant |leaves| == i
      invariant forall k :: 0 <= k < i ==> leaves[k] == Leaf(k, receive[k], w)
    {
      var leaf: seq<byte> := [];
      leaf := leaf + ToBE(i, w);
      leaf := leaf + ToBE(receive[i], 32);
      leaves := leaves + [leaf];
    }
    forall i | 0 <= i < |leaves|
      ensures |leaves[i]| == w + 32 && DecodeLeaf(leaves[i], w) == (i, receive[i] as nat)
    {
      LeafRoundTrip(i, receive[i], w);
    }
  }

  /** Copies the root into a 32-byte buffer and reads it as a big-endian U256. */
  method RootToWord(root: seq<byte>) returns (r: Result<U256>)
    ensures r == RootValue(root)
  {
    if |root| != 32 {
      return Err(RootLengthMismatch);
    }
    var rootBytes := new byte[32](_ => 0);
    forall k | 0 <= k < 32 {
      rootBytes[k] := root[k];
    }
    assert rootBytes[..] == root;
    WordIs32Bytes();
    r := Ok(FromBE(rootBytes[..]));
  }

  /**
   * The whole computation: payouts, leaves, the Merkle root of the leaves
   * (`merkleRoot`, the tree library) and its reading as a U256. It aborts on
   * division by zero exactly when there are grants and every donation is
   * zero; otherwise the result's 32-byte encoding is the root of the leaves
   * of the payouts.
   */
  method Quadratic(donations: seq<seq<U256>>, m: U256, w: nat, merkleRoot: seq<seq<byte>> -> seq<byte>)
    returns (r: Result<U256>)
    requires NoOverflow(donations, m)
    requires |donations| <= Pow256(w)
    ensures r == Err(DivisionByZero) <==> |donations| > 0 && AllZero(donations)
    ensures r.Ok? ==>
      (Payouts(donations, m).Ok? && ToBE(r.value, 32) == merkleRoot(Leaves(Payouts(donations, m).value, w)))
    ensures Payouts(donations, m).Ok? ==>
      (r == Err(RootLengthMismatch) <==> |merkleRoot(Leaves(Payouts(donations, m).value, w))| != 32)
  {
    DivisionByZeroIff(donations, m);
    var receive := Distribute(donations, m);
    if receive.Err? {
      return Err(receive.error);
    }
    var leaves := BuildLeaves(receive.value, w);
    var root := merkleRoot(leaves);
    r := RootToWord(root);
  }
}
