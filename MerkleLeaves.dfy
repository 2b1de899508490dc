/**
 * The byte strings the program hands to its Merkle tree, and the reading of
 * the tree's 32-byte root as a 256-bit integer.
 *
 * Leaf i is the big-endian index i in the platform's index width `w` (4 bytes
 * on a 32-bit guest) followed by the 32 big-endian bytes of receive[i]. The
 * tree itself (hashing, odd-node and single-leaf rules) is not part of this
 * model: module Guest takes it as a function of the leaf sequence.
 */
module MerkleLeaves {
  import opened BigEndian
  import opened QuadraticFunding

  /** The leaf of grant i paid r, with a w-byte index. */
  function Leaf(i: nat, r: nat, w: nat): seq<byte>
  {
    ToBE(i, w) + ToBE(r, 32)
  }

  /** One leaf per payout, in grant order. */
  function Leaves(receive: seq<nat>, w: nat): (ls: seq<seq<byte>>)
    ensures |ls| == |receive|
  {
    seq(|receive|, i requires 0 <= i < |receive| => Leaf(i, receive[i], w))
  }

  /** Reads a leaf back as (index, amount): the layout a verifier re-derives. */
  function DecodeLeaf(leaf: seq<byte>, w: nat): (nat, nat)
    requires |leaf| >= w
  {
    (FromBE(leaf[..w]), FromBE(leaf[w..]))
  }

  /**
   * A leaf is w + 32 bytes long and decodes to the index and the amount it
   * was built from, whenever both fit their widths.
   */
  lemma LeafRoundTrip(i: nat, r: nat, w: nat)
    requires i < Pow256(w) && r < WordLimit
    ensures |Leaf(i, r, w)| == w + 32
    ensures DecodeLeaf(Leaf(i, r, w), w) == (i, r)
  {
    var leaf := Leaf(i, r, w);
    assert leaf[..w] == ToBE(i, w);
    assert leaf[w..] == ToBE(r, 32);
    FromToBE(i, w);
    WordIs32Bytes();
    FromToBE(r, 32);
  }

  /**
   * Distinct payout lists give distinct leaf sequences: the leaves commit to
   * every amount and to its grant position.
   */
  lemma LeavesInjective(r1: seq<nat>, r2: seq<nat>, w: nat)
    requires |r1| <= Pow256(w) && |r2| <= Pow256(w)
    requires forall i :: 0 <= i < |r1| ==> r1[i] < WordLimit
    requires forall i :: 0 <= i < |r2| ==> r2[i] < WordLimit
    requires Leaves(r1, w) == Leaves(r2, w)
    ensures r1 == r2
  {
    forall i | 0 <= i < |r1| ensures r1[i] == r2[i] {
      assert Leaves(r1, w)[i] == Leaves(r2, w)[i];
      LeafRoundTrip(i, r1[i], w);
      LeafRoundTrip(i, r2[i], w);
    }
  }

  /**
   * Exchanging two grants whose payouts differ changes the leaves: the leaf
   * sequence records which grant position received which amount.
   */
  lemma SwapChangesLeaves(ds: seq<seq<nat>>, i: nat, j: nat, m: nat, w: nat)
    requires i < |ds| && j < |ds| && |ds| <= Pow256(w)
    requires Payouts(ds, m).Ok?
    requires Payouts(ds, m).value[i] < WordLimit && Payouts(ds, m).value[j] < WordLimit
    requires Payouts(ds, m).value[i] != Payouts(ds, m).value[j]
    ensures Payouts(Swap(ds, i, j), m).Ok?
    ensures Leaves(Payouts(Swap(ds, i, j), m).value, w) != Leaves(Payouts(ds, m).value, w)
  {
    SwapGrants(ds, i, j, m);
    var v := Payouts(ds, m).value;
    var u := Payouts(Swap(ds, i, j), m).value;
    assert u[i] == v[j];
    LeafRoundTrip(i, v[i], w);
    LeafRoundTrip(i, v[j], w);
    assert Leaves(u, w)[i] != Leaves(v, w)[i];
  }

  /**
   * The root copied into a 32-byte buffer and read as a big-endian integer;
   * a root of any other length makes the copy abort.
   */
  function RootValue(root: seq<byte>): (r: Result<U256>)
    ensures r.Ok? <==> |root| == 32
    ensures r.Err? ==> r.error == RootLengthMismatch
    ensures r.Ok? ==> ToBE(r.value, 32) == root
  {
    if |root| == 32 then
      ToFromBE(root);
      WordIs32Bytes();
      Ok(FromBE(root))
    else
      Err(RootLengthMismatch)
  }
}
