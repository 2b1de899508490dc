# Quadratic-funding guest computation in Dafny

This project models `quadratic`, the computation that the quadratic-funding
zkVM guest runs on its decoded input. The input is a list of grants, each a
list of 256-bit donation amounts, plus a 256-bit matching pool. For each grant
the guest computes a score `x[i] = (Σ d²)²`. This is the program's literal
formula, reproduced as written, not the textbook `(Σ √d)²`. It also computes
the plain sum `y[i] = Σ d`. It pays each grant
`receive[i] = y[i] + x[i] * matching / Σ x` with floor division. It then builds
one Merkle leaf per grant: the big-endian index followed by the 32 big-endian
bytes of the payout. The result is the tree's 32-byte root read as a
big-endian 256-bit integer.

Files:

- `Arith.dfy`: a few facts of non-linear integer arithmetic (distribution,
  cancelling a positive factor, floor-division bounds) used by the other proofs.
- `BigEndian.dfy`: bytes, `U256` as a natural number below 2^256, and the
  n-byte big-endian encoding and decoding with both round trips.
- `QuadraticFunding.dfy`: the arithmetic as pure functions (`Sum`, `SumSq`,
  `X`, `Cumulative`, `Payouts`). It also holds the no-overflow condition and
  the lemmas about the distribution.
- `MerkleLeaves.dfy`: the leaf layout, its decoding, and the reading of the
  root.
- `Guest.dfy`: the computation as imperative methods with the source's loops
  and in-place vectors (`x`, `y`, `receive` as arrays, `leaves` built by
  appending). Each method is proved equal to the pure definitions.

Conventions:

- The input `donations` is a sequence value, so no method can modify it.
- `receive` has one entry per grant, in grant order (`Payouts`,
  `Distribute`).
- The index width `w` of `usize::to_be_bytes` is a parameter: 4 on the
  32-bit RISC Zero guest.
- The Merkle tree is the parameter `merkleRoot`, a function from the leaf
  sequence to the root bytes.

## Model

| member | source | states |
|---|---|---|
| `Guest.Scores` | methods/guest/src/bin/quadratic.rs:14-29 | after the score loop, `x[i]` is the square of the sum of the squared donations of grant i, `y[i]` is the sum of its donations, and `cumulative` is the sum of all `x[i]`; every running sum fits in 256 bits |
| `Guest.AccumulateGrant` | methods/guest/src/bin/quadratic.rs:22-25 | the donation loop of grant i leaves `x[i]` equal to the sum of the squared donations and `y[i]` equal to their sum, and no other entry of `x` or `y` changes |
| `Guest.Distribute` | methods/guest/src/bin/quadratic.rs:19-36 | the payout loop yields exactly `Payouts`: one `y[i] + x[i] * m / cumulative` per grant, in order, or the division-by-zero abort |
| `Guest.BuildLeaves` | methods/guest/src/bin/quadratic.rs:39-45 | one leaf per payout, in order; leaf i is `w + 32` bytes and decodes to `(i, receive[i])` |
| `Guest.RootToWord` | methods/guest/src/bin/quadratic.rs:52-55 | copying the root into a 32-byte buffer and reading it big-endian gives `RootValue`; a root of another length aborts the copy |
| `Guest.Quadratic` | methods/guest/src/bin/quadratic.rs:12-56 | aborts on division by zero exactly when there are grants and every donation is zero; otherwise the 32-byte encoding of the result is the Merkle root of the leaves of `Payouts`, or the copy aborts when that root is not 32 bytes |
| `QuadraticFunding.Sum` | methods/guest/src/bin/quadratic.rs:24 | `y[i]`: the sum of the donations of one grant, accumulated in donation order |
| `QuadraticFunding.SumSq` | methods/guest/src/bin/quadratic.rs:23 | `x[i]` before squaring: the sum of `d * d` over the donations of one grant |
| `QuadraticFunding.X` | methods/guest/src/bin/quadratic.rs:26 | the score of one grant: `SumSq` squared, as `x[i].pow(2)` |
| `QuadraticFunding.Cumulative` | methods/guest/src/bin/quadratic.rs:28 | `cumulative_quadratic`: the sum of the scores of all grants, accumulated in grant order |
| `QuadraticFunding.Share` | methods/guest/src/bin/quadratic.rs:32 | `receive_from_match`: the score times the matching amount, floor-divided by the cumulative score |
| `QuadraticFunding.NoOverflow` | methods/guest/src/bin/quadratic.rs:23-33 | every value the program stores as a `U256` (running sums, scores, the cumulative score, each product `x[i] * matching_amount`, each payout) is below 2^256 |
| `QuadraticFunding.Payouts` | methods/guest/src/bin/quadratic.rs:31-35 | one payout per grant, and no grant receives less than the sum of its own donations |
| `QuadraticFunding.DivisionByZeroIff` | methods/guest/src/bin/quadratic.rs:31-32 | the payout fails, and only with division by zero, exactly when there is at least one grant and every donation is zero, whatever the matching amount; with no grants nothing is divided |
| `QuadraticFunding.EmptyGrantsAbort` | methods/guest/src/bin/quadratic.rs:21-32 | a non-empty list of grants with no donations aborts on the division |
| `QuadraticFunding.CumulativeZero` | methods/guest/src/bin/quadratic.rs:21-28 | the cumulative score is zero exactly when every donation of every grant is zero |
| `QuadraticFunding.ScoreZero` | methods/guest/src/bin/quadratic.rs:22-26 | a grant's score is zero exactly when all its donations are zero |
| `QuadraticFunding.MatchWithinPool` | methods/guest/src/bin/quadratic.rs:28-33 | the matched parts `receive[i] - y[i]` sum to at most the matching pool and to more than `pool - number of grants` |
| `QuadraticFunding.SharesBounds` | methods/guest/src/bin/quadratic.rs:32 | summed floor shares times the divisor are at most `m * Σx` and fall short of it by at most `|grants| * (divisor - 1)` |
| `QuadraticFunding.SingleGrant` | methods/guest/src/bin/quadratic.rs:26-33 | a single grant with a non-zero score receives its donations plus the whole pool |
| `QuadraticFunding.ReorderDonations` | methods/guest/src/bin/quadratic.rs:22-26 | reordering the donations of one grant changes no payout of any grant |
| `QuadraticFunding.SameScoresSamePayouts` | methods/guest/src/bin/quadratic.rs:31-35 | the payouts depend on each grant only through its donation sum and its score, and on the cumulative score |
| `QuadraticFunding.SwapGrants` | methods/guest/src/bin/quadratic.rs:21-35 | exchanging two grants exchanges their payouts and leaves every other payout alone; an abort stays an abort |
| `QuadraticFunding.CumulativeSwap` | methods/guest/src/bin/quadratic.rs:21-29 | exchanging two grants leaves the cumulative score unchanged |
| `QuadraticFunding.TotalPermutation` | methods/guest/src/bin/quadratic.rs:22-25 | the accumulated sums of a grant do not depend on the order of its donations |
| `QuadraticFunding.TwoGrantExample` | methods/guest/src/bin/quadratic.rs:21-35 | grants `{10}` and `{20}` with a pool of 300 receive 27 and 302 |
| `MerkleLeaves.Leaf` | methods/guest/src/bin/quadratic.rs:41-43 | a leaf is the `w`-byte big-endian index followed by the 32-byte big-endian payout |
| `MerkleLeaves.Leaves` | methods/guest/src/bin/quadratic.rs:39-45 | one leaf per payout, in grant order |
| `MerkleLeaves.SwapChangesLeaves` | methods/guest/src/bin/quadratic.rs:21-45 | exchanging two grants whose payouts differ changes the leaf sequence handed to the Merkle tree |
| `MerkleLeaves.LeafRoundTrip` | methods/guest/src/bin/quadratic.rs:41-43 | a leaf is `w + 32` bytes and decodes to the index and amount it was built from |
| `MerkleLeaves.LeavesInjective` | methods/guest/src/bin/quadratic.rs:39-45 | different payout lists give different leaf sequences, so the leaves fix every amount and its grant position |
| `MerkleLeaves.RootValue` | methods/guest/src/bin/quadratic.rs:52-55 | a 32-byte root is read as the U256 whose big-endian encoding is that root; any other length is the copy's abort |
| `BigEndian.ToBE` | methods/guest/src/bin/quadratic.rs:42-43 | `to_be_bytes`: the n-byte big-endian encoding, most significant byte first, exactly n bytes long |
| `BigEndian.FromToBE` | methods/guest/src/bin/quadratic.rs:42-43 | decoding the n-byte big-endian encoding of a value below 256^n gives the value back |
| `BigEndian.ToFromBE` | methods/guest/src/bin/quadratic.rs:55 | re-encoding a decoded byte string at its own width gives the string back |
| `BigEndian.ToBEInjective` | methods/guest/src/bin/quadratic.rs:42-43 | two in-range values with equal encodings are equal |
| `BigEndian.FromBE` | methods/guest/src/bin/quadratic.rs:55 | a big-endian string of n bytes denotes a value below 256^n, so a 32-byte root always fits a U256 |

## Left out

- Overflow of `U256` `+`, `*` and `pow` is not modelled. These operators belong to `ethereum_types::U256`, which is not part of this model, so whether they wrap or panic cannot be read here. `Guest.Distribute` and `Guest.Quadratic` instead require that every stored value fits in 256 bits (`NoOverflow`); `Guest.Scores` requires only the part its loop needs (`ScoresFit`), and `Guest.AccumulateGrant` that the grant's sum and sum of squares fit. Every sum, square and product the loops compute is stored in a `U256` variable or array entry, so the verifier checks each one against that bound.
- Guest.Quadratic: the Merkle tree (`MerkleTree::<Keccak256, _>::new` and `root()`) is not part of this model. Its hashing and its odd-node and single-leaf rules are not visible, so the root is an arbitrary function `merkleRoot` of the leaf sequence. Because `merkleRoot` is total, an abort inside the tree library (for example on an empty leaf list) cannot be represented. As a result, the model cannot prove, for example, that reordering grants changes the root. It proves the statement one step before the tree: `SwapGrants` shows that exchanging two grants exchanges their payouts, and `SwapChangesLeaves` that when those payouts differ the leaves differ.
- `main` is not modelled: reading the length-prefixed input (`env::read_slice`), ABI decoding and encoding (`ethabi::decode` / `encode`, where a decode failure aborts through `unwrap`), and committing the journal are host I/O and a foreign library.
- `U256::to_be_bytes` and `usize::to_be_bytes` are modelled as `ToBE` with widths 32 and `w`. The index width is a parameter, and `BuildLeaves` requires that every index fits in it, as a `usize` always does for a vector index.
- Determinism holds because every member is a function of its inputs or a method proved equal to one.
- Whether `U256` arithmetic wraps around or aborts is not visible in the code, so the model makes no choice between them: it assumes that no overflow occurs.
