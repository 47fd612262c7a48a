# Closed syncmers, modelled and verified in Dafny

This project models the two implementations of closed-syncmer selection in
csyncmers and proves that they compute the same thing.

A **closed syncmer** is a k-mer (K consecutive bases of a nucleotide string)
whose smallest s-mer sits at the k-mer's first or its last s-mer position
(S < K). "Smallest" means the s-mer with the smallest canonical hash. Among
equal hashes, the leftmost one counts.

The canonical hash of an s-mer is the smaller of two 2-bit packings:
- the forward encoding, with the first base most significant;
- the reverse-complement encoding, where the complement of base k is the digit of weight 4^k.

The canonical hash is therefore the same on both strands.

The model has four modules:

- `Nucleotide` (nucleotide.dfy):
  - `base_to_bits` and `complement_base`;
  - the two packings `Fwd` and `Rc` and the canonical hash `Canon`;
  - the arithmetic behind every bit operation of the source. Unsigned 128-bit
    values are unbounded naturals:
    - `(x << 2) | b` is `x * 4 + b`;
    - `& mask` is `% 4^S`;
    - `>> 2` is `/ 4`;
    - an OR of disjoint bit ranges is an addition.
  - the rolling-update lemmas;
  - the strand symmetry of the canonical hash.
- `SyncmerSpec` (syncmer_spec.dfy): the definition both implementations meet.
  - `Syncmers` slides a window of W = K-S+1 hashes over the array of all s-mer
    hashes.
  - `NaiveSyncmers` recomputes each k-mer's own hashes.
  - `NaiveAgreesWithSyncmers` proves that the two give the same
    (k-mer position, hash) sequence.
  - It also proves the listed properties: exact membership, strictly
    increasing k-mer positions, at most one record per k-mer, and
    leftmost-minimum tie-breaking.
- `ClosedSyncmers` (closed_syncmers.dfy): `add_minimizer` and
  `compute_closed_syncmers` as methods over arrays.
  - A rolling pass fills the s-mer hash array.
  - A monotonic deque, held in an array between `front` and `back`, yields
    the leftmost minimum of every window.
  - The deque invariant `MonotoneWindow` says three things: positions
    strictly increase, hashes do not decrease, and every dropped position is
    beaten by a later entry.
  - The output buffer ends up holding exactly `Syncmers(s, K, S)`.
- `ClosedSyncmersNaive` (closed_syncmers_naive.dfy):
  `compute_closed_syncmers_naive` as three nested loops. It is proved to
  fill its buffer with exactly `NaiveSyncmers(s, K, S)`.

Each loop body of the source is a separate method with its own contract (for
example `HashStep`, `WindowStep`, `NaiveKmerStep`). Each loop then carries a
single invariant that the body's method preserves. The statements inside
those methods are those of the source, in the source's order.

## Model

| member | source | states |
|---|---|---|
| Nucleotide.BaseToBits | closed_syncmers.h:29-37 | upper- and lower-case A, C, G, T map to codes that spell the same letter back; every other character maps to 0 (A); the result is below 4 |
| Nucleotide.ComplementBase | closed_syncmers.h:40-42 | the complement code spells the Watson-Crick partner (A-T, C-G) |
| Nucleotide.ComplementInvolutive | closed_syncmers.h:40-42 | complementing twice gives the base back, and no base is its own complement |
| Nucleotide.Fwd | closed_syncmers_naive.h:27-30 | the forward packing of w is below 4^abs(w), i.e. it fits in 2·abs(w) bits |
| Nucleotide.Rc | closed_syncmers_naive.h:32-33 | the reverse-complement packing of w fits in 2·abs(w) bits |
| Nucleotide.Canon | closed_syncmers.h:74 | the canonical hash of an s-mer fits in 2S bits |
| Nucleotide.Pow4BelowAllOnes | closed_syncmers_naive.h:17 | for S up to 63, every 2S-bit value is strictly below the all-ones 128-bit start value of the naive minimum |
| Nucleotide.Pow4AtMaxS | closed_syncmers.h:63 | 4^63 is 2^126, the mask bound for the largest S the 128-bit shift allows |
| Nucleotide.FwdSnoc | closed_syncmers_naive.h:30 | appending a base multiplies the forward packing by 4 and adds the base's code |
| Nucleotide.FwdCons | closed_syncmers.h:69 | the first base of w is the forward packing's most significant digit, of weight 4^(abs(w)-1) |
| Nucleotide.RcSnoc | closed_syncmers_naive.h:33 | appending a base adds its complement at weight 4^abs(w) to the reverse-complement packing |
| Nucleotide.FwdShiftIn | closed_syncmers.h:69 | shifting a base into the forward packing of w equals the first base at digit abs(w) plus the forward packing of the next s-mer, which is below 4^abs(w) |
| Nucleotide.FwdRoll | closed_syncmers.h:69 | shift left by 2, OR in the new base, and mask to 2S bits: the result is the forward packing of the s-mer one base to the right |
| Nucleotide.RcRoll | closed_syncmers.h:71 | shift right by 2, OR the complement in at bit 2(S-1), and mask: the result is the reverse-complement packing of the s-mer one base to the right |
| Nucleotide.ReverseComplementSymmetric | closed_syncmers.h:40-42 | if v is the reverse complement of w, then w is the reverse complement of v |
| Nucleotide.FwdOfReverseComplement | closed_syncmers_naive.h:27-34 | the forward packing of the reverse complement of w equals the reverse-complement packing of w |
| Nucleotide.CanonSymmetric | closed_syncmers_naive.h:37 | an s-mer and its reverse complement swap their two packings, so they have the same canonical hash |
| SyncmerSpec.LeftmostMin | closed_syncmers_naive.h:38-41 | the strict-`<` scan returns a position inside the scanned range |
| SyncmerSpec.LeftmostMinCorrect | closed_syncmers_naive.h:38-41 | the strict-`<` scan finds a position whose hash is no larger than any in the range and strictly smaller than every hash before it (the leftmost minimum) |
| SyncmerSpec.LeftmostMinUnique | closed_syncmers.h:86-96 | any leftmost minimum of a range is the one the scan finds, so a procedure proved to find a leftmost minimum agrees with the scan |
| SyncmerSpec.SyncmerAtLeftmost | closed_syncmers.h:95-101 | given the leftmost minimum m of window q, the window contributes (h[m], q, m) exactly when m is q or q+W-1, and nothing otherwise |
| SyncmerSpec.SyncmersUpToNext | closed_syncmers.h:95-101 | one more window appends exactly what that window contributes, read off its leftmost minimum |
| SyncmerSpec.SyncmerAtMembers | closed_syncmers.h:95-101 | the records contributed by window q are exactly the syncmer records with k-mer position q |
| SyncmerSpec.SyncmersUpToMembers | closed_syncmers.h:95-101 | a record is among those of the first n windows iff its k-mer position is below n, its s-mer is the leftmost minimum of its window, it is at one of the window's two ends, and it carries that s-mer's hash |
| SyncmerSpec.SyncmersUpToOrdered | closed_syncmers.h:85-101 | records come out in strictly increasing k-mer position, each below n |
| SyncmerSpec.SyncmersUpToCount | closed_syncmers.h:95-101 | at most one record per window |
| SyncmerSpec.SyncmersUpToGrows | closed_syncmers.h:85-103 | fewer windows give no more records |
| SyncmerSpec.SyncmersUpToPrefix | closed_syncmers.h:85-103 | the records of fewer windows are a prefix of those of more windows (records are only appended) |
| SyncmerSpec.SyncmersProperties | closed_syncmers.h:52-103 | for a sequence shorter than K there are no records; otherwise there are at most len-K+1, they are exactly the closed-syncmer records of k-mers inside the sequence, and their k-mer positions strictly increase |
| SyncmerSpec.WindowShift | closed_syncmers_naive.h:21-41 | the leftmost minimum of a window of the global hash array is the window start plus the leftmost minimum of the same hashes indexed from 0 |
| SyncmerSpec.KmerHashesSlice | closed_syncmers_naive.h:21-37 | the hashes the oracle recomputes for the k-mer at q are the slice of the global s-mer hash array under that k-mer |
| SyncmerSpec.NaiveUpToWindows | closed_syncmers_naive.h:16-50 | the oracle's records are those of the same per-window scan run over slices of the global s-mer hash array |
| SyncmerSpec.NaiveUpToWindowsStep | closed_syncmers_naive.h:16-50 | agreement of the oracle and the slice reading over the first m k-mers extends to m+1 |
| SyncmerSpec.WindowAgrees | closed_syncmers_naive.h:45-49 | for one window, the deque version's record (minus its s-mer position) and the oracle's record are equal, or both absent |
| SyncmerSpec.WindowsAgree | closed_syncmers.h:95-101 | over the first n windows, the (k-mer position, hash) pairs of the deque version's records equal the oracle's records |
| SyncmerSpec.WindowsAgreeStep | closed_syncmers.h:95-101 | agreement over m windows extends to m+1 |
| SyncmerSpec.NaiveAgreesWithSyncmers | closed_syncmers_naive.h:11-50 | for 0 < S < K <= len, `compute_closed_syncmers` and `compute_closed_syncmers_naive` emit the same sequence of (k-mer position, minimizer hash) pairs |
| SyncmerSpec.NaiveUpToMembers | closed_syncmers_naive.h:45-50 | a record is among the oracle's first n iff its position is below n and it is the record that k-mer contributes |
| SyncmerSpec.NaiveSyncmersProperties | closed_syncmers_naive.h:16-50 | the oracle emits at most len-K+1 records in strictly increasing position; the record (q, hash of the leftmost minimum) is present iff the leftmost minimum is at offset 0 or K-S |
| ClosedSyncmers.AddMinimizer | closed_syncmers.h:45-50 | writes only slot `size` with the given record, increments the count by exactly one, and leaves every other slot unchanged |
| ClosedSyncmers.RecentStep | closed_syncmers.h:67-71 | the bases covered by the rolling state after base i are those before it with base i appended, the oldest dropped once S are in |
| ClosedSyncmers.FwdStep | closed_syncmers.h:69 | the masked forward update gives the forward packing of the covered bases, both while fewer than S bases have been read and afterwards |
| ClosedSyncmers.RcStep | closed_syncmers.h:71 | the masked reverse update keeps `hash_rev` equal to the reverse-complement packing of the covered bases, placed in the top digits of 2S bits |
| ClosedSyncmers.RcFull | closed_syncmers.h:71 | with S bases covered, one reverse update rolls the reverse-complement packing by one base |
| ClosedSyncmers.RcGrow | closed_syncmers.h:71 | with fewer than S bases covered, one reverse update adds the new complement as the top digit |
| ClosedSyncmers.StoredCanon | closed_syncmers.h:72-75 | from base S-1 on, the smaller accumulator is the canonical hash of the s-mer ending at base i |
| ClosedSyncmers.RollStep | closed_syncmers.h:68-71 | one base rolled into both accumulators keeps them equal to the two packings of the covered bases |
| ClosedSyncmers.RolledFwd | closed_syncmers.h:69 | the forward update computed from the loop's variables is the forward packing of the newly covered bases |
| ClosedSyncmers.RolledRev | closed_syncmers.h:71 | the reverse update computed from the loop's variables is the reverse accumulator of the newly covered bases |
| ClosedSyncmers.CanonWanted | closed_syncmers.h:72-74 | once base i completes an s-mer, `min(hash_fwd, hash_rev)` is the canonical hash of that s-mer |
| ClosedSyncmers.StoreHash | closed_syncmers.h:72-76 | the canonical hash is stored at the s-mer's start position i-S+1 once i >= S-1; all slots filled before stay filled |
| ClosedSyncmers.HashStep | closed_syncmers.h:67-77 | one iteration of the hash pass keeps both accumulators equal to the packings of the covered bases and fills one more slot with its s-mer's canonical hash |
| ClosedSyncmers.PrecomputeSmerHashes | closed_syncmers.h:59-77 | the new array holds, at every start position, the canonical hash of the s-mer starting there |
| ClosedSyncmers.DequePop | closed_syncmers.h:86-88 | popping a back entry whose hash is strictly greater than the incoming one keeps every popped position beaten by the incoming hash |
| ClosedSyncmers.DequePush | closed_syncmers.h:89 | pushing position i after the pops keeps the invariant: positions increasing, hashes non-decreasing, skipped positions beaten, i at the back |
| ClosedSyncmers.DequeEvict | closed_syncmers.h:90-92 | when the front is the position that just left the window, it is the only entry outside it, so one `front++` restores the invariant for the new window |
| ClosedSyncmers.DequeSlide | closed_syncmers.h:90 | when the front is still inside, moving the window start on needs no eviction |
| ClosedSyncmers.DequeFrontIsLeftmostMin | closed_syncmers.h:96 | the front of the deque is the leftmost minimum of the window |
| ClosedSyncmers.DequeFrontBelow | closed_syncmers.h:86-96 | no position from the front up to any entry has a hash below the front's |
| ClosedSyncmers.PopGreater | closed_syncmers.h:86-88 | the pop loop stops at an entry whose hash is no greater than h[i], and every popped position's hash is strictly greater than h[i] (equal hashes stay, so ties keep the earlier position) |
| ClosedSyncmers.PushPosition | closed_syncmers.h:86-89 | after pops and the push, the deque array holds a monotone deque for the hashes up to i, with at most one more entry |
| ClosedSyncmers.EvictExpired | closed_syncmers.h:90-92 | after the single conditional `front++`, the deque covers exactly the window ending at i |
| ClosedSyncmers.SlideWindow | closed_syncmers.h:85-92 | the deque steps for s-mer i leave a monotone deque for the window of W hashes ending at i, within the array bounds |
| ClosedSyncmers.FrontOfFullWindow | closed_syncmers.h:95-96 | from i >= W-1 on, `deque[front]` is a valid index and the leftmost minimum of the window ending at i |
| ClosedSyncmers.ReportFront | closed_syncmers.h:95-101 | the record (hash at min_pos, kmer_pos, min_pos) is appended exactly when a full window's minimum is at kmer_pos or kmer_pos+K-S; slots beyond the new count are untouched |
| ClosedSyncmers.WindowEnds | closed_syncmers.h:95-101 | the window ending at i adds exactly its record-if-at-an-end when it is full, and nothing while fewer than W hashes have been read |
| ClosedSyncmers.FullWindowEnds | closed_syncmers.h:95-101 | the full window ending at i adds its record-if-at-an-end to the records of the windows before it |
| ClosedSyncmers.EndedWithinAll | closed_syncmers.h:100 | the records so far never outnumber those of the whole sequence, so the buffer is never overrun |
| ClosedSyncmers.PassStart | closed_syncmers.h:80-82 | the empty deque and empty output satisfy the window-pass invariant before the first s-mer |
| ClosedSyncmers.WindowStep | closed_syncmers.h:85-103 | one iteration of the window pass keeps the deque invariant and extends the output by exactly the records of the windows that end at i, writing nowhere else |
| ClosedSyncmers.SelectClosedWindows | closed_syncmers.h:79-103 | the window pass writes exactly the closed-window records of the hash array, in window order, into the buffer's first slots and leaves the rest unchanged |
| ClosedSyncmers.ComputeClosedSyncmers | closed_syncmers.h:52-107 | the output is exactly the closed syncmers of the sequence (none when len < K), in k-mer order, and buffer slots beyond the count are unchanged |
| ClosedSyncmersNaive.NaiveSmerHash | closed_syncmers_naive.h:22-37 | the from-scratch loop yields the canonical hash of the s-mer at p, strictly below the all-ones start value |
| ClosedSyncmersNaive.NaiveHashStep | closed_syncmers_naive.h:27-34 | one base keeps `hash_fwd` and `hash_rev` equal to the forward and reverse-complement packings of the bases read so far |
| ClosedSyncmersNaive.ExtendFwd | closed_syncmers_naive.h:30 | while fewer than S bases have been read the mask removes nothing, so the masked update is the forward packing with the base appended |
| ClosedSyncmersNaive.NaiveKmerMinimum | closed_syncmers_naive.h:17-42 | `min_pos_in_kmer` is the leftmost minimum of the k-mer's recomputed hashes and `min_hash` is the hash there (the strict `<` against the all-ones start value) |
| ClosedSyncmersNaive.NaiveAtFromMinimum | closed_syncmers_naive.h:45-49 | given that leftmost minimum m, the k-mer contributes (q, its hash) exactly when m is 0 or K-S |
| ClosedSyncmersNaive.NaiveKmerStep | closed_syncmers_naive.h:16-50 | one outer iteration appends exactly the k-mer's record, if any, at slot `num_results` and writes nowhere else |
| ClosedSyncmersNaive.NaiveUpToGrows | closed_syncmers_naive.h:45-50 | fewer k-mers give no more records |
| ClosedSyncmersNaive.NaiveUpToFits | closed_syncmers_naive.h:47-49 | the records of the first i k-mers never outnumber the whole output, so the buffer is never overrun |
| ClosedSyncmersNaive.ComputeClosedSyncmersNaive | closed_syncmers_naive.h:11-52 | for 0 < S < K <= len the output is exactly the oracle's records, one per closed k-mer in k-mer order, and buffer slots beyond the count are unchanged |

## Left out

- Diagnostics and allocation. These are not modelled:
  - the `fprintf` to stderr when len < K, which is modelled as returning no records;
  - the commented-out `printf`;
  - `malloc`/`free`. The two work buffers are fresh Dafny arrays, and nothing is freed.
- 128-bit arithmetic is not modelled.
  - Values are unbounded naturals, and every operation requires S <= 63.
  - S = 64 makes `1 << (2*S)` undefined in the source.
  - Below S = 64 nothing overflows, so no wrap-around needs modelling.
  - `int` and `size_t` widths of `len`, `K`, `S` and the counters are not modelled either.
- Parameter validation is a precondition: `0 < S < K` for both functions.
  - The source leaves S >= K to its caller in test.c, which rejects it.
  - The naive oracle also requires `K <= len`, because its loop bound `seq_len - K` is unsigned and would underflow.
- The `results` buffer is the caller's and is never bounds-checked by the source.
  - Both functions require it to have room for every record they will write.
  - `SyncmersProperties` and `NaiveSyncmersProperties` show that len-K+1 slots always suffice.
- The naive oracle writes a `.position` field that `MinimizerResult` does not have, and it records no s-mer position. Its records are modelled as `NaiveResult(position, minimizerHash)`. They are compared with the (k-mer position, hash) part of the optimised records.
- benchmark.c and test.c are not part of this model:
  - random sequence generation, timing, and throughput reporting;
  - argument parsing and exit codes.
