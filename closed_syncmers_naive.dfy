/** The reference oracle of closed_syncmers_naive.h: for every k-mer it
    recomputes the canonical hash of each of its K-S+1 s-mers from scratch,
    keeps the first minimum with a strict `<`, and records the k-mer when that
    minimum is its first or its last s-mer. */
module ClosedSyncmersNaive {
  import opened Nucleotide
  import opened SyncmerSpec

  // The innermost loop: one s-mer's two encodings, from scratch.

  /** The canonical hash of the s-mer at `p`, as the innermost loop computes
      it: after reading the first `k` bases `u` of the s-mer, `hash_fwd` and
      `hash_rev` are the forward and reverse-complement encodings of `u`. */
  method NaiveSmerHash(s: seq<char>, p: nat, S: nat) returns (canonicalHash: nat)
    requires 0 < S <= MaxS && p + S <= |s|
    ensures canonicalHash == Canon(s[p..p + S])
    ensures canonicalHash < AllOnes
  {
    var mask := Pow4(S);
    var hashFwd: nat, hashRev: nat := 0, 0;
    ghost var w := s[p..p + S];
    ghost var u: seq<char> := [];
    for k := 0 to S
      invariant u == w[..k]
      invariant hashFwd == Fwd(u) && hashRev == Rc(u)
    {
      var c := s[p + k];
      assert c == w[k];
      hashFwd, hashRev := NaiveHashStep(c, k, S, mask, hashFwd, hashRev, u);
      PrefixSnoc(w, k);
      u := u + [c];
    }
    assert u == w;
    canonicalHash := if hashFwd < hashRev then hashFwd else hashRev;
    Pow4BelowAllOnes(S);
  }

  /** One base of the innermost loop: `((hash_fwd << 2) | base) & mask` and
      `hash_rev |= comp_base << 2k`. The bits set by the `|=` are above every
      bit of `hash_rev` (which is below 4^k), so the OR is an addition. */
  method NaiveHashStep(c: char, k: nat, S: nat, mask: nat, hashFwd: nat, hashRev: nat, ghost u: seq<char>)
    returns (fwd: nat, rev: nat)
    requires |u| == k < S && mask == Pow4(S)
    requires hashFwd == Fwd(u) && hashRev == Rc(u)
    ensures fwd == Fwd(u + [c]) && rev == Rc(u + [c])
  {
    var base := BaseToBits(c);
    fwd := (hashFwd * 4 + base) % mask;
    var compBase := ComplementBase(base);
    assert hashRev < Pow4(k);
    rev := hashRev + ShiftDigits(compBase, k);
    ExtendFwd(u, c, S, fwd);
    RcSnoc(u, c);
  }

  lemma {:induction false} PrefixSnoc(w: seq<char>, k: nat)
    requires k < |w|
    ensures w[..k] + [w[k]] == w[..k + 1]
  {
  }

  /** Appending base `c` to `u` (shorter than S): the masked forward update
      gives the forward encoding of `u + [c]`; the mask removes nothing. */
  lemma {:induction false} ExtendFwd(u: seq<char>, c: char, S: nat, fwd: nat)
    requires |u| < S
    requires fwd == (Fwd(u) * 4 + BaseToBits(c)) % Pow4(S)
    ensures fwd == Fwd(u + [c])
  {
    FwdSnoc(u, c);
    Pow4Monotone(|u| + 1, S);
    ModOfSmall(Fwd(u + [c]), Pow4(S));
  }

  // The middle loop: the leftmost minimum of one k-mer's s-mer hashes.

  /** The middle loop for the k-mer at `i`: `min_pos_in_kmer` is the leftmost
      offset of the minimum of the k-mer's own s-mer hashes, and `min_hash`
      the hash there. The first s-mer always replaces the all-ones start
      value, because every canonical hash is below it. */
  method NaiveKmerMinimum(s: seq<char>, K: nat, S: nat, i: nat) returns (minHash: nat, minPosInKmer: nat)
    requires 0 < S < K && S <= MaxS && i + K <= |s|
    ensures IsLeftmostMin(KmerHashes(s, K, S, i), 0, K - S + 1, minPosInKmer)
    ensures minHash == KmerHashes(s, K, S, i)[minPosInKmer]
  {
    ghost var local := KmerHashes(s, K, S, i);
    minHash := AllOnes;
    minPosInKmer := 0;
    for j := 0 to K - S + 1
      invariant j == 0 ==> minHash == AllOnes && minPosInKmer == 0
      invariant 0 < j ==> minPosInKmer == LeftmostMin(local, 0, j) && minHash == local[minPosInKmer]
    {
      var canonicalHash := NaiveSmerHash(s, i + j, S);
      assert canonicalHash == local[j];
      if canonicalHash < minHash {
        minHash := canonicalHash;
        minPosInKmer := j;
      }
    }
    LeftmostMinCorrect(local, 0, K - S + 1);
  }

  // The outer loop: one record per closed k-mer.

  /** `results[..n]` holds `want`, slot by slot. */
  ghost predicate NaiveResultsHold(results: array<NaiveResult>, n: int, want: seq<NaiveResult>)
    reads results
  {
    0 <= n <= results.Length && n == |want| && forall k :: 0 <= k < n ==> results[k] == want[k]
  }

  /** The record of the k-mer at `i`, read off the leftmost minimum `m` of
      its own hashes: present exactly when `m` is offset 0 or K-S. */
  lemma {:induction false} NaiveAtFromMinimum(s: seq<char>, K: nat, S: nat, i: nat, m: nat)
    requires 0 < S < K && i + K <= |s|
    requires IsLeftmostMin(KmerHashes(s, K, S, i), 0, K - S + 1, m)
    ensures NaiveAt(s, K, S, i)
            == if m == 0 || m == K - S then [NaiveResult(i, KmerHashes(s, K, S, i)[m])] else []
  {
    LeftmostMinUnique(KmerHashes(s, K, S, i), 0, K - S + 1, m);
  }

  /** One iteration of the outer loop: the k-mer at `i` is recorded, in slot
      `numResults`, when its minimum is at its first or last s-mer. */
  method NaiveKmerStep(s: seq<char>, K: nat, S: nat, i: nat, results: array<NaiveResult>,
                       numResults: int, ghost before: seq<NaiveResult>, ghost after: seq<NaiveResult>)
    returns (newNumResults: int)
    requires 0 < S < K && S <= MaxS && i + K <= |s|
    requires after == before + NaiveAt(s, K, S, i)
    requires NaiveResultsHold(results, numResults, before) && |after| <= results.Length
    modifies results
    ensures NaiveResultsHold(results, newNumResults, after)
    ensures numResults <= newNumResults
    ensures forall k :: newNumResults <= k < results.Length ==> results[k] == old(results[k])
  {
    var minHash, minPosInKmer := NaiveKmerMinimum(s, K, S, i);
    NaiveAtFromMinimum(s, K, S, i, minPosInKmer);
    newNumResults := numResults;
    if minPosInKmer == 0 || minPosInKmer == K - S {
      results[numResults] := NaiveResult(i, minHash);
      newNumResults := numResults + 1;
    }
  }

  /** One more k-mer adds what it contributes. */
  lemma {:induction false} NaiveUpToNext(s: seq<char>, K: nat, S: nat, i: nat)
    requires 0 < S < K && i + K <= |s|
    ensures NaiveUpTo(s, K, S, i + 1) == NaiveUpTo(s, K, S, i) + NaiveAt(s, K, S, i)
  {
  }

  /** The records of the first `i` k-mers fit where the whole sequence's do. */
  lemma {:induction false} NaiveUpToFits(s: seq<char>, K: nat, S: nat, i: nat)
    requires 0 < S < K <= |s| && i + K - 1 <= |s|
    ensures |NaiveUpTo(s, K, S, i)| <= |NaiveSyncmers(s, K, S)|
  {
    NaiveUpToGrows(s, K, S, i, |s| - K + 1);
  }

  /** Fewer k-mers give no more records. */
  lemma {:induction false} NaiveUpToGrows(s: seq<char>, K: nat, S: nat, a: nat, b: nat)
    requires 0 < S < K && a <= b && b + K - 1 <= |s|
    ensures |NaiveUpTo(s, K, S, a)| <= |NaiveUpTo(s, K, S, b)|
    decreases b
  {
    if a < b {
      NaiveUpToGrows(s, K, S, a, b - 1);
    }
  }

  /** `compute_closed_syncmers_naive`: fills `results[..numResults]` with the
      oracle's records of `s`, one per closed k-mer in k-mer order, and leaves
      the rest of the buffer as it was. The loop bound `seq_len - K` is
      unsigned, so the source needs `K <= |s|`. */
  method ComputeClosedSyncmersNaive(s: seq<char>, K: int, S: int, results: array<NaiveResult>)
    returns (numResults: int)
    requires 0 < S < K <= |s| && S <= MaxS
    requires |NaiveSyncmers(s, K, S)| <= results.Length
    modifies results
    ensures 0 <= numResults <= results.Length
    ensures results[..numResults] == NaiveSyncmers(s, K, S)
    ensures forall k :: numResults <= k < results.Length ==> results[k] == old(results[k])
  {
    numResults := 0;
    for i := 0 to |s| - K + 1
      invariant NaiveResultsHold(results, numResults, NaiveUpTo(s, K, S, i))
      invariant forall k :: numResults <= k < results.Length ==> results[k] == old(results[k])
    {
      NaiveUpToNext(s, K, S, i);
      NaiveUpToFits(s, K, S, i + 1);
      numResults := NaiveKmerStep(s, K, S, i, results, numResults,
                                  NaiveUpTo(s, K, S, i), NaiveUpTo(s, K, S, i + 1));
    }
    assert results[..numResults] == NaiveUpTo(s, K, S, |s| - K + 1);
  }
}
