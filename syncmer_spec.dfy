/** What both implementations compute: for every k-mer, the leftmost
    minimum of its K-S+1 canonical s-mer hashes, and a record when that
    minimum sits at the k-mer's first or last s-mer.

    Two readings of the same definition are given. `Syncmers` slides a window
    of W = K-S+1 hashes over the array of all s-mer hashes, as the deque
    implementation does; `NaiveSyncmers` recomputes, for every k-mer, the
    hashes local to that k-mer and looks for the minimum among them, as the
    reference oracle does. `NaiveAgreesWithSyncmers` proves they agree. */
module SyncmerSpec {
  import opened Nucleotide

  /** `MinimizerResult` of closed_syncmers.h. */
  datatype MinimizerResult = MinimizerResult(minimizerHash: nat, kmerPosition: nat, smerPosition: nat)

  /** What the reference oracle records: the k-mer position and the hash. */
  datatype NaiveResult = NaiveResult(position: nat, minimizerHash: nat)

  /** `m` is the leftmost position of the minimum of `h[lo..hi]`. */
  predicate IsLeftmostMin(h: seq<nat>, lo: nat, hi: nat, m: nat)
    requires hi <= |h|
  {
    && lo <= m < hi
    && (forall j :: lo <= j < hi ==> h[m] <= h[j])
    && (forall j :: lo <= j < m ==> h[m] < h[j])
  }

  /** A left-to-right scan that takes a new position only when its hash is
      strictly smaller, which keeps the earliest of equal minima. */
  function LeftmostMin(h: seq<nat>, lo: nat, hi: nat): (m: nat)
    requires lo < hi <= |h|
    ensures lo <= m < hi
    decreases hi
  {
    if hi == lo + 1 then lo
    else
      var m' := LeftmostMin(h, lo, hi - 1);
      if h[hi - 1] < h[m'] then hi - 1 else m'
  }

  /** The scan finds the leftmost minimum. */
  lemma {:induction false} LeftmostMinCorrect(h: seq<nat>, lo: nat, hi: nat)
    requires lo < hi <= |h|
    ensures IsLeftmostMin(h, lo, hi, LeftmostMin(h, lo, hi))
    decreases hi
  {
    if hi > lo + 1 {
      LeftmostMinCorrect(h, lo, hi - 1);
    }
  }

  /** ... and it is the only position that is one. */
  lemma {:induction false} LeftmostMinUnique(h: seq<nat>, lo: nat, hi: nat, m: nat)
    requires lo < hi <= |h|
    requires IsLeftmostMin(h, lo, hi, m)
    ensures m == LeftmostMin(h, lo, hi)
  {
    LeftmostMinCorrect(h, lo, hi);
  }

  /** The canonical hash of every s-mer of `s`, by start position. */
  function SmerHashes(s: seq<char>, S: nat): seq<nat>
    requires 0 < S <= |s|
  {
    seq<nat>(|s| - S + 1, p requires 0 <= p < |s| - S + 1 => Canon(s[p..p + S]))
  }

  /** The record of window `q`: its leftmost minimum, wherever it is. */
  function WindowRecord(h: seq<nat>, W: nat, q: nat): MinimizerResult
    requires 1 <= W && q + W <= |h|
  {
    var m := LeftmostMin(h, q, q + W);
    MinimizerResult(h[m], q, m)
  }

  /** Window `q` is a closed syncmer: its leftmost minimum is its first or
      its last position. */
  predicate IsClosed(h: seq<nat>, W: nat, q: nat)
    requires 1 <= W && q + W <= |h|
  {
    var m := LeftmostMin(h, q, q + W);
    m == q || m == q + W - 1
  }

  /** What window `q` contributes: its record if it is closed, else nothing. */
  function SyncmerAt(h: seq<nat>, W: nat, q: nat): seq<MinimizerResult>
    requires 1 <= W && q + W <= |h|
  {
    if IsClosed(h, W, q) then [WindowRecord(h, W, q)] else []
  }

  /** The record of window `q` when position `m` is at either of its ends,
      else nothing. */
  function RecordIfAtEnd(h: seq<nat>, W: nat, q: nat, m: nat): seq<MinimizerResult>
    requires m < |h|
  {
    if m == q || m == q + W - 1 then [MinimizerResult(h[m], q, m)] else []
  }

  /** Given the leftmost minimum `m` of window `q`, what the window
      contributes is its record exactly when `m` is at either end. */
  lemma {:induction false} SyncmerAtLeftmost(h: seq<nat>, W: nat, q: nat, m: nat)
    requires 1 <= W && q + W <= |h|
    requires IsLeftmostMin(h, q, q + W, m)
    ensures SyncmerAt(h, W, q) == RecordIfAtEnd(h, W, q, m)
  {
    LeftmostMinUnique(h, q, q + W, m);
  }

  /** One more window adds what that window contributes, read off its
      leftmost minimum `m`. */
  lemma {:induction false} SyncmersUpToNext(h: seq<nat>, W: nat, q: nat, hi: nat, m: nat)
    requires 1 <= W && hi == q + W <= |h|
    requires IsLeftmostMin(h, q, hi, m)
    ensures SyncmersUpTo(h, W, q + 1) == SyncmersUpTo(h, W, q) + RecordIfAtEnd(h, W, q, m)
  {
    SyncmerAtLeftmost(h, W, q, m);
  }

  /** The records of the closed windows among the first `n` windows of width
      `W` over `h`, in window order. */
  function SyncmersUpTo(h: seq<nat>, W: nat, n: nat): seq<MinimizerResult>
    requires 1 <= W && n + W - 1 <= |h|
  {
    if n == 0 then [] else SyncmersUpTo(h, W, n - 1) + SyncmerAt(h, W, n - 1)
  }

  /** The closed syncmers of `s`: none when `s` is shorter than a k-mer. */
  function Syncmers(s: seq<char>, K: nat, S: nat): seq<MinimizerResult>
    requires 0 < S < K
  {
    if |s| < K then [] else SyncmersUpTo(SmerHashes(s, S), K - S + 1, |s| - K + 1)
  }

  /** A record as the definition describes it, independently of the scan:
      its s-mer is the leftmost minimum of its window, at one of the window's
      two ends, and it carries that s-mer's hash. */
  predicate IsSyncmerRecord(h: seq<nat>, W: nat, r: MinimizerResult)
    requires 1 <= W
  {
    && r.kmerPosition + W <= |h|
    && IsLeftmostMin(h, r.kmerPosition, r.kmerPosition + W, r.smerPosition)
    && (r.smerPosition == r.kmerPosition || r.smerPosition == r.kmerPosition + W - 1)
    && r.minimizerHash == h[r.smerPosition]
  }

  /** Exactly the records of the closed windows among the first `n` appear. */
  lemma {:induction false} SyncmersUpToMembers(h: seq<nat>, W: nat, n: nat)
    requires 1 <= W && n + W - 1 <= |h|
    ensures forall r :: r in SyncmersUpTo(h, W, n) <==> IsSyncmerRecord(h, W, r) && r.kmerPosition < n
  {
    if n > 0 {
      SyncmersUpToMembers(h, W, n - 1);
      SyncmerAtMembers(h, W, n - 1);
    }
  }

  /** Window `q` contributes exactly the records of window `q`. */
  lemma {:induction false} SyncmerAtMembers(h: seq<nat>, W: nat, q: nat)
    requires 1 <= W && q + W <= |h|
    ensures forall r :: r in SyncmerAt(h, W, q) <==> IsSyncmerRecord(h, W, r) && r.kmerPosition == q
  {
    LeftmostMinCorrect(h, q, q + W);
    forall r | IsSyncmerRecord(h, W, r) && r.kmerPosition == q
      ensures IsClosed(h, W, q) && r == WindowRecord(h, W, q)
    {
      LeftmostMinUnique(h, q, q + W, r.smerPosition);
    }
  }

  /** Records come out in strictly increasing k-mer position, each for one of
      the first `n` windows. */
  lemma {:induction false} SyncmersUpToOrdered(h: seq<nat>, W: nat, n: nat)
    requires 1 <= W && n + W - 1 <= |h|
    ensures forall i :: 0 <= i < |SyncmersUpTo(h, W, n)| ==> SyncmersUpTo(h, W, n)[i].kmerPosition < n
    ensures forall i, j :: 0 <= i < j < |SyncmersUpTo(h, W, n)| ==>
              SyncmersUpTo(h, W, n)[i].kmerPosition < SyncmersUpTo(h, W, n)[j].kmerPosition
  {
    if n > 0 {
      SyncmersUpToOrdered(h, W, n - 1);
    }
  }

  /** At most one record per window. */
  lemma {:induction false} SyncmersUpToCount(h: seq<nat>, W: nat, n: nat)
    requires 1 <= W && n + W - 1 <= |h|
    ensures |SyncmersUpTo(h, W, n)| <= n
  {
    if n > 0 {
      SyncmersUpToCount(h, W, n - 1);
    }
  }

  /** Fewer windows give no more records. */
  lemma {:induction false} SyncmersUpToGrows(h: seq<nat>, W: nat, a: nat, b: nat)
    requires 1 <= W && a <= b && b + W - 1 <= |h|
    ensures |SyncmersUpTo(h, W, a)| <= |SyncmersUpTo(h, W, b)|
  {
    if a < b {
      SyncmersUpToGrows(h, W, a, b - 1);
    }
  }

  /** The records of fewer windows are a prefix of those of more windows. */
  lemma {:induction false} SyncmersUpToPrefix(h: seq<nat>, W: nat, a: nat, b: nat)
    requires 1 <= W && a <= b && b + W - 1 <= |h|
    ensures SyncmersUpTo(h, W, a) <= SyncmersUpTo(h, W, b)
  {
    if a < b {
      SyncmersUpToPrefix(h, W, a, b - 1);
    }
  }

  /** The properties a caller of the optimised function relies on: the
      records are exactly the closed syncmers of `s`, in increasing k-mer
      position, at most one per k-mer (so at most one when `|s| == K`, none
      when `|s| < K`). */
  lemma {:induction false} SyncmersProperties(s: seq<char>, K: nat, S: nat)
    requires 0 < S < K
    ensures |s| < K ==> Syncmers(s, K, S) == []
    ensures |s| >= K ==> |Syncmers(s, K, S)| <= |s| - K + 1
    ensures |s| >= K ==> forall r :: r in Syncmers(s, K, S) <==>
              IsSyncmerRecord(SmerHashes(s, S), K - S + 1, r) && r.kmerPosition + K <= |s|
    ensures forall i, j :: 0 <= i < j < |Syncmers(s, K, S)| ==>
              Syncmers(s, K, S)[i].kmerPosition < Syncmers(s, K, S)[j].kmerPosition
  {
    if |s| >= K {
      var h, W, n := SmerHashes(s, S), K - S + 1, |s| - K + 1;
      SyncmersUpToMembers(h, W, n);
      SyncmersUpToOrdered(h, W, n);
      SyncmersUpToCount(h, W, n);
    }
  }

  // The reference oracle's reading.

  /** The canonical hashes of the K-S+1 s-mers of the k-mer at `q`, indexed by
      their offset in the k-mer and computed from the k-mer alone. */
  function KmerHashes(s: seq<char>, K: nat, S: nat, q: nat): seq<nat>
    requires 0 < S < K && q + K <= |s|
  {
    seq<nat>(K - S + 1, j requires 0 <= j < K - S + 1 => Canon(s[q + j..q + j + S]))
  }

  /** What a k-mer contributes in the oracle, given its own hashes `local`
      (indexed by offset) and its position `q`: a record when the leftmost
      minimum of `local` is at its first or its last offset. */
  function NaiveRecord(local: seq<nat>, q: nat): seq<NaiveResult>
    requires 1 <= |local|
  {
    var j := LeftmostMin(local, 0, |local|);
    if j == 0 || j == |local| - 1 then [NaiveResult(q, local[j])] else []
  }

  /** What the k-mer at `q` contributes in the oracle. */
  function NaiveAt(s: seq<char>, K: nat, S: nat, q: nat): seq<NaiveResult>
    requires 0 < S < K && q + K <= |s|
  {
    NaiveRecord(KmerHashes(s, K, S, q), q)
  }

  /** The oracle's records for the first `n` k-mers. */
  function NaiveUpTo(s: seq<char>, K: nat, S: nat, n: nat): seq<NaiveResult>
    requires 0 < S < K && n + K - 1 <= |s|
  {
    if n == 0 then [] else NaiveUpTo(s, K, S, n - 1) + NaiveAt(s, K, S, n - 1)
  }

  /** The oracle's records for the first `n` windows of width `W` over an
      array of s-mer hashes `h`, each window taken as its own local array. */
  function NaiveWindows(h: seq<nat>, W: nat, n: nat): seq<NaiveResult>
    requires 1 <= W && n + W - 1 <= |h|
  {
    if n == 0 then [] else NaiveWindows(h, W, n - 1) + NaiveRecord(h[n - 1..n - 1 + W], n - 1)
  }

  function NaiveSyncmers(s: seq<char>, K: nat, S: nat): seq<NaiveResult>
    requires 0 < S < K <= |s|
  {
    NaiveUpTo(s, K, S, |s| - K + 1)
  }

  /** The (k-mer position, hash) part of each record, the fields both
      implementations fill. */
  function KmerHashPairs(rs: seq<MinimizerResult>): seq<NaiveResult>
  {
    seq(|rs|, i requires 0 <= i < |rs| => NaiveResult(rs[i].kmerPosition, rs[i].minimizerHash))
  }

  lemma {:induction false} KmerHashPairsAppend(a: seq<MinimizerResult>, b: seq<MinimizerResult>)
    ensures KmerHashPairs(a + b) == KmerHashPairs(a) + KmerHashPairs(b)
  {
  }

  /** The leftmost minimum of a window of the global hash array is the
      window's start plus the leftmost minimum of the same hashes indexed
      from zero. */
  lemma {:induction false} WindowShift(h: seq<nat>, local: seq<nat>, q: nat, W: nat)
    requires 1 <= W && q + W <= |h| && |local| == W
    requires forall j :: 0 <= j < W ==> local[j] == h[q + j]
    ensures LeftmostMin(h, q, q + W) == q + LeftmostMin(local, 0, W)
  {
    var j := LeftmostMin(local, 0, W);
    LeftmostMinCorrect(local, 0, W);
    forall k | q <= k < q + W
      ensures h[q + j] <= h[k] && (k < q + j ==> h[q + j] < h[k])
    {
      assert local[k - q] == h[k];
    }
    LeftmostMinUnique(h, q, q + W, q + j);
  }

  /** The oracle's recomputed hashes of a k-mer are the slice of the global
      s-mer hash array under its window. */
  lemma {:induction false} KmerHashesSlice(s: seq<char>, K: nat, S: nat, q: nat)
    requires 0 < S < K && q + K <= |s|
    ensures KmerHashes(s, K, S, q) == SmerHashes(s, S)[q..q + K - S + 1]
  {
  }

  /** Hence the oracle reads each k-mer as the corresponding window. */
  lemma {:induction false} NaiveUpToWindows(s: seq<char>, K: nat, S: nat, n: nat)
    requires 0 < S < K && n + K - 1 <= |s|
    ensures NaiveUpTo(s, K, S, n) == NaiveWindows(SmerHashes(s, S), K - S + 1, n)
  {
    if n > 0 {
      NaiveUpToWindows(s, K, S, n - 1);
      NaiveUpToWindowsStep(s, K, S, n - 1);
    }
  }

  /** The induction step of `NaiveUpToWindows`. */
  lemma {:induction false} NaiveUpToWindowsStep(s: seq<char>, K: nat, S: nat, m: nat)
    requires 0 < S < K && m + K <= |s|
    requires NaiveUpTo(s, K, S, m) == NaiveWindows(SmerHashes(s, S), K - S + 1, m)
    ensures NaiveUpTo(s, K, S, m + 1) == NaiveWindows(SmerHashes(s, S), K - S + 1, m + 1)
  {
    KmerHashesSlice(s, K, S, m);
  }

  /** One window: the scan over the global hash array and the scan over the
      window's own slice give the same (position, hash) record, or none. */
  lemma {:induction false} WindowAgrees(h: seq<nat>, W: nat, q: nat)
    requires 1 <= W && q + W <= |h|
    ensures KmerHashPairs(SyncmerAt(h, W, q)) == NaiveRecord(h[q..q + W], q)
  {
    var local := h[q..q + W];
    WindowShift(h, local, q, W);
    var j := LeftmostMin(local, 0, W);
    assert h[q + j] == local[j];
  }

  /** Over the first `n` windows, the two scans emit the same (position,
      hash) sequence. */
  lemma {:induction false} WindowsAgree(h: seq<nat>, W: nat, n: nat)
    requires 1 <= W && n + W - 1 <= |h|
    ensures KmerHashPairs(SyncmersUpTo(h, W, n)) == NaiveWindows(h, W, n)
  {
    if n > 0 {
      WindowsAgree(h, W, n - 1);
      WindowsAgreeStep(h, W, n - 1);
    }
  }

  /** The induction step of `WindowsAgree`. */
  lemma {:induction false} WindowsAgreeStep(h: seq<nat>, W: nat, m: nat)
    requires 1 <= W && m + W <= |h|
    requires KmerHashPairs(SyncmersUpTo(h, W, m)) == NaiveWindows(h, W, m)
    ensures KmerHashPairs(SyncmersUpTo(h, W, m + 1)) == NaiveWindows(h, W, m + 1)
  {
    WindowAgrees(h, W, m);
    PairsOfNext(h, W, m + 1);
  }

  /** One more window adds the pairs of what that window contributes. */
  lemma {:induction false} PairsOfNext(h: seq<nat>, W: nat, n: nat)
    requires 1 <= W && 1 <= n && n + W - 1 <= |h|
    ensures KmerHashPairs(SyncmersUpTo(h, W, n))
            == KmerHashPairs(SyncmersUpTo(h, W, n - 1)) + KmerHashPairs(SyncmerAt(h, W, n - 1))
  {
    KmerHashPairsAppend(SyncmersUpTo(h, W, n - 1), SyncmerAt(h, W, n - 1));
  }

  /** The deque implementation and the reference oracle emit the same
      (k-mer position, hash) sequence on every input they both accept. */
  lemma {:induction false} NaiveAgreesWithSyncmers(s: seq<char>, K: nat, S: nat)
    requires 0 < S < K <= |s|
    ensures KmerHashPairs(Syncmers(s, K, S)) == NaiveSyncmers(s, K, S)
  {
    NaiveUpToWindows(s, K, S, |s| - K + 1);
    WindowsAgree(SmerHashes(s, S), K - S + 1, |s| - K + 1);
  }

  lemma {:induction false} NaiveUpToMembers(s: seq<char>, K: nat, S: nat, n: nat)
    requires 0 < S < K && n + K - 1 <= |s|
    ensures forall r :: r in NaiveUpTo(s, K, S, n) <==>
              r.position < n && NaiveAt(s, K, S, r.position) == [r]
  {
    if n > 0 {
      NaiveUpToMembers(s, K, S, n - 1);
    }
  }

  /** The oracle's records, read directly: the record of k-mer `q` (its
      position and the minimum of its recomputed hashes) is present exactly
      when that minimum is leftmost at offset 0 or K-S; records are in
      increasing k-mer position, at most one per k-mer. */
  lemma {:induction false} NaiveSyncmersProperties(s: seq<char>, K: nat, S: nat)
    requires 0 < S < K <= |s|
    ensures |NaiveSyncmers(s, K, S)| <= |s| - K + 1
    ensures forall i, j :: 0 <= i < j < |NaiveSyncmers(s, K, S)| ==>
              NaiveSyncmers(s, K, S)[i].position < NaiveSyncmers(s, K, S)[j].position
    ensures forall q :: 0 <= q <= |s| - K ==>
              var local := KmerHashes(s, K, S, q);
              var j := LeftmostMin(local, 0, K - S + 1);
              ((j == 0 || j == K - S) <==> NaiveResult(q, local[j]) in NaiveSyncmers(s, K, S))
  {
    NaiveAgreesWithSyncmers(s, K, S);
    SyncmersProperties(s, K, S);
    NaiveUpToMembers(s, K, S, |s| - K + 1);
  }
}
