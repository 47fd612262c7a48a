/** The linear-time implementation of closed_syncmers.h: one rolling pass
    computes the canonical hash of every s-mer into an array, and a monotonic
    deque of positions, held in an array between `front` and `back`, gives the
    leftmost minimum of every window of W = K-S+1 consecutive s-mer hashes. */
module ClosedSyncmers {
  import opened Nucleotide
  import opened SyncmerSpec

  /** `add_minimizer`: writes slot `size` of the caller's buffer and returns
      the incremented count; the buffer is not bounds-checked by the source,
      so the caller must leave room. */
  method AddMinimizer(results: array<MinimizerResult>, size: int,
                      minimizerHash: nat, kmerPosition: nat, smerPosition: nat)
    returns (newSize: int)
    requires 0 <= size < results.Length
    modifies results
    ensures newSize == size + 1
    ensures results[size] == MinimizerResult(minimizerHash, kmerPosition, smerPosition)
    ensures forall k :: 0 <= k < results.Length && k != size ==> results[k] == old(results[k])
    ensures results[..newSize] == old(results[..size]) + [MinimizerResult(minimizerHash, kmerPosition, smerPosition)]
  {
    results[size] := MinimizerResult(minimizerHash, kmerPosition, smerPosition);
    newSize := size + 1;
  }

  // The rolling hash.

  /** The bases the rolling state covers after reading `i` bases: the last
      `S` of them, or all of them while fewer than `S` have been read. */
  function Recent(s: seq<char>, S: nat, i: nat): (w: seq<char>)
    requires i <= |s|
    ensures |w| <= S
  {
    if i < S then s[..i] else s[i - S..i]
  }

  /** The bases the rolling state covers after one more base `c`: `c` is
      appended, and the oldest base dropped once `S` bases are in. */
  function Shifted(w: seq<char>, c: char, S: nat): seq<char>
    requires 1 <= S
  {
    if |w| < S then w + [c] else w[1..] + [c]
  }

  lemma {:induction false} RecentStep(s: seq<char>, S: nat, i: nat)
    requires 1 <= S && i < |s|
    ensures |Recent(s, S, i)| <= S
    ensures Recent(s, S, i + 1) == Shifted(Recent(s, S, i), s[i], S)
  {
    if i >= S {
      assert s[i - S..i][1..] == s[i + 1 - S..i];
    }
  }

  /** One step of the forward accumulator of closed_syncmers.h: shift in the
      new base and keep the low 2S bits. */
  lemma {:induction false} FwdStep(w: seq<char>, c: char, S: nat)
    requires 1 <= S && |w| <= S
    ensures (Fwd(w) * 4 + BaseToBits(c)) % Pow4(S) == Fwd(Shifted(w, c, S))
  {
    if |w| == S {
      FwdRoll(w, c);
    } else {
      var w' := w + [c];
      FwdSnoc(w, c);
      Pow4Monotone(|w'|, S);
      ModOfMultiplePlus(Fwd(w'), 0, Pow4(S), Fwd(w'));
    }
  }

  /** The value of `hash_rev` while it covers the bases `w`: their
      reverse-complement encoding in the top digits of a 2S-bit value. */
  function RevAcc(w: seq<char>, S: nat): nat
    requires |w| <= S
  {
    Rc(w) * Pow4(S - |w|)
  }

  /** One step of the reverse-complement accumulator: the reverse-complement
      encoding of the covered bases, placed in the top digits of a 2S-bit
      value (the low digits still empty while fewer than `S` bases are in). */
  lemma {:induction false} RcStep(w: seq<char>, c: char, S: nat)
    requires 1 <= S && |w| <= S
    ensures (RevAcc(w, S) / 4 + ComplementBase(BaseToBits(c)) * Pow4(S - 1)) % Pow4(S)
            == RevAcc(Shifted(w, c, S), S)
  {
    if |w| == S {
      assert Shifted(w, c, S) == w[1..] + [c];
      RcFull(w, c, S);
    } else {
      assert Shifted(w, c, S) == w + [c];
      RcGrow(w, c, S);
    }
  }

  /** With all `S` digits present the accumulator is `Rc` itself, and one
      step rolls it. */
  lemma {:induction false} RcFull(w: seq<char>, c: char, S: nat)
    requires 1 <= S && |w| == S
    ensures (RevAcc(w, S) / 4 + ComplementBase(BaseToBits(c)) * Pow4(S - 1)) % Pow4(S)
            == RevAcc(w[1..] + [c], S)
  {
    assert RevAcc(w, S) == Rc(w);
    assert RevAcc(w[1..] + [c], S) == Rc(w[1..] + [c]);
    RcRoll(w, c);
  }

  /** While fewer than `S` digits are present, one step adds a digit. */
  lemma {:induction false} RcGrow(w: seq<char>, c: char, S: nat)
    requires |w| < S
    ensures (RevAcc(w, S) / 4 + ComplementBase(BaseToBits(c)) * Pow4(S - 1)) % Pow4(S)
            == RevAcc(w + [c], S)
  {
    var k, q := |w|, S - |w| - 1;
    Pow4Sum(k, q, S - 1);
    Pow4Sum(k + 1, q, S);
    RcSnoc(w, c);
    GrowArith(Rc(w), ComplementBase(BaseToBits(c)), Pow4(q), Pow4(S - |w|), Pow4(S - 1),
              Pow4(k), Rc(w + [c]), Pow4(k + 1), Pow4(S));
  }

  /** The arithmetic of one growing step of the reverse-complement
      accumulator: the value `y` scaled by `4p`, shifted right by one digit,
      with the digit `cc` added at weight `pk * p`. */
  lemma {:induction false} GrowArith(y: nat, cc: nat, p: nat, big: nat, top: nat, pk: nat, r: nat, pk1: nat, full: nat)
    requires p >= 1 && big == 4 * p && top == pk * p && r == y + cc * pk
    requires r < pk1 && full == pk1 * p
    ensures (y * big / 4 + cc * top) % full == r * p
  {
    var yp, rp := y * p, r * p;
    MulAssoc4(y, p, big, yp);
    assert y * big / 4 == yp;
    Distribute(y, cc, p, pk, top, r, yp, rp);
    MulBelow(r, pk1, p, full);
    ModOfSmall(rp, full);
  }

  lemma {:induction false} MulBelow(r: nat, pk1: nat, p: nat, full: nat)
    requires r < pk1 && p >= 1 && full == pk1 * p
    ensures r * p < full
  {
    assert full - r * p == (pk1 - r) * p;
  }

  lemma {:induction false} MulAssoc4(y: nat, p: nat, big: nat, yp: nat)
    requires big == 4 * p && yp == y * p
    ensures y * big == 4 * yp
  {
  }

  lemma {:induction false} Distribute(y: nat, cc: nat, p: nat, pk: nat, top: nat, r: nat, yp: nat, rp: nat)
    requires top == pk * p && r == y + cc * pk && yp == y * p && rp == r * p
    ensures yp + cc * top == rp
  {
  }

  /** Once `S` bases are in, the smaller accumulator is the canonical hash of
      the s-mer ending at base `i`. */
  lemma {:induction false} StoredCanon(s: seq<char>, S: nat, i: nat, fwd: nat, rev: nat)
    requires 1 <= S <= i + 1 <= |s|
    requires fwd == Fwd(Recent(s, S, i + 1))
    requires rev == RevAcc(Recent(s, S, i + 1), S)
    ensures (if fwd < rev then fwd else rev) == Canon(s[i + 1 - S..i + 1])
  {
    assert Recent(s, S, i + 1) == s[i + 1 - S..i + 1];
    assert Pow4(S - |Recent(s, S, i + 1)|) == 1;
  }

  /** The canonical-hash pass of `compute_closed_syncmers`: after base `i`,
      `hash_fwd` and `hash_rev` are the two encodings of the s-mer ending at
      `i`, and its canonical hash is stored at its start position. */
  method PrecomputeSmerHashes(s: seq<char>, S: int) returns (hashes: array<nat>)
    requires 0 < S <= MaxS && S <= |s|
    ensures fresh(hashes)
    ensures hashes[..] == SmerHashes(s, S)
  {
    var numSmers := |s| - S + 1;
    hashes := new nat[numSmers];
    var mask := Pow4(S);
    var rcShift := Pow4(S - 1);
    var hashFwd: nat, hashRev: nat := 0, 0;
    ghost var want := SmerHashes(s, S);
    assert Recent(s, S, 0) == [];
    for i := 0 to |s|
      invariant hashFwd == Fwd(Recent(s, S, i)) && hashRev == RevAcc(Recent(s, S, i), S)
      invariant Filled(hashes, want, i + 1 - S)
    {
      SmerHashAt(s, S, i);
      hashFwd, hashRev := HashStep(s, S, i, hashes, hashFwd, hashRev, mask, rcShift, want);
    }
    FilledAll(hashes, want);
  }

  lemma {:induction false} SmerHashAt(s: seq<char>, S: nat, i: nat)
    requires 0 < S <= |s| && i < |s|
    ensures S - 1 <= i ==> SmerHashes(s, S)[i + 1 - S] == Canon(s[i + 1 - S..i + 1])
  {
  }

  /** The first `n` slots of `hashes` hold their final values `want`. */
  ghost predicate Filled(hashes: array<nat>, want: seq<nat>, n: int)
    reads hashes
  {
    forall p :: 0 <= p < n && p < hashes.Length && p < |want| ==> hashes[p] == want[p]
  }

  lemma {:induction false} FilledAll(hashes: array<nat>, want: seq<nat>)
    requires hashes.Length == |want| && Filled(hashes, want, |want|)
    ensures hashes[..] == want
  {
    assert forall p :: 0 <= p < |want| ==> hashes[..][p] == want[p];
  }

  /** One iteration of the canonical-hash pass: roll base `i` in, and store
      the canonical hash once a whole s-mer has been read. */
  method HashStep(s: seq<char>, S: nat, i: nat, hashes: array<nat>, hashFwd: nat, hashRev: nat,
                  mask: nat, rcShift: nat, ghost want: seq<nat>) returns (fwd: nat, rev: nat)
    requires 1 <= S <= |s| && i < |s| && hashes.Length == |s| - S + 1 == |want|
    requires S - 1 <= i ==> want[i + 1 - S] == Canon(s[i + 1 - S..i + 1])
    requires mask == Pow4(S) && rcShift == Pow4(S - 1)
    requires hashFwd == Fwd(Recent(s, S, i)) && hashRev == RevAcc(Recent(s, S, i), S)
    requires Filled(hashes, want, i + 1 - S)
    modifies hashes
    ensures fwd == Fwd(Recent(s, S, i + 1)) && rev == RevAcc(Recent(s, S, i + 1), S)
    ensures Filled(hashes, want, i + 2 - S)
  {
    RecentStep(s, S, i);
    fwd, rev := RollStep(s[i], S, hashFwd, hashRev, mask, rcShift, Recent(s, S, i));
    CanonWanted(s, S, i, fwd, rev, want);
    StoreHash(S, i, hashes, fwd, rev, want);
  }

  /** The smaller of the two encodings after base `i` is the hash wanted for
      the s-mer that base completes. */
  lemma {:induction false} CanonWanted(s: seq<char>, S: nat, i: nat, fwd: nat, rev: nat, want: seq<nat>)
    requires 1 <= S <= |s| && i < |s| && |want| == |s| - S + 1
    requires S - 1 <= i ==> want[i + 1 - S] == Canon(s[i + 1 - S..i + 1])
    requires fwd == Fwd(Recent(s, S, i + 1)) && rev == RevAcc(Recent(s, S, i + 1), S)
    ensures S - 1 <= i ==> (if fwd < rev then fwd else rev) == want[i + 1 - S]
  {
    if S - 1 <= i {
      StoredCanon(s, S, i, fwd, rev);
    }
  }

  /** Once base `i` completes an s-mer, its canonical hash goes to the
      s-mer's start position. */
  method StoreHash(S: nat, i: nat, hashes: array<nat>, fwd: nat, rev: nat, ghost want: seq<nat>)
    requires 1 <= S && hashes.Length == |want| && i + 1 - S < |want|
    requires S - 1 <= i ==> (if fwd < rev then fwd else rev) == want[i + 1 - S]
    requires Filled(hashes, want, i + 1 - S)
    modifies hashes
    ensures Filled(hashes, want, i + 2 - S)
  {
    if i >= S - 1 {
      var sMerPos := i - S + 1;
      var canonicalHash := if fwd < rev then fwd else rev;
      hashes[sMerPos] := canonicalHash;
    }
  }

  /** The body of the rolling loop: base `c` shifted into both accumulators,
      which covered the bases `w` before. */
  method RollStep(c: char, S: nat, hashFwd: nat, hashRev: nat, mask: nat, rcShift: nat,
                  ghost w: seq<char>) returns (fwd: nat, rev: nat)
    requires 1 <= S && |w| <= S && mask == Pow4(S) && rcShift == Pow4(S - 1)
    requires hashFwd == Fwd(w) && hashRev == RevAcc(w, S)
    ensures fwd == Fwd(Shifted(w, c, S)) && rev == RevAcc(Shifted(w, c, S), S)
  {
    var base := BaseToBits(c);
    fwd := (hashFwd * 4 + base) % mask;
    RolledFwd(w, c, S, hashFwd, base, mask, fwd);
    var compBase := ComplementBase(base);
    rev := (hashRev / 4 + compBase * rcShift) % mask;
    RolledRev(w, c, S, hashRev, compBase, rcShift, mask, rev);
  }

  lemma {:induction false} RolledFwd(w: seq<char>, c: char, S: nat, hashFwd: nat, base: nat, mask: nat, fwd: nat)
    requires 1 <= S && |w| <= S && mask == Pow4(S)
    requires hashFwd == Fwd(w) && base == BaseToBits(c) && fwd == (hashFwd * 4 + base) % mask
    ensures fwd == Fwd(Shifted(w, c, S))
  {
    assert hashFwd * 4 + base == Fwd(w) * 4 + BaseToBits(c);
    assert fwd == (Fwd(w) * 4 + BaseToBits(c)) % Pow4(S);
    FwdStep(w, c, S);
  }

  lemma {:induction false} RolledRev(w: seq<char>, c: char, S: nat, hashRev: nat, compBase: nat, rcShift: nat, mask: nat,
                  rev: nat)
    requires 1 <= S && |w| <= S && mask == Pow4(S) && rcShift == Pow4(S - 1)
    requires hashRev == RevAcc(w, S) && compBase == ComplementBase(BaseToBits(c))
    requires rev == (hashRev / 4 + compBase * rcShift) % mask
    ensures rev == RevAcc(Shifted(w, c, S), S)
  {
    RcStep(w, c, S);
  }

  // The monotonic deque.

  /** The deque `d` (positions, front first) after reading the hashes
      `h[..n]`, for the trailing window that starts at `lo`:
      - every position lies in the window and positions strictly increase;
      - their hashes do not decrease, so the front holds the smallest;
      - the newest position `n - 1` is always at the back;
      - each position skipped between two entries (or between `lo` and the
        front) has a hash strictly greater than the entry after it, which is
        why it could be dropped. */
  ghost predicate MonotoneWindow(h: seq<nat>, d: seq<nat>, lo: int, n: nat)
  {
    && n <= |h|
    && InWindow(d, lo, n)
    && Increasing(h, d)
    && (n > 0 ==> |d| > 0 && d[|d| - 1] == n - 1)
    && FrontBeatsSkipped(h, d, lo)
    && GapsBeaten(h, d)
  }

  ghost predicate InWindow(d: seq<nat>, lo: int, n: nat)
  {
    forall a :: 0 <= a < |d| ==> lo <= d[a] < n
  }

  ghost predicate Increasing(h: seq<nat>, d: seq<nat>)
  {
    forall a, b :: 0 <= a < b < |d| ==> d[a] < d[b] && (d[b] < |h| ==> h[d[a]] <= h[d[b]])
  }

  ghost predicate FrontBeatsSkipped(h: seq<nat>, d: seq<nat>, lo: int)
  {
    |d| > 0 ==> forall p :: lo <= p < d[0] && 0 <= p && d[0] < |h| ==> h[p] > h[d[0]]
  }

  ghost predicate GapsBeaten(h: seq<nat>, d: seq<nat>)
  {
    forall a, p {:trigger Next(d, a), h[p]} ::
      0 <= a && a + 1 < |d| && d[a] < p < Next(d, a) && Next(d, a) < |h| ==> h[p] > h[Next(d, a)]
  }

  /** The entry after entry `a`. */
  ghost function Next(d: seq<nat>, a: nat): nat
    requires a + 1 < |d|
  {
    d[a + 1]
  }

  /** Where the positions known to beat the incoming hash begin, while the
      back of the deque is popped down to `k` entries. */
  function PopBound(d: seq<nat>, lo: int, k: nat): int
    requires k <= |d|
  {
    if k > 0 then d[k - 1] else lo - 1
  }

  /** Popping an entry whose hash is strictly greater than the incoming one
      keeps every popped position beaten by the incoming hash. */
  lemma {:induction false} DequePop(h: seq<nat>, d: seq<nat>, lo: int, n: nat, k: nat)
    requires MonotoneWindow(h, d, lo, n) && n < |h|
    requires 0 < k <= |d| && h[d[k - 1]] > h[n]
    requires forall p :: PopBound(d, lo, k) < p < n && 0 <= p ==> h[p] > h[n]
    ensures forall p :: PopBound(d, lo, k - 1) < p < n && 0 <= p ==> h[p] > h[n]
  {
    forall p | PopBound(d, lo, k - 1) < p < d[k - 1] && 0 <= p
      ensures h[p] > h[n]
    {
      if k - 1 > 0 {
        assert d[k - 2] < p < Next(d, k - 2);
      }
    }
  }

  /** Pushing the incoming position once the pops stop leaves a deque for the
      hashes `h[..n + 1]`. */
  lemma {:induction false} DequePush(h: seq<nat>, d: seq<nat>, lo: int, n: nat, k: nat)
    requires MonotoneWindow(h, d, lo, n) && n < |h| && lo <= n
    requires k <= |d| && (k > 0 ==> h[d[k - 1]] <= h[n])
    requires forall p :: PopBound(d, lo, k) < p < n && 0 <= p ==> h[p] > h[n]
    ensures MonotoneWindow(h, d[..k] + [n], lo, n + 1)
  {
    var d' := d[..k] + [n];
    forall a, p | 0 <= a && a + 1 < |d'| && d'[a] < p < Next(d', a)
      ensures h[p] > h[Next(d', a)]
    {
      if a + 1 < k {
        assert Next(d', a) == Next(d, a);
      }
    }
  }

  /** Evicting the front when it is the position that just left the window:
      because every entry lies in the window, it is the only one to go. */
  lemma {:induction false} DequeEvict(h: seq<nat>, d: seq<nat>, lo: int, n: nat)
    requires MonotoneWindow(h, d, lo, n) && |d| > 0 && d[0] <= lo && lo < n - 1
    ensures |d| > 1 && MonotoneWindow(h, d[1..], lo + 1, n)
  {
    var d' := d[1..];
    forall a, p | 0 <= a && a + 1 < |d'| && d'[a] < p < Next(d', a)
      ensures h[p] > h[Next(d', a)]
    {
      assert Next(d', a) == Next(d, a + 1);
    }
    forall p | lo + 1 <= p < d'[0] && 0 <= p
      ensures h[p] > h[d'[0]]
    {
      assert d[0] < p < Next(d, 0);
    }
  }

  /** When the front is inside the narrower window, nothing is evicted. */
  lemma {:induction false} DequeSlide(h: seq<nat>, d: seq<nat>, lo: int, n: nat)
    requires MonotoneWindow(h, d, lo, n) && (|d| > 0 ==> lo < d[0])
    ensures MonotoneWindow(h, d, lo + 1, n)
  {
  }

  /** The front of the deque is the leftmost minimum of the window
      `h[lo..n]`. */
  lemma {:induction false} DequeFrontIsLeftmostMin(h: seq<nat>, d: seq<nat>, lo: nat, n: nat)
    requires MonotoneWindow(h, d, lo, n) && lo < n
    ensures |d| > 0 && IsLeftmostMin(h, lo, n, d[0])
  {
    DequeFrontBelow(h, d, lo, n, |d| - 1);
  }

  /** Every position from the front up to entry `a` has a hash no smaller
      than the front's. */
  lemma {:induction false} DequeFrontBelow(h: seq<nat>, d: seq<nat>, lo: int, n: nat, a: nat)
    requires MonotoneWindow(h, d, lo, n) && a < |d|
    ensures forall p :: d[0] <= p <= d[a] ==> h[d[0]] <= h[p]
  {
    if a > 0 {
      DequeFrontBelow(h, d, lo, n, a - 1);
      forall p | d[a - 1] < p < d[a]
        ensures h[d[0]] <= h[p]
      {
        assert h[p] > h[Next(d, a - 1)];
      }
    }
  }

  predicate DequeHolds(deque: array<nat>, front: int, back: int, d: seq<nat>)
    reads deque
  {
    0 <= front <= back <= deque.Length && back - front == |d| &&
    forall a :: 0 <= a < |d| ==> deque[front + a] == d[a]
  }

  method PopGreater(hashes: array<nat>, deque: array<nat>, front: int, back: int, i: nat,
                    ghost h: seq<nat>, ghost lo: int, ghost d: seq<nat>)
    returns (newBack: int)
    requires hashes[..] == h && DequeHolds(deque, front, back, d)
    requires MonotoneWindow(h, d, lo, i) && i < |h|
    ensures front <= newBack <= back
    ensures newBack > front ==> h[d[newBack - 1 - front]] <= h[i]
    ensures forall p :: PopBound(d, lo, newBack - front) < p < i && 0 <= p ==> h[p] > h[i]
  {
    newBack := back;
    while newBack > front && hashes[deque[newBack - 1]] > hashes[i]
      invariant front <= newBack <= back
      invariant forall p :: PopBound(d, lo, newBack - front) < p < i && 0 <= p ==> h[p] > h[i]
    {
      assert deque[front + (newBack - 1 - front)] == d[newBack - 1 - front];
      DequePop(h, d, lo, i, newBack - front);
      newBack := newBack - 1;
    }
    assert newBack > front ==> deque[front + (newBack - 1 - front)] == d[newBack - 1 - front];
  }

  method PushPosition(hashes: array<nat>, deque: array<nat>, front: int, back: int, i: nat,
                      ghost h: seq<nat>, ghost lo: int, ghost d: seq<nat>)
    returns (newBack: int, ghost d': seq<nat>)
    requires hashes != deque && hashes[..] == h
    requires back < deque.Length && DequeHolds(deque, front, back, d)
    requires MonotoneWindow(h, d, lo, i) && i < |h| && lo <= i
    modifies deque
    ensures front < newBack <= back + 1
    ensures DequeHolds(deque, front, newBack, d')
    ensures MonotoneWindow(h, d', lo, i + 1)
  {
    newBack := PopGreater(hashes, deque, front, back, i, h, lo, d);
    DequePush(h, d, lo, i, newBack - front);
    d' := d[..newBack - front] + [i];
    deque[newBack] := i;
    forall a | 0 <= a < |d'|
      ensures deque[front + a] == d'[a]
    {
      if a < |d'| - 1 {
        assert d'[a] == d[a];
      }
    }
    newBack := newBack + 1;
  }

  /** The eviction step: once the window has moved past the front
      position, the front is dropped. */
  method EvictExpired(deque: array<nat>, front: int, back: int, i: nat, windowSize: nat,
                      ghost h: seq<nat>, ghost d: seq<nat>)
    returns (newFront: int, ghost d': seq<nat>)
    requires DequeHolds(deque, front, back, d) && MonotoneWindow(h, d, i - windowSize, i + 1)
    requires 1 <= windowSize && i < |h|
    ensures front <= newFront <= back
    ensures DequeHolds(deque, newFront, back, d')
    ensures MonotoneWindow(h, d', i + 1 - windowSize, i + 1)
  {
    assert deque[front + 0] == d[0];
    if i >= windowSize && deque[front] <= i - windowSize {
      DequeEvict(h, d, i - windowSize, i + 1);
      d' := d[1..];
      forall a | 0 <= a < |d'|
        ensures deque[front + 1 + a] == d'[a]
      {
        assert deque[front + (a + 1)] == d[a + 1];
      }
      newFront := front + 1;
    } else {
      DequeSlide(h, d, i - windowSize, i + 1);
      newFront, d' := front, d;
    }
  }

  /** The deque steps for s-mer `i`: push it, then evict the expired front,
      so that the deque describes the window of `windowSize` hashes ending
      at `i`. */
  method SlideWindow(hashes: array<nat>, deque: array<nat>, front: int, back: int, i: nat,
                     windowSize: nat, ghost h: seq<nat>, ghost d: seq<nat>)
    returns (newFront: int, newBack: int, ghost d': seq<nat>)
    requires hashes != deque && hashes[..] == h && 1 <= windowSize
    requires back < deque.Length && DequeHolds(deque, front, back, d)
    requires MonotoneWindow(h, d, i - windowSize, i) && i < |h|
    modifies deque
    ensures front <= newFront <= newBack <= back + 1
    ensures DequeHolds(deque, newFront, newBack, d')
    ensures MonotoneWindow(h, d', i + 1 - windowSize, i + 1)
  {
    ghost var pushed;
    newBack, pushed := PushPosition(hashes, deque, front, back, i, h, i - windowSize, d);
    newFront, d' := EvictExpired(deque, front, newBack, i, windowSize, h, pushed);
  }

  /** The first `n` slots of `results` hold the records `want`. */
  ghost predicate ResultsHold(results: array<MinimizerResult>, n: int, want: seq<MinimizerResult>)
    reads results
  {
    0 <= n <= results.Length && n == |want| && forall k :: 0 <= k < n ==> results[k] == want[k]
  }

  lemma {:induction false} ResultsHoldPrefix(results: array<MinimizerResult>, n: int, want: seq<MinimizerResult>)
    requires ResultsHold(results, n, want)
    ensures results[..n] == want
  {
    assert forall k :: 0 <= k < n ==> results[..n][k] == want[k];
  }

  /** The number of windows of `windowSize` hashes that end before
      position `n`. */
  function WindowsEnded(n: nat, windowSize: nat): nat
  {
    if n < windowSize then 0 else n + 1 - windowSize
  }

  /** The state of the window pass before s-mer `i`: the deque holds the
      positions of the trailing window and the records of the windows that
      ended before `i` are in the first `numResults` slots. */
  ghost predicate PassState(hashes: array<nat>, deque: array<nat>, results: array<MinimizerResult>,
                            front: int, back: int, numResults: int, i: nat, windowSize: nat,
                            h: seq<nat>, d: seq<nat>)
    reads hashes, deque, results
  {
    && hashes != deque && hashes[..] == h && 1 <= windowSize <= |h| && i <= |h|
    && deque.Length == |h| && 0 <= front <= back <= i
    && DequeHolds(deque, front, back, d)
    && MonotoneWindow(h, d, i - windowSize, i)
    && |SyncmersUpTo(h, windowSize, |h| - windowSize + 1)| <= results.Length
    && ResultsHold(results, numResults, SyncmersUpTo(h, windowSize, WindowsEnded(i, windowSize)))
  }

  /** Before the first s-mer, the deque and the output are both empty. */
  lemma {:induction false} PassStart(hashes: array<nat>, deque: array<nat>, results: array<MinimizerResult>,
                  windowSize: nat, h: seq<nat>)
    requires hashes != deque && hashes[..] == h && 1 <= windowSize <= |h| && deque.Length == |h|
    requires |SyncmersUpTo(h, windowSize, |h| - windowSize + 1)| <= results.Length
    ensures PassState(hashes, deque, results, 0, 0, 0, 0, windowSize, h, [])
  {
    assert WindowsEnded(0, windowSize) == 0;
  }

  /** One iteration of the window pass, for s-mer `i`: the deque steps, then
      the report of the window ending at `i` once a whole window is in. */
  method WindowStep(hashes: array<nat>, deque: array<nat>, front: int, back: int, i: nat,
                    windowSize: nat, results: array<MinimizerResult>, numResults: int,
                    ghost h: seq<nat>, ghost d: seq<nat>)
    returns (newFront: int, newBack: int, newNumResults: int, ghost d': seq<nat>)
    requires i < |h| && PassState(hashes, deque, results, front, back, numResults, i, windowSize, h, d)
    modifies deque, results
    ensures PassState(hashes, deque, results, newFront, newBack, newNumResults, i + 1, windowSize, h, d')
    ensures numResults <= newNumResults
    ensures forall k :: newNumResults <= k < results.Length ==> results[k] == old(results[k])
  {
    newFront, newBack, d' := SlideWindow(hashes, deque, front, back, i, windowSize, h, d);
    FrontOfFullWindow(deque, newFront, newBack, i, windowSize, h, d');
    ghost var m := if windowSize <= i + 1 then deque[newFront] else 0;
    WindowEnds(h, windowSize, i, m);
    newNumResults := ReportFront(hashes, deque, newFront, i, windowSize, results, numResults,
                                 SyncmersUpTo(h, windowSize, WindowsEnded(i, windowSize)),
                                 SyncmersUpTo(h, windowSize, WindowsEnded(i + 1, windowSize)));
  }

  /** The windows ended after s-mer `i` are those ended before it, plus the
      window ending at `i` once a whole window is in. */
  lemma {:induction false} WindowEnds(h: seq<nat>, windowSize: nat, i: nat, m: nat)
    requires 1 <= windowSize <= |h| && i < |h|
    requires windowSize <= i + 1 ==> IsLeftmostMin(h, i + 1 - windowSize, i + 1, m)
    ensures windowSize <= i + 1 ==>
              SyncmersUpTo(h, windowSize, WindowsEnded(i + 1, windowSize))
              == SyncmersUpTo(h, windowSize, WindowsEnded(i, windowSize))
                 + RecordIfAtEnd(h, windowSize, i + 1 - windowSize, m)
    ensures i + 1 < windowSize ==>
              SyncmersUpTo(h, windowSize, WindowsEnded(i + 1, windowSize))
              == SyncmersUpTo(h, windowSize, WindowsEnded(i, windowSize))
    ensures |SyncmersUpTo(h, windowSize, WindowsEnded(i + 1, windowSize))|
            <= |SyncmersUpTo(h, windowSize, |h| - windowSize + 1)|
  {
    if windowSize <= i + 1 {
      FullWindowEnds(h, windowSize, i, m);
    } else {
      assert WindowsEnded(i + 1, windowSize) == WindowsEnded(i, windowSize);
    }
    EndedWithinAll(h, windowSize, i + 1);
  }

  lemma {:induction false} FullWindowEnds(h: seq<nat>, windowSize: nat, i: nat, m: nat)
    requires 1 <= windowSize <= i + 1 <= |h|
    requires IsLeftmostMin(h, i + 1 - windowSize, i + 1, m)
    ensures SyncmersUpTo(h, windowSize, WindowsEnded(i + 1, windowSize))
            == SyncmersUpTo(h, windowSize, WindowsEnded(i, windowSize))
               + RecordIfAtEnd(h, windowSize, i + 1 - windowSize, m)
  {
    var q := i + 1 - windowSize;
    assert WindowsEnded(i + 1, windowSize) == q + 1 && WindowsEnded(i, windowSize) == q;
    SyncmersUpToNext(h, windowSize, q, i + 1, m);
  }

  lemma {:induction false} EndedWithinAll(h: seq<nat>, windowSize: nat, n: nat)
    requires 1 <= windowSize <= |h| && n <= |h|
    ensures |SyncmersUpTo(h, windowSize, WindowsEnded(n, windowSize))|
            <= |SyncmersUpTo(h, windowSize, |h| - windowSize + 1)|
  {
    SyncmersUpToGrows(h, windowSize, WindowsEnded(n, windowSize), |h| - windowSize + 1);
  }

  /** The report for s-mer `i` (the `if (i >= window_size - 1)` block): once
      a whole window ends at `i`, the deque's front is its leftmost minimum,
      and the window's record is appended when that minimum is at one of its
      ends. */
  method ReportFront(hashes: array<nat>, deque: array<nat>, front: int, i: nat,
                     windowSize: nat, results: array<MinimizerResult>, numResults: int,
                     ghost before: seq<MinimizerResult>, ghost after: seq<MinimizerResult>)
    returns (newNumResults: int)
    requires 1 <= windowSize
    requires windowSize <= i + 1 ==>
               && 0 <= front < deque.Length && deque[front] < hashes.Length
               && after == before + RecordIfAtEnd(hashes[..], windowSize, i + 1 - windowSize, deque[front])
    requires i + 1 < windowSize ==> after == before
    requires ResultsHold(results, numResults, before) && |after| <= results.Length
    modifies results
    ensures ResultsHold(results, newNumResults, after)
    ensures numResults <= newNumResults
    ensures forall k :: newNumResults <= k < results.Length ==> results[k] == old(results[k])
  {
    newNumResults := numResults;
    if i >= windowSize - 1 {
      var minPos := deque[front];
      var kmerPos := i - windowSize + 1;
      if minPos == kmerPos || minPos == kmerPos + windowSize - 1 {
        newNumResults := AddMinimizer(results, numResults, hashes[minPos], kmerPos, minPos);
      }
    }
  }

  /** Once the window ending at `i` is complete, the deque's front slot holds
      its leftmost minimum. */
  lemma {:induction false} FrontOfFullWindow(deque: array<nat>, front: int, back: int, i: nat, windowSize: nat,
                          h: seq<nat>, d: seq<nat>)
    requires 1 <= windowSize && i < |h|
    requires DequeHolds(deque, front, back, d) && MonotoneWindow(h, d, i + 1 - windowSize, i + 1)
    ensures windowSize <= i + 1 ==>
              0 <= front < deque.Length && IsLeftmostMin(h, i + 1 - windowSize, i + 1, deque[front])
  {
    if windowSize <= i + 1 {
      DequeFrontIsLeftmostMin(h, d, i + 1 - windowSize, i + 1);
      assert deque[front + 0] == d[0];
    }
  }

  /** The window pass of `compute_closed_syncmers` over the s-mer hashes:
      for every window of `windowSize` consecutive hashes, in order, the
      deque yields its leftmost minimum, and the window is recorded when that
      minimum is at its first or last position. */
  method SelectClosedWindows(hashes: array<nat>, windowSize: int, results: array<MinimizerResult>)
    returns (numResults: int)
    requires 1 <= windowSize <= hashes.Length
    requires |SyncmersUpTo(hashes[..], windowSize, hashes.Length - windowSize + 1)| <= results.Length
    modifies results
    ensures 0 <= numResults <= results.Length
    ensures results[..numResults] == SyncmersUpTo(hashes[..], windowSize, hashes.Length - windowSize + 1)
    ensures forall k :: numResults <= k < results.Length ==> results[k] == old(results[k])
  {
    ghost var h := hashes[..];
    var numSmers := hashes.Length;
    var deque := new nat[numSmers];
    var front, back := 0, 0;
    ghost var dq: seq<nat> := [];
    numResults := 0;
    PassStart(hashes, deque, results, windowSize, h);
    for i := 0 to numSmers
      invariant PassState(hashes, deque, results, front, back, numResults, i, windowSize, h, dq)
      invariant forall k :: numResults <= k < results.Length ==> results[k] == old(results[k])
    {
      front, back, numResults, dq :=
        WindowStep(hashes, deque, front, back, i, windowSize, results, numResults, h, dq);
    }
    ResultsHoldPrefix(results, numResults, SyncmersUpTo(h, windowSize, WindowsEnded(numSmers, windowSize)));
  }

  /** `compute_closed_syncmers`: fills `results[..numResults]` with the closed
      syncmers of `s`, in k-mer order, and leaves the rest of the buffer as it
      was; a sequence shorter than K yields no record. */
  method ComputeClosedSyncmers(s: seq<char>, K: int, S: int, results: array<MinimizerResult>)
    returns (numResults: int)
    requires 0 < S < K && S <= MaxS
    requires |Syncmers(s, K, S)| <= results.Length
    modifies results
    ensures 0 <= numResults <= results.Length
    ensures results[..numResults] == Syncmers(s, K, S)
    ensures forall k :: numResults <= k < results.Length ==> results[k] == old(results[k])
  {
    numResults := 0;
    if |s| < K {
      return;
    }
    var hashes := PrecomputeSmerHashes(s, S);
    numResults := SelectClosedWindows(hashes, K - S + 1, results);
  }
}
