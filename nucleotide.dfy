/** Two-bit nucleotide codes and the two packings of a string of bases into an
    integer: the forward encoding and the reverse-complement encoding, whose
    minimum is the canonical (strand-independent) hash of an s-mer.

    The source keeps these values in `__uint128_t`; here they are unbounded
    naturals, and every bit operation of the source is written as the
    arithmetic it performs on values that fit: `(x << 2) | b` with `b < 4` is
    `x * 4 + b`, `x & ((1 << 2S) - 1)` is `x % Pow4(S)`, `x >> 2` is `x / 4`. */
module Nucleotide {

  /** A 2-bit base code: A = 0, C = 1, G = 2, T = 3. */
  type Code = b: int | 0 <= b < 4

  /** Largest s-mer length for which the mask `(1 << 2S) - 1` is defined on a
      128-bit unsigned integer. */
  const MaxS: nat := 63

  /** `~(__uint128_t)0`, the start value of the naive minimum. */
  const AllOnes: nat := 0xffff_ffff_ffff_ffff_ffff_ffff_ffff_ffff

  /** `base_to_bits`: upper- and lower-case A, C, G, T decode back to their
      letter; any other character is read as A. */
  function BaseToBits(c: char): (b: Code)
    ensures c in "ACGT" ==> "ACGT"[b] == c
    ensures c in "acgt" ==> "acgt"[b] == c
    ensures c !in "ACGTacgt" ==> b == 0
  {
    match c
    case 'A' => 0
    case 'a' => 0
    case 'C' => 1
    case 'c' => 1
    case 'G' => 2
    case 'g' => 2
    case 'T' => 3
    case 't' => 3
    case _ => 0
  }

  /** `complement_base`: the code of the Watson-Crick partner (A-T, C-G). */
  function ComplementBase(b: Code): (r: Code)
    ensures "ACGT"[r] == "TGCA"[b]
  {
    3 - b
  }

  lemma {:induction false} ComplementInvolutive(b: Code)
    ensures ComplementBase(ComplementBase(b)) == b
    ensures ComplementBase(b) != b
  {
  }

  function Pow4(n: nat): (r: nat)
    ensures r >= 1
  {
    if n == 0 then 1 else 4 * Pow4(n - 1)
  }

  /** `x << 2k`, for values that do not overflow: `k` 2-bit digits of zeros
      below `x`. */
  function ShiftDigits(x: nat, k: nat): nat
  {
    x * Pow4(k)
  }

  lemma {:induction false} Pow4Add(a: nat, b: nat)
    ensures Pow4(a + b) == Pow4(a) * Pow4(b)
  {
    if a > 0 {
      Pow4Add(a - 1, b);
      calc {
        Pow4(a + b);
        4 * Pow4(a - 1 + b);
        4 * (Pow4(a - 1) * Pow4(b));
        (4 * Pow4(a - 1)) * Pow4(b);
      }
    }
  }

  /** `Pow4Add` with the sum named, so that callers need not rewrite it. */
  lemma {:induction false} Pow4Sum(a: nat, b: nat, n: nat)
    requires n == a + b
    ensures Pow4(n) == Pow4(a) * Pow4(b)
  {
    Pow4Add(a, b);
  }

  lemma {:induction false} Pow4Monotone(a: nat, b: nat)
    requires a <= b
    ensures Pow4(a) <= Pow4(b)
  {
    if a < b {
      Pow4Monotone(a, b - 1);
    }
  }

  /** With at most 63 bases, every packing (and so every canonical hash) is
      strictly below the all-ones 128-bit value. */
  lemma {:induction false} Pow4BelowAllOnes(n: nat)
    requires n <= MaxS
    ensures Pow4(n) < AllOnes
  {
    Pow4Monotone(n, MaxS);
    Pow4AtMaxS();
  }

  lemma {:induction false} Pow4AtMaxS()
    ensures Pow4(MaxS) == 0x4000_0000_0000_0000_0000_0000_0000_0000
  {
    assert Pow4(3) == 64;
    Pow4Add(3, 3);
    assert Pow4(6) == 0x1000;
    Pow4Add(6, 6);
    assert Pow4(12) == 0x100_0000;
    Pow4Add(12, 12);
    assert Pow4(24) == 0x1_0000_0000_0000;
    Pow4Add(24, 24);
    assert Pow4(48) == 0x1_0000_0000_0000_0000_0000_0000;
    Pow4Add(48, 12);
    assert Pow4(60) == 0x100_0000_0000_0000_0000_0000_0000_0000;
    Pow4Add(60, 3);
  }

  /** `x % m` when `x` is `a` whole multiples of `m` plus a remainder below `m`. */
  lemma {:induction false} ModOfMultiplePlus(x: nat, a: nat, m: nat, r: nat)
    requires x == a * m + r && r < m
    ensures x % m == r
  {
    var k := x / m - a;
    assert m * k == r - x % m;
    assert k >= 1 ==> m * k >= m;
    assert k <= -1 ==> m * k + m <= 0;
  }

  lemma {:induction false} ModOfSmall(x: nat, m: nat)
    requires x < m
    ensures x % m == x
  {
  }

  /** Forward encoding: each base is a 2-bit digit, the first base the most
      significant one. */
  function Fwd(w: seq<char>): (r: nat)
    ensures r < Pow4(|w|)
  {
    if w == [] then 0 else Fwd(w[..|w| - 1]) * 4 + BaseToBits(w[|w| - 1])
  }

  /** Reverse-complement encoding: the complement of base k is the 2-bit digit
      of weight 4^k, so the last base's complement is the most significant. */
  function Rc(w: seq<char>): (r: nat)
    ensures r < Pow4(|w|)
  {
    if w == [] then 0 else ComplementBase(BaseToBits(w[0])) + 4 * Rc(w[1..])
  }

  /** Canonical hash: the smaller of the two encodings. */
  function Canon(w: seq<char>): (r: nat)
    ensures r < Pow4(|w|)
  {
    if Fwd(w) < Rc(w) then Fwd(w) else Rc(w)
  }

  /** Moving a leading digit across one shift by 2 bits. */
  lemma {:induction false} ShiftDigit(b0: int, p: int, y: int, d: int)
    ensures (b0 * p + y) * 4 + d == b0 * (4 * p) + (y * 4 + d)
  {
  }

  /** Adding a digit of weight 4p below a shift by 2 bits. */
  lemma {:induction false} DigitBelow(c0: int, y: int, cc: int, p: int)
    ensures c0 + 4 * (y + cc * p) == (c0 + 4 * y) + cc * (4 * p)
  {
  }

  lemma {:induction false} FwdSnoc(w: seq<char>, c: char)
    ensures Fwd(w + [c]) == Fwd(w) * 4 + BaseToBits(c)
  {
    assert (w + [c])[..|w|] == w;
  }

  lemma {:induction false} FwdCons(w: seq<char>)
    requires |w| >= 1
    ensures Fwd(w) == BaseToBits(w[0]) * Pow4(|w| - 1) + Fwd(w[1..])
  {
    if |w| == 1 {
      assert w[..0] == [] && w[1..] == [];
    } else {
      var u, t := w[..|w| - 1], w[1..];
      var b0, last := BaseToBits(w[0]), BaseToBits(w[|w| - 1]);
      FwdCons(u);
      assert u[0] == w[0];
      var mid := t[..|t| - 1];
      assert mid == u[1..];
      assert t[|t| - 1] == w[|w| - 1];
      var p, y := Pow4(|w| - 2), Fwd(mid);
      assert Fwd(w) == (b0 * p + y) * 4 + last;
      assert Fwd(t) == y * 4 + last;
      ShiftDigit(b0, p, y, last);
    }
  }

  lemma {:induction false} RcSnoc(w: seq<char>, c: char)
    ensures Rc(w + [c]) == Rc(w) + ComplementBase(BaseToBits(c)) * Pow4(|w|)
  {
    var cc := ComplementBase(BaseToBits(c));
    if w == [] {
      assert (w + [c])[1..] == [];
    } else {
      assert (w + [c])[0] == w[0];
      assert (w + [c])[1..] == w[1..] + [c];
      RcSnoc(w[1..], c);
      var c0, y, p := ComplementBase(BaseToBits(w[0])), Rc(w[1..]), Pow4(|w| - 1);
      assert Rc(w + [c]) == c0 + 4 * (y + cc * p);
      DigitBelow(c0, y, cc, p);
    }
  }

  /** Rolling the forward hash by one base (closed_syncmers.h, the update of
      `hash_fwd`): shifting in the new base and masking to 2|w| bits gives the
      forward encoding of the s-mer one position to the right. */
  lemma {:induction false} FwdRoll(w: seq<char>, c: char)
    requires |w| >= 1
    ensures (Fwd(w) * 4 + BaseToBits(c)) % Pow4(|w|) == Fwd(w[1..] + [c])
  {
    FwdShiftIn(w, c);
    ModOfMultiplePlus(Fwd(w) * 4 + BaseToBits(c), BaseToBits(w[0]), Pow4(|w|), Fwd(w[1..] + [c]));
  }

  /** Shifting a base into the forward encoding of `w` gives the first base
      at digit |w| above the forward encoding of the next s-mer. */
  lemma {:induction false} FwdShiftIn(w: seq<char>, c: char)
    requires |w| >= 1
    ensures Fwd(w) * 4 + BaseToBits(c) == BaseToBits(w[0]) * Pow4(|w|) + Fwd(w[1..] + [c])
    ensures Fwd(w[1..] + [c]) < Pow4(|w|)
  {
    var b0, d := BaseToBits(w[0]), BaseToBits(c);
    var p, y := Pow4(|w| - 1), Fwd(w[1..]);
    var next := w[1..] + [c];
    FwdCons(w);
    FwdSnoc(w[1..], c);
    assert Fwd(next) == y * 4 + d && Fwd(next) < Pow4(|next|);
    assert Pow4(|w|) == 4 * p && |next| == |w|;
    ShiftDigit(b0, p, y, d);
  }

  /** Rolling the reverse-complement hash by one base (the update of
      `hash_rev`): dropping the lowest digit and putting the new base's
      complement at digit |w|-1 gives the reverse-complement encoding of the
      s-mer one position to the right. */
  lemma {:induction false} RcRoll(w: seq<char>, c: char)
    requires |w| >= 1
    ensures (Rc(w) / 4 + ComplementBase(BaseToBits(c)) * Pow4(|w| - 1)) % Pow4(|w|)
            == Rc(w[1..] + [c])
  {
    var c0, y := ComplementBase(BaseToBits(w[0])), Rc(w[1..]);
    assert Rc(w) == c0 + 4 * y;
    assert (c0 + 4 * y) / 4 == y;
    RcSnoc(w[1..], c);
    var x := Rc(w) / 4 + ComplementBase(BaseToBits(c)) * Pow4(|w| - 1);
    ModOfMultiplePlus(x, 0, Pow4(|w|), Rc(w[1..] + [c]));
  }

  /** `v` spells, code by code, the reverse complement of `w`. */
  predicate IsReverseComplement(v: seq<char>, w: seq<char>)
  {
    |v| == |w| &&
    forall j :: 0 <= j < |w| ==> BaseToBits(v[j]) == ComplementBase(BaseToBits(w[|w| - 1 - j]))
  }

  lemma {:induction false} ReverseComplementSymmetric(v: seq<char>, w: seq<char>)
    requires IsReverseComplement(v, w)
    ensures IsReverseComplement(w, v)
  {
    forall j | 0 <= j < |v|
      ensures BaseToBits(w[j]) == ComplementBase(BaseToBits(v[|v| - 1 - j]))
    {
      assert BaseToBits(v[|v| - 1 - j]) == ComplementBase(BaseToBits(w[|w| - 1 - (|v| - 1 - j)]));
    }
  }

  /** The forward encoding of a reverse complement is the reverse-complement
      encoding of the original. */
  lemma {:induction false} FwdOfReverseComplement(v: seq<char>, w: seq<char>)
    requires IsReverseComplement(v, w)
    ensures Fwd(v) == Rc(w)
  {
    if w != [] {
      var n := |w|;
      var v', w' := v[..n - 1], w[1..];
      assert IsReverseComplement(v', w') by {
        forall j | 0 <= j < n - 1
          ensures BaseToBits(v'[j]) == ComplementBase(BaseToBits(w'[|w'| - 1 - j]))
        {
          assert BaseToBits(v[j]) == ComplementBase(BaseToBits(w[n - 1 - j]));
        }
      }
      FwdOfReverseComplement(v', w');
      assert BaseToBits(v[n - 1]) == ComplementBase(BaseToBits(w[0]));
    }
  }

  /** Canonical symmetry: an s-mer and its reverse complement have the same
      canonical hash, so the hash does not depend on the strand read. */
  lemma {:induction false} CanonSymmetric(v: seq<char>, w: seq<char>)
    requires IsReverseComplement(v, w)
    ensures Fwd(v) == Rc(w) && Rc(v) == Fwd(w)
    ensures Canon(v) == Canon(w)
  {
    FwdOfReverseComplement(v, w);
    ReverseComplementSymmetric(v, w);
    FwdOfReverseComplement(w, v);
  }
}
