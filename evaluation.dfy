/**
 * Segmentation quality metrics: IoU, Dice, precision, recall and F1 between a
 * ground-truth mask and a segmented mask.
 *
 * A mask is an image of pixel values; every metric is an element-wise test
 * followed by a sum, so a mask is modelled as its pixels flattened into one
 * sequence. The two masks of a comparison have the same length.
 * Ratios are computed over `real`: a division the source leaves unguarded
 * becomes a precondition, a guarded one an explicit zero branch.
 */
module Evaluation {

  /** One mask, pixel values in row-major order. */
  type Mask = seq<int>

  // ---------------------------------------------------------------------------
  // Counting pixels

  /** Number of pixel positions i at which `keep(gt[i], seg[i])` holds. */
  function CountWhere(gt: Mask, seg: Mask, keep: (int, int) -> bool): (n: nat)
    requires |gt| == |seg|
    ensures n <= |gt|
  {
    if |gt| == 0 then 0
    else (if keep(gt[0], seg[0]) then 1 else 0) + CountWhere(gt[1..], seg[1..], keep)
  }

  /** Element-wise logical and of the two masks (a pixel is true when nonzero). */
  predicate BothSet(g: int, s: int) { g != 0 && s != 0 }

  /** Element-wise logical or of the two masks. */
  predicate EitherSet(g: int, s: int) { g != 0 || s != 0 }

  /** Segmented pixel equal to 1 where the ground truth is 1. */
  predicate TruePositive(g: int, s: int) { s == 1 && g == 1 }

  /** Segmented pixel equal to 1 where the ground truth is 0. */
  predicate FalsePositive(g: int, s: int) { s == 1 && g == 0 }

  /** Segmented pixel equal to 0 where the ground truth is 1. */
  predicate FalseNegative(g: int, s: int) { s == 0 && g == 1 }

  function Intersection(gt: Mask, seg: Mask): (n: nat)
    requires |gt| == |seg|
  {
    CountWhere(gt, seg, BothSet)
  }

  function Union(gt: Mask, seg: Mask): (n: nat)
    requires |gt| == |seg|
  {
    CountWhere(gt, seg, EitherSet)
  }

  function TruePositives(gt: Mask, seg: Mask): (n: nat)
    requires |gt| == |seg|
  {
    CountWhere(gt, seg, TruePositive)
  }

  function FalsePositives(gt: Mask, seg: Mask): (n: nat)
    requires |gt| == |seg|
  {
    CountWhere(gt, seg, FalsePositive)
  }

  function FalseNegatives(gt: Mask, seg: Mask): (n: nat)
    requires |gt| == |seg|
  {
    CountWhere(gt, seg, FalseNegative)
  }

  /** Number of nonzero pixels of one mask. */
  function Support(m: Mask): (n: nat)
    ensures n <= |m|
  {
    if |m| == 0 then 0 else (if m[0] != 0 then 1 else 0) + Support(m[1..])
  }

  /** Sum of the pixel values of one mask (numpy's `np.sum` of the image). */
  function Sum(m: Mask): (total: int)
  {
    if |m| == 0 then 0 else m[0] + Sum(m[1..])
  }

  predicate NonNegative(m: Mask)
  {
    forall i :: 0 <= i < |m| ==> 0 <= m[i]
  }

  /** Every pixel is 0 or 1. */
  predicate IsBinary(m: Mask)
  {
    forall i :: 0 <= i < |m| ==> m[i] == 0 || m[i] == 1
  }

  /** Every pixel is 0 or the single foreground value c. */
  predicate IsTwoLevel(m: Mask, c: int)
  {
    forall i :: 0 <= i < |m| ==> m[i] == 0 || m[i] == c
  }

  predicate SameSupport(gt: Mask, seg: Mask)
    requires |gt| == |seg|
  {
    forall i :: 0 <= i < |gt| ==> (gt[i] != 0 <==> seg[i] != 0)
  }

  predicate Disjoint(gt: Mask, seg: Mask)
    requires |gt| == |seg|
  {
    forall i :: 0 <= i < |gt| ==> gt[i] == 0 || seg[i] == 0
  }

  // ---------------------------------------------------------------------------
  // Facts about counting

  /** A count is zero exactly when no position passes the test. */
  lemma {:induction false} CountWhereNone(gt: Mask, seg: Mask, keep: (int, int) -> bool)
    requires |gt| == |seg|
    ensures CountWhere(gt, seg, keep) == 0 <==> forall i :: 0 <= i < |gt| ==> !keep(gt[i], seg[i])
  {
    if |gt| > 0 {
      CountWhereNone(gt[1..], seg[1..], keep);
      assert forall i :: 0 < i < |gt| ==> gt[i] == gt[1..][i - 1] && seg[i] == seg[1..][i - 1];
    }
  }

  /**
   * A test implied position by position by another counts no more pixels, and
   * the same number exactly when the two tests agree at every position.
   */
  lemma {:induction false} CountWhereWeaker(gt: Mask, seg: Mask, p: (int, int) -> bool, q: (int, int) -> bool)
    requires |gt| == |seg|
    requires forall i :: 0 <= i < |gt| ==> (p(gt[i], seg[i]) ==> q(gt[i], seg[i]))
    ensures CountWhere(gt, seg, p) <= CountWhere(gt, seg, q)
    ensures CountWhere(gt, seg, p) == CountWhere(gt, seg, q)
        <==> forall i :: 0 <= i < |gt| ==> (q(gt[i], seg[i]) ==> p(gt[i], seg[i]))
  {
    if |gt| > 0 {
      assert forall i :: 0 < i < |gt| ==> gt[i] == gt[1..][i - 1] && seg[i] == seg[1..][i - 1];
      CountWhereWeaker(gt[1..], seg[1..], p, q);
    }
  }

  /** Swapping the two masks and the arguments of the test leaves the count unchanged. */
  lemma {:induction false} CountWhereSwap(gt: Mask, seg: Mask, p: (int, int) -> bool, q: (int, int) -> bool)
    requires |gt| == |seg|
    requires forall i :: 0 <= i < |gt| ==> q(seg[i], gt[i]) == p(gt[i], seg[i])
    ensures CountWhere(seg, gt, q) == CountWhere(gt, seg, p)
  {
    if |gt| > 0 {
      assert forall i :: 0 < i < |gt| ==> gt[i] == gt[1..][i - 1] && seg[i] == seg[1..][i - 1];
      CountWhereSwap(gt[1..], seg[1..], p, q);
    }
  }

  /** Inclusion-exclusion: |A| + |B| == |A and B| + |A or B|. */
  lemma {:induction false} SupportsSplit(gt: Mask, seg: Mask)
    requires |gt| == |seg|
    ensures Support(gt) + Support(seg) == Intersection(gt, seg) + Union(gt, seg)
  {
    if |gt| > 0 {
      SupportsSplit(gt[1..], seg[1..]);
    }
  }

  /** The intersection is part of the union; it is all of it exactly when both masks have the same support. */
  lemma IntersectionWithinUnion(gt: Mask, seg: Mask)
    requires |gt| == |seg|
    ensures Intersection(gt, seg) <= Union(gt, seg)
    ensures Intersection(gt, seg) == Union(gt, seg) <==> SameSupport(gt, seg)
    ensures Intersection(gt, seg) == 0 <==> Disjoint(gt, seg)
    ensures Union(gt, seg) == 0 <==> Support(gt) + Support(seg) == 0
  {
    CountWhereWeaker(gt, seg, BothSet, EitherSet);
    CountWhereNone(gt, seg, BothSet);
    SupportsSplit(gt, seg);
  }

  /**
   * For a mask of non-negative pixels the pixel sum is at least the number of
   * nonzero pixels, with equality exactly when the mask is binary.
   */
  lemma {:induction false} SumCoversSupport(m: Mask)
    requires NonNegative(m)
    ensures Sum(m) >= Support(m)
    ensures Sum(m) == Support(m) <==> IsBinary(m)
  {
    if |m| > 0 {
      assert forall i :: 0 < i < |m| ==> m[i] == m[1..][i - 1];
      SumCoversSupport(m[1..]);
    }
  }

  /** A mask whose pixels are 0 or c sums to c times its support. */
  lemma {:induction false} SumOfTwoLevel(m: Mask, c: int)
    requires IsTwoLevel(m, c)
    ensures Sum(m) == c * Support(m)
  {
    if |m| > 0 {
      assert forall i :: 0 < i < |m| ==> m[i] == m[1..][i - 1];
      SumOfTwoLevel(m[1..], c);
    }
  }

  // ---------------------------------------------------------------------------
  // Real arithmetic used by the ratios

  function Min(a: real, b: real): (m: real) { if a <= b then a else b }

  function Max(a: real, b: real): (m: real) { if a <= b then b else a }

  /** x / y over the reals: Python's true division of two integer counts. */
  function Ratio(x: int, y: int): (q: real)
    requires y != 0
  {
    (x as real) / (y as real)
  }

  /** A part over a positive whole lies in [0, 1], reaching 0 and 1 exactly at the ends. */
  lemma RatioWithinUnit(x: int, y: int)
    requires 0 <= x <= y && 0 < y
    ensures 0.0 <= Ratio(x, y) <= 1.0
    ensures Ratio(x, y) == 1.0 <==> x == y
    ensures Ratio(x, y) == 0.0 <==> x == 0
  {
    assert Ratio(x, y) * (y as real) == x as real;
  }

  /** 2ab / (a + b), and 0 where a + b is 0. */
  function HarmonicMean(a: real, b: real): (h: real)
  {
    if a + b != 0.0 then 2.0 * (a * b) / (a + b) else 0.0
  }

  lemma HarmonicMeanSymmetric(a: real, b: real)
    ensures HarmonicMean(a, b) == HarmonicMean(b, a)
  {
    assert a * b == b * a;
  }

  /** The harmonic mean of two non-negative reals lies between them, and is 0 exactly when one of them is. */
  lemma HarmonicMeanBetween(a: real, b: real)
    requires 0.0 <= a && 0.0 <= b
    ensures Min(a, b) <= HarmonicMean(a, b) <= Max(a, b)
    ensures HarmonicMean(a, b) == 0.0 <==> a == 0.0 || b == 0.0
  {
    if a + b == 0.0 { return; }
    var h := 2.0 * (a * b) / (a + b);
    assert a * b == 0.0 <==> a == 0.0 || b == 0.0;
    assert h * (a + b) == 2.0 * (a * b);
    if a <= b {
      assert a * a <= a * b;
      assert a * b <= b * b;
      assert a * (a + b) <= h * (a + b) <= b * (a + b);
    } else {
      assert b * b <= a * b;
      assert a * b <= a * a;
      assert b * (a + b) <= h * (a + b) <= a * (a + b);
    }
  }

  /** 2i / (i + u) rewritten through x = i / u as 2x / (1 + x). */
  lemma DiceIouAlgebra(i: int, u: int)
    requires 0 <= i && 0 < u
    ensures Ratio(2 * i, i + u) == 2.0 * Ratio(i, u) / (1.0 + Ratio(i, u))
  {
    var x := Ratio(i, u);
    assert x * (u as real) == i as real;
    assert (1.0 + x) * (u as real) == (u + i) as real;
    assert 2.0 * x * (u as real) == (2 * i) as real;
  }

  /** Scaling a positive denominator a + b by c divides the ratio by c. */
  lemma ScaledDenominator(n: int, x: int, y: int, a: nat, b: nat, c: int)
    requires 0 < a + b && 0 < c
    requires x == c * a && y == c * b
    ensures x + y > 0
    ensures Ratio(n, x + y) == Ratio(n, a + b) / (c as real)
  {
    assert x + y == c * (a + b);
    assert (x + y) as real == (c as real) * ((a + b) as real);
  }

  /** The harmonic mean of t / (t + f) and t / (t + n) is 2t / (2t + f + n). */
  lemma F1Algebra(t: int, f: int, n: int)
    requires 0 < t && 0 <= f && 0 <= n
    ensures HarmonicMean(Ratio(t, t + f), Ratio(t, t + n)) == Ratio(2 * t, 2 * t + f + n)
  {
    var tr, a, b := t as real, (t + f) as real, (t + n) as real;
    var p, r := Ratio(t, t + f), Ratio(t, t + n);
    assert p * a == tr;
    assert r * b == tr;
    assert (p + r) * (a * b) == tr * (a + b);
    assert 2.0 * (p * r) * (a * b) == 2.0 * tr * tr;
    assert a + b == (2 * t + f + n) as real;
  }

  // ---------------------------------------------------------------------------
  // Intersection over union

  /**
   * IoU: pixels nonzero in both masks over pixels nonzero in either. The
   * source divides unguarded, so the union must be nonempty.
   */
  function Iou(gt: Mask, seg: Mask): (r: real)
    requires |gt| == |seg|
    requires Union(gt, seg) > 0
    ensures 0.0 <= r <= 1.0
    ensures r == 1.0 <==> SameSupport(gt, seg)
    ensures r == 0.0 <==> Disjoint(gt, seg)
  {
    IntersectionWithinUnion(gt, seg);
    RatioWithinUnit(Intersection(gt, seg), Union(gt, seg));
    Ratio(Intersection(gt, seg), Union(gt, seg))
  }

  /** IoU does not depend on which mask is the ground truth. */
  lemma IouSymmetric(gt: Mask, seg: Mask)
    requires |gt| == |seg|
    requires Union(gt, seg) > 0
    ensures Union(seg, gt) == Union(gt, seg)
    ensures Iou(seg, gt) == Iou(gt, seg)
  {
    CountWhereSwap(gt, seg, BothSet, BothSet);
    CountWhereSwap(gt, seg, EitherSet, EitherSet);
  }

  // ---------------------------------------------------------------------------
  // Dice similarity coefficient

  /**
   * Dice as the source computes it: twice the nonzero-pixel intersection over
   * the SUM OF PIXEL VALUES of both masks. The division is unguarded.
   */
  function Dice(gt: Mask, seg: Mask): (r: real)
    requires |gt| == |seg|
    requires Sum(gt) + Sum(seg) != 0
    ensures r == 0.0 <==> Intersection(gt, seg) == 0
  {
    Ratio(2 * Intersection(gt, seg), Sum(gt) + Sum(seg))
  }

  /** Dice does not depend on which mask is the ground truth. */
  lemma DiceSymmetric(gt: Mask, seg: Mask)
    requires |gt| == |seg|
    requires Sum(gt) + Sum(seg) != 0
    ensures Dice(seg, gt) == Dice(gt, seg)
  {
    CountWhereSwap(gt, seg, BothSet, BothSet);
  }

  /** For masks of non-negative pixels the Dice score lies in [0, 1]. */
  lemma DiceWithinUnit(gt: Mask, seg: Mask)
    requires |gt| == |seg|
    requires NonNegative(gt) && NonNegative(seg)
    requires Sum(gt) + Sum(seg) != 0
    ensures 0.0 <= Dice(gt, seg) <= 1.0
  {
    var n, d := Intersection(gt, seg), Sum(gt) + Sum(seg);
    assert 0 <= 2 * n <= d by {
      IntersectionWithinUnion(gt, seg);
      SupportsSplit(gt, seg);
      SumCoversSupport(gt);
      SumCoversSupport(seg);
    }
    RatioWithinUnit(2 * n, d);
  }

  /**
   * Dice over nonzero-pixel counts, 2|A and B| / (|A| + |B|): the value the
   * source's formula has on 0/1 masks, and its intended meaning on any mask.
   */
  function DiceOfSupports(gt: Mask, seg: Mask): (r: real)
    requires |gt| == |seg|
    requires Union(gt, seg) > 0
    ensures 0.0 <= r <= 1.0
    ensures r == 1.0 <==> SameSupport(gt, seg)
    ensures r == 0.0 <==> Disjoint(gt, seg)
  {
    IntersectionWithinUnion(gt, seg);
    SupportsSplit(gt, seg);
    RatioWithinUnit(2 * Intersection(gt, seg), Support(gt) + Support(seg));
    Ratio(2 * Intersection(gt, seg), Support(gt) + Support(seg))
  }

  /** Dice and IoU determine each other: Dice == 2 IoU / (1 + IoU). */
  lemma DiceOfSupportsFromIou(gt: Mask, seg: Mask)
    requires |gt| == |seg|
    requires Union(gt, seg) > 0
    ensures DiceOfSupports(gt, seg) == 2.0 * Iou(gt, seg) / (1.0 + Iou(gt, seg))
  {
    SupportsSplit(gt, seg);
    DiceIouAlgebra(Intersection(gt, seg), Union(gt, seg));
  }

  /**
   * On 0/1 masks the source's Dice is defined exactly when the union is
   * nonempty, and then equals 2|A and B| / (|A| + |B|) and 2 IoU / (1 + IoU).
   */
  lemma DiceOfBinaryMasks(gt: Mask, seg: Mask)
    requires |gt| == |seg|
    requires IsBinary(gt) && IsBinary(seg)
    ensures Sum(gt) + Sum(seg) != 0 <==> Union(gt, seg) > 0
    ensures Union(gt, seg) > 0 ==>
      Dice(gt, seg) == DiceOfSupports(gt, seg) == 2.0 * Iou(gt, seg) / (1.0 + Iou(gt, seg))
  {
    assert Sum(gt) + Sum(seg) == Support(gt) + Support(seg) by {
      assert IsTwoLevel(gt, 1) && IsTwoLevel(seg, 1);
      SumOfTwoLevel(gt, 1);
      SumOfTwoLevel(seg, 1);
    }
    assert Union(gt, seg) > 0 <==> Support(gt) + Support(seg) > 0 by {
      IntersectionWithinUnion(gt, seg);
    }
    if Union(gt, seg) > 0 {
      assert Dice(gt, seg) == DiceOfSupports(gt, seg);
      DiceOfSupportsFromIou(gt, seg);
    }
  }

  /**
   * The source's Dice on masks whose foreground is stored as c (255 for an
   * 8-bit image) instead of 1: the score is divided by c.
   */
  lemma DiceOfTwoLevelMasks(gt: Mask, seg: Mask, c: int)
    requires |gt| == |seg|
    requires c > 0
    requires IsTwoLevel(gt, c) && IsTwoLevel(seg, c)
    requires Union(gt, seg) > 0
    ensures Sum(gt) + Sum(seg) != 0
    ensures Dice(gt, seg) == DiceOfSupports(gt, seg) / (c as real)
  {
    var n, a, b := Intersection(gt, seg), Support(gt), Support(seg);
    assert Sum(gt) == c * a && Sum(seg) == c * b by {
      SumOfTwoLevel(gt, c);
      SumOfTwoLevel(seg, c);
    }
    assert a + b > 0 by {
      IntersectionWithinUnion(gt, seg);
    }
    ScaledDenominator(2 * n, Sum(gt), Sum(seg), a, b, c);
    assert Dice(gt, seg) == Ratio(2 * n, Sum(gt) + Sum(seg));
    assert DiceOfSupports(gt, seg) == Ratio(2 * n, a + b);
  }

  /** Two identical one-pixel masks stored as 0/255: Dice is 1/255 although the masks agree. */
  lemma DiceOfIdenticalWhiteMasks()
    ensures Dice([255], [255]) == 1.0 / 255.0
    ensures DiceOfSupports([255], [255]) == 1.0
  {
    assert Intersection([255], [255]) == 1 by {
      assert [255][1..] == [];
    }
    assert Union([255], [255]) == 1 by {
      assert [255][1..] == [];
    }
    assert Sum([255]) == 255 by {
      assert [255][1..] == [];
    }
    assert Support([255]) == 1 by {
      assert [255][1..] == [];
    }
  }

  // ---------------------------------------------------------------------------
  // Precision, recall, F1

  /**
   * Precision: true positives over all segmented pixels equal to 1 whose
   * ground truth is 0 or 1; 0 when there are none.
   */
  function Precision(gt: Mask, seg: Mask): (r: real)
    requires |gt| == |seg|
    ensures 0.0 <= r <= 1.0
    ensures r == 0.0 <==> TruePositives(gt, seg) == 0
    ensures r == 1.0 <==> TruePositives(gt, seg) > 0 && FalsePositives(gt, seg) == 0
  {
    var tp, fp := TruePositives(gt, seg), FalsePositives(gt, seg);
    if tp + fp != 0 then RatioWithinUnit(tp, tp + fp); Ratio(tp, tp + fp) else 0.0
  }

  /**
   * Recall: true positives over all ground-truth pixels equal to 1 whose
   * segmented pixel is 0 or 1; 0 when there are none.
   */
  function Recall(gt: Mask, seg: Mask): (r: real)
    requires |gt| == |seg|
    ensures 0.0 <= r <= 1.0
    ensures r == 0.0 <==> TruePositives(gt, seg) == 0
    ensures r == 1.0 <==> TruePositives(gt, seg) > 0 && FalseNegatives(gt, seg) == 0
  {
    var tp, fn := TruePositives(gt, seg), FalseNegatives(gt, seg);
    if tp + fn != 0 then RatioWithinUnit(tp, tp + fn); Ratio(tp, tp + fn) else 0.0
  }

  /**
   * The true-positive test asks for pixels equal to 1. When one of the masks
   * has no such pixel, as a 0/255 mask image has none, there are no true
   * positives and precision, recall and F1 are all 0.
   */
  lemma NoUnitPixelsScoreZero(gt: Mask, seg: Mask)
    requires |gt| == |seg|
    requires (forall i :: 0 <= i < |gt| ==> gt[i] != 1) || (forall i :: 0 <= i < |seg| ==> seg[i] != 1)
    ensures TruePositives(gt, seg) == 0
    ensures Precision(gt, seg) == 0.0 && Recall(gt, seg) == 0.0 && F1(gt, seg) == 0.0
  {
    CountWhereNone(gt, seg, TruePositive);
  }

  /** Recall is precision with the roles of the two masks exchanged. */
  lemma RecallIsSwappedPrecision(gt: Mask, seg: Mask)
    requires |gt| == |seg|
    ensures TruePositives(seg, gt) == TruePositives(gt, seg)
    ensures FalsePositives(seg, gt) == FalseNegatives(gt, seg)
    ensures Recall(gt, seg) == Precision(seg, gt)
  {
    CountWhereSwap(gt, seg, TruePositive, TruePositive);
    CountWhereSwap(gt, seg, FalseNegative, FalsePositive);
  }

  /**
   * F1: the harmonic mean of precision and recall, 0 when both are 0. It is 0
   * exactly when either of them is, and lies between them.
   */
  function F1(gt: Mask, seg: Mask): (r: real)
    requires |gt| == |seg|
    ensures 0.0 <= r <= 1.0
    ensures r == 0.0 <==> Precision(gt, seg) == 0.0 || Recall(gt, seg) == 0.0
    ensures Min(Precision(gt, seg), Recall(gt, seg)) <= r <= Max(Precision(gt, seg), Recall(gt, seg))
  {
    HarmonicMeanBetween(Precision(gt, seg), Recall(gt, seg));
    HarmonicMean(Precision(gt, seg), Recall(gt, seg))
  }

  /** F1 in terms of the counts: 2 TP / (2 TP + FP + FN), or 0 without true positives. */
  lemma F1FromCounts(gt: Mask, seg: Mask)
    requires |gt| == |seg|
    ensures var tp, fp, fn := TruePositives(gt, seg), FalsePositives(gt, seg), FalseNegatives(gt, seg);
      F1(gt, seg) == if tp == 0 then 0.0 else Ratio(2 * tp, 2 * tp + fp + fn)
  {
    var tp, fp, fn := TruePositives(gt, seg), FalsePositives(gt, seg), FalseNegatives(gt, seg);
    if tp > 0 {
      F1Algebra(tp, fp, fn);
      assert F1(gt, seg) == HarmonicMean(Ratio(tp, tp + fp), Ratio(tp, tp + fn));
    }
  }

  /** F1 does not depend on which mask is the ground truth. */
  lemma F1Symmetric(gt: Mask, seg: Mask)
    requires |gt| == |seg|
    ensures F1(seg, gt) == F1(gt, seg)
  {
    RecallIsSwappedPrecision(gt, seg);
    RecallIsSwappedPrecision(seg, gt);
    HarmonicMeanSymmetric(Precision(gt, seg), Recall(gt, seg));
  }
}
