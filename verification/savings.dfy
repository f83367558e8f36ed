/** The savings figures the results panel shows, derived from the current
    result list every time: total bytes before and after, bytes saved, and
    percentages rounded with `Math.round`. */
module Savings {
  import opened Common
  import opened Results
  import OptimizeRoute

  /** `Math.round(num / den)` for an exact ratio: the nearest integer, halves
      rounded up (towards positive infinity). */
  function RoundHalfUp(num: int, den: int): (r: int)
    requires den > 0
    ensures 2 * den * r - den <= 2 * num < 2 * den * r + den
  {
    (2 * num + den) / (2 * den)
  }

  /** `Math.round((saved / original) * 100)`, or 0 when there is nothing to
      divide by. */
  function SavedPercent(saved: int, original: int): (pct: int)
    ensures original <= 0 ==> pct == 0
    ensures original > 0 ==> 2 * original * pct - original <= 200 * saved < 2 * original * pct + original
  {
    if original > 0 then RoundHalfUp(100 * saved, original) else 0
  }

  /** `size || 0`: a missing size counts as zero. */
  function SizeOrZero(size: Option<nat>): nat {
    match size
    case Some(n) => n
    case None => 0
  }

  /** `processedImages.reduce((acc, img) => acc + (img.originalSize || 0), 0)`. */
  function TotalOriginalSize(rs: seq<Processed>): (total: nat)
    ensures |rs| == 0 ==> total == 0
    ensures forall i :: 0 <= i < |rs| ==> SizeOrZero(rs[i].originalSize) <= total
  {
    if |rs| == 0 then 0 else TotalOriginalSize(rs[..|rs| - 1]) + SizeOrZero(rs[|rs| - 1].originalSize)
  }

  /** The same fold over `newSize`. */
  function TotalNewSize(rs: seq<Processed>): (total: nat)
    ensures |rs| == 0 ==> total == 0
    ensures forall i :: 0 <= i < |rs| ==> SizeOrZero(rs[i].newSize) <= total
  {
    if |rs| == 0 then 0 else TotalNewSize(rs[..|rs| - 1]) + SizeOrZero(rs[|rs| - 1].newSize)
  }

  /** Bytes saved over the whole list; negative when the images grew. */
  function TotalSaved(rs: seq<Processed>): (saved: int)
    ensures saved <= TotalOriginalSize(rs)
    ensures saved >= 0 <==> TotalNewSize(rs) <= TotalOriginalSize(rs)
  {
    TotalOriginalSize(rs) - TotalNewSize(rs)
  }

  /** The headline percentage: 0 for an empty or all-zero list, otherwise the
      total saving as a percentage of the original total, rounded half up. */
  function TotalSavedPercent(rs: seq<Processed>): (pct: int)
    ensures TotalOriginalSize(rs) == 0 ==> pct == 0
    ensures var t := TotalOriginalSize(rs);
      t > 0 ==> 2 * t * pct - t <= 200 * TotalSaved(rs) < 2 * t * pct + t
  {
    SavedPercent(TotalSaved(rs), TotalOriginalSize(rs))
  }

  /** No image grew, so the total did not grow either. */
  predicate NoneGrew(rs: seq<Processed>) {
    forall i :: 0 <= i < |rs| ==> SizeOrZero(rs[i].newSize) <= SizeOrZero(rs[i].originalSize)
  }

  lemma {:induction false} NoneGrewTotals(rs: seq<Processed>)
    requires NoneGrew(rs)
    ensures TotalNewSize(rs) <= TotalOriginalSize(rs)
    decreases |rs|
  {
    if |rs| > 0 {
      var init := rs[..|rs| - 1];
      assert NoneGrew(init) by {
        forall i | 0 <= i < |init| ensures SizeOrZero(init[i].newSize) <= SizeOrZero(init[i].originalSize) {
          assert init[i] == rs[i];
        }
      }
      NoneGrewTotals(init);
    }
  }

  /** When no image grew, the headline percentage lies between 0 and 100. */
  lemma TotalSavedPercentBounds(rs: seq<Processed>)
    requires NoneGrew(rs)
    ensures 0 <= TotalSaved(rs) <= TotalOriginalSize(rs)
    ensures 0 <= TotalSavedPercent(rs) <= 100
  {
    NoneGrewTotals(rs);
    SavedPercentBounds(TotalSaved(rs), TotalOriginalSize(rs));
  }

  /** The badge on one result: 0 when `originalSize` is missing or zero;
      `NaN` (None) when only `newSize` is missing; otherwise the rounded
      percentage saved on that image. */
  function ItemSavedPercent(p: Processed): (pct: Option<int>)
    ensures (p.originalSize.None? || p.originalSize == Some(0)) ==> pct == Some(0)
    ensures pct.None? <==> p.originalSize.Some? && p.originalSize.value > 0 && p.newSize.None?
  {
    match p.originalSize
    case None => Some(0)
    case Some(o) =>
      if o == 0 then Some(0)
      else match p.newSize
        case None => None
        case Some(n) => Some(SavedPercent(o - n, o))
  }

  /** A result received from the endpoint carries both sizes, so its badge is
      never `NaN`; it is the rounded percentage saved on that image. */
  lemma ReceivedResultBadge(body: OptimizeRoute.Body)
    ensures ItemSavedPercent(FromBody(body)).Some?
    ensures body.originalSize > 0 ==>
      ItemSavedPercent(FromBody(body)) == Some(SavedPercent(body.originalSize - body.newSize, body.originalSize))
  {
  }

  /** The totals are sums: the figures for a list are the figures for its
      parts added up. */
  lemma {:induction false} TotalsAppend(a: seq<Processed>, b: seq<Processed>)
    ensures TotalOriginalSize(a + b) == TotalOriginalSize(a) + TotalOriginalSize(b)
    ensures TotalNewSize(a + b) == TotalNewSize(a) + TotalNewSize(b)
    decreases |b|
  {
    if |b| == 0 {
      assert a + b == a;
    } else {
      var b' := b[..|b| - 1];
      assert (a + b)[..|a + b| - 1] == a + b';
      assert (a + b)[|a + b| - 1] == b[|b| - 1];
      TotalsAppend(a, b');
    }
  }

  /** Every figure of a one-image list is that image's own figure. */
  lemma SingleItemTotals(p: Processed)
    ensures TotalOriginalSize([p]) == SizeOrZero(p.originalSize)
    ensures TotalNewSize([p]) == SizeOrZero(p.newSize)
    ensures p.originalSize.Some? && p.originalSize.value > 0 && p.newSize.Some? ==>
      ItemSavedPercent(p) == Some(TotalSavedPercent([p]))
  {
    assert [p][..0] == [];
  }

  /** When no image grew, the percentage saved lies between 0 and 100. */
  lemma SavedPercentBounds(saved: int, original: int)
    requires 0 <= saved <= original
    ensures 0 <= SavedPercent(saved, original) <= 100
  {
    if original > 0 {
      var pct := SavedPercent(saved, original);
      var k := 2 * original;
      assert k * pct - original <= 200 * saved < k * pct + original;
      if pct < 0 {
        MulLe(k, pct, -1);
      }
      if pct > 100 {
        MulLe(k, 101, pct);
      }
    }
  }

  lemma MulLe(k: int, x: int, y: int)
    requires k > 0 && x <= y
    ensures k * x <= k * y
  {
    assert k * y - k * x == k * (y - x);
  }

  /** 1000 bytes shrunk to 400 is a 60% saving; 3 of 1000 rounds to 0 and
      5 of 1000 rounds up to 1. */
  lemma SavedPercentExamples()
    ensures SavedPercent(1000 - 400, 1000) == 60
    ensures SavedPercent(3, 1000) == 0
    ensures SavedPercent(5, 1000) == 1
    ensures SavedPercent(-5, 1000) == 0
    ensures SavedPercent(600, 0) == 0
  {
  }
}
