/**
 * The encoder quality handed to the WebP writer (app.py lines 249-254).
 * Compression is a "make it smaller" dial that discounts the base quality by
 * up to one half; the result is truncated and kept within [10, 100].
 * `quality * (1 - compression / 100 * 0.5)` equals `quality * (200 - compression) / 200`,
 * which the model evaluates exactly.
 */
module Quality {
  import opened Common

  const MinQuality := 10
  const MaxQuality := 100

  function Clamp(lo: int, hi: int, x: int): (r: int)
    requires lo <= hi
    ensures lo <= r <= hi
    ensures lo <= x <= hi ==> r == x
    ensures x < lo ==> r == lo
    ensures x > hi ==> r == hi
  {
    if x < lo then lo else if x > hi then hi else x
  }

  /** The discounted quality before clamping, scaled by 200. */
  function Weighted(quality: int, compression: int): int
  {
    quality * (200 - compression)
  }

  function EffectiveQuality(lossless: bool, quality: int, compression: int): (q: int)
    ensures MinQuality <= q <= MaxQuality
    ensures lossless ==> q == MaxQuality
    // otherwise q is the truncated discount, pinned to the floor or the ceiling
    ensures !lossless ==> (q == MaxQuality <==> Weighted(quality, compression) >= 200 * MaxQuality)
    ensures !lossless ==> (q == MinQuality <==> Weighted(quality, compression) < 200 * (MinQuality + 1))
    ensures !lossless && MinQuality < q < MaxQuality ==>
              200 * q <= Weighted(quality, compression) < 200 * q + 200
  {
    if lossless then MaxQuality
    else Clamp(MinQuality, MaxQuality, TruncDiv(Weighted(quality, compression), 200))
  }

  /** A higher base quality never lowers the effective quality. */
  lemma {:induction false} QualityMonotone(lossless: bool, q1: int, q2: int, compression: int)
    requires q1 <= q2 && compression <= 200
    ensures EffectiveQuality(lossless, q1, compression) <= EffectiveQuality(lossless, q2, compression)
  {
    if compression < 200 {
      MulMono(q1, q2, 200 - compression);
      TruncDivMono(Weighted(q1, compression), Weighted(q2, compression), 200);
    }
  }

  /** More compression never raises the effective quality. */
  lemma {:induction false} CompressionAntitone(lossless: bool, quality: int, c1: int, c2: int)
    requires c1 <= c2 && quality >= 0
    ensures EffectiveQuality(lossless, quality, c2) <= EffectiveQuality(lossless, quality, c1)
  {
    assert Weighted(quality, c2) <= Weighted(quality, c1) by {
      if quality > 0 { MulMono(200 - c2, 200 - c1, quality); }
    }
    TruncDivMono(Weighted(quality, c2), Weighted(quality, c1), 200);
  }

  lemma {:induction false} TruncDivMono(a1: int, a2: int, b: int)
    requires a1 <= a2 && b > 0
    ensures TruncDiv(a1, b) <= TruncDiv(a2, b)
  {
    var q1, q2 := TruncDiv(a1, b), TruncDiv(a2, b);
    TruncDivSpec(a1, b);
    TruncDivSpec(a2, b);
    if q2 < q1 {
      if a1 >= 0 {
        MulMono(q2 + 1, q1, b);
      } else if a2 < 0 {
        MulMono(q2, q1 - 1, b);
      }
    }
  }

  /** The worked values: 90/0 keeps 90, 90/100 halves to 45, 5/0 is lifted to the floor. */
  lemma QualityExamples()
    ensures EffectiveQuality(false, 90, 0) == 90
    ensures EffectiveQuality(false, 90, 100) == 45
    ensures EffectiveQuality(false, 5, 0) == 10
    ensures forall q, c :: EffectiveQuality(true, q, c) == 100
  {
  }
}
