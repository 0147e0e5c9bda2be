/**
 * The transparency score of `getImageTransparency`: the share of pixels
 * whose alpha byte is below 255, mapped onto a 0-10 scale where 10 means
 * fully opaque.  Real arithmetic here is exact; the source computes the same
 * expression in floating point.
 */
module Transparency {
  import opened Wrappers
  import opened Color

  /** Any alpha below this counts as transparent. */
  const Opaque: Byte := 255

  /** A score below this raises the high-transparency issue. */
  const FlagBelow: real := 9.0

  /** Number of pixels `p < n` whose alpha byte `data[4p + 3]` is below 255. */
  function NonOpaqueBelow(data: seq<Byte>, n: nat): (c: nat)
    requires 4 * n <= |data|
    ensures c <= n
  {
    if n == 0 then 0
    else NonOpaqueBelow(data, n - 1) + (if data[4 * (n - 1) + 3] < Opaque then 1 else 0)
  }

  /** Number of whole pixels in the buffer. */
  function PixelCount(data: seq<Byte>): nat {
    |data| / 4
  }

  /** Number of non-opaque pixels in the buffer. */
  function NonOpaque(data: seq<Byte>): (c: nat)
    ensures c <= PixelCount(data)
  {
    NonOpaqueBelow(data, PixelCount(data))
  }

  /**
   * The alpha loop `for (i = 3; i < data.length; i += 4)`: counts the alpha
   * bytes below 255, which are exactly the non-opaque whole pixels.
   */
  method CountNonOpaque(data: seq<Byte>) returns (count: nat)
    ensures count == NonOpaque(data)
    ensures count <= PixelCount(data)
  {
    count := 0;
    var i := 3;
    while i < |data|
      invariant i % 4 == 3
      invariant 3 <= i < |data| + 4
      invariant 4 * ((i - 3) / 4) <= |data|
      invariant count == NonOpaqueBelow(data, (i - 3) / 4)
    {
      if data[i] < Opaque {
        count := count + 1;
      }
      i := i + 4;
    }
    assert (i - 3) / 4 == |data| / 4;
  }

  /**
   * The score `10 - (count / total * 100) / 10` with `total = data.length / 4`;
   * `None` for an empty buffer, where the source computes `0 / 0 = NaN`.
   */
  function Score(data: seq<Byte>): (s: Option<real>)
    ensures s.None? <==> |data| == 0
    ensures s.Some? ==> 0.0 <= s.value <= 10.0
    ensures s.Some? ==> s.value == 10.0 - 40.0 * (NonOpaque(data) as real) / (|data| as real)
  {
    if |data| == 0 then None
    else
      var total := |data| as real / 4.0;
      var percentage := (NonOpaque(data) as real / total) * 100.0;
      ScoreAlgebra(NonOpaque(data) as real, |data| as real);
      Some(10.0 - percentage / 10.0)
  }

  lemma {:induction false} ScoreAlgebra(c: real, len: real)
    requires len > 0.0
    requires 0.0 <= c && 4.0 * c <= len
    ensures 10.0 - ((c / (len / 4.0)) * 100.0) / 10.0 == 10.0 - 40.0 * c / len
    ensures 0.0 <= 10.0 - 40.0 * c / len <= 10.0
  {
    var d := len / 4.0;
    var q := c / d;
    var r := 4.0 * c / len;
    assert q * d == c;
    assert r * len == 4.0 * c;
    assert r * d == c;
    assert (r - q) * d == 0.0;
    assert q == r;
    var y := 40.0 * c / len;
    assert y * len == 40.0 * c;
    assert (10.0 * r - y) * len == 0.0;
    assert 10.0 * r == y;
    assert 40.0 * c / len <= 10.0 by {
      assert 40.0 * c <= 10.0 * len;
    }
  }

  /**
   * The `< 9` flag applied to a decoded transparency score holds exactly when
   * more than a tenth of the buffer's pixel slots hold a non-opaque pixel.
   */
  lemma {:induction false} FlagIffOverTenPercent(data: seq<Byte>)
    requires |data| > 0
    ensures Score(data).value < FlagBelow <==> 40 * NonOpaque(data) > |data|
  {
    var n := NonOpaque(data);
    RatioAboveOne(n as real, |data| as real);
    assert (40 * n) as real == 40.0 * (n as real);
  }

  lemma {:induction false} RatioAboveOne(c: real, len: real)
    requires len > 0.0
    ensures 10.0 - 40.0 * c / len < 9.0 <==> 40.0 * c > len
  {
    var x := 40.0 * c / len;
    assert x * len == 40.0 * c;
    if x > 1.0 {
      assert (x - 1.0) * len > 0.0;
    } else {
      assert (1.0 - x) * len >= 0.0;
    }
  }

  lemma {:induction false} AllOpaqueCount(data: seq<Byte>, n: nat)
    requires 4 * n <= |data|
    requires forall p :: 0 <= p < n ==> data[4 * p + 3] == Opaque
    ensures NonOpaqueBelow(data, n) == 0
  {
    if n > 0 {
      AllOpaqueCount(data, n - 1);
    }
  }

  /** An image whose every alpha byte is 255 scores exactly 10 and is not flagged. */
  lemma {:induction false} AllOpaqueScoresTen(data: seq<Byte>)
    requires |data| > 0
    requires forall p :: 0 <= p < |data| / 4 ==> data[4 * p + 3] == Opaque
    ensures Score(data) == Some(10.0)
    ensures !(Score(data).value < FlagBelow)
  {
    AllOpaqueCount(data, |data| / 4);
  }

  /** An image with half of its pixels non-opaque (for instance at alpha 0) scores exactly 5 and is flagged. */
  lemma {:induction false} HalfTransparentScoresFive(data: seq<Byte>)
    requires |data| > 0 && |data| % 4 == 0
    requires 2 * NonOpaque(data) == PixelCount(data)
    ensures Score(data) == Some(5.0)
    ensures Score(data).value < FlagBelow
  {
    var n := NonOpaque(data);
    assert |data| == 8 * n;
    assert (|data| as real) == 8.0 * (n as real);
    RatioFive(n as real, |data| as real);
  }

  lemma {:induction false} RatioFive(c: real, len: real)
    requires len > 0.0 && len == 8.0 * c
    ensures 40.0 * c / len == 5.0
  {
    var x := 40.0 * c / len;
    assert x * len == 40.0 * c;
    assert (x - 5.0) * len == 0.0;
  }
}
