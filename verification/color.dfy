/**
 * Colour buckets and the `#RRGGBB` codec used by the text-contrast
 * analysis: `hexToRgb` and the inline bucket-key expression that floors each
 * channel to a multiple of the bucket size and prints it as upper-case hex.
 */
module Color {
  import opened Wrappers
  import opened JsText

  /** One entry of a `Uint8ClampedArray`. */
  type Byte = x: int | 0 <= x < 256

  /** A colour as `hexToRgb` returns it: three parsed channels. */
  datatype Rgb = Rgb(r: nat, g: nat, b: nat)

  predicate IsChannel(v: nat) { v < 256 }

  /** `parseInt(slice, 16)` on a slice of at most two characters stays below 256. */
  lemma {:induction false} ShortHexBound(s: string)
    requires |s| <= 2
    ensures ParseHex(s).Some? ==> ParseHex(s).value < 256
  {
    var n := HexPrefixLength(s);
    if n == 2 {
      assert s[..n][..1] == s[..1];
      assert HexValue(s[..1]) == HexDigitValue(s[0]) by {
        assert s[..1][..0] == [];
      }
    } else if n == 1 {
      assert s[..n][..0] == [];
    }
  }

  /**
   * `hexToRgb`: parses characters 1-2, 3-4 and 5-6 as hexadecimal.  A
   * channel `parseInt` cannot read is `NaN`, which poisons the luminance and
   * the contrast computed from it; `None` stands for that poisoned colour.
   */
  function HexToRgb(hex: string): (c: Option<Rgb>)
    ensures c.Some? <==>
      && ParseHex(Slice(hex, 1, 3)).Some?
      && ParseHex(Slice(hex, 3, 5)).Some?
      && ParseHex(Slice(hex, 5, 7)).Some?
    ensures c.Some? ==> IsChannel(c.value.r) && IsChannel(c.value.g) && IsChannel(c.value.b)
  {
    ShortHexBound(Slice(hex, 1, 3));
    ShortHexBound(Slice(hex, 3, 5));
    ShortHexBound(Slice(hex, 5, 7));
    match (ParseHex(Slice(hex, 1, 3)), ParseHex(Slice(hex, 3, 5)), ParseHex(Slice(hex, 5, 7)))
    case (Some(r), Some(g), Some(b)) => Some(Rgb(r, g, b))
    case _ => None
  }

  /** `Math.floor(v / scale) * scale` for a byte `v` and a positive bucket size. */
  function Quantize(v: Byte, scale: nat): (q: Byte)
    requires scale > 0
    ensures q % scale == 0
    ensures q <= v < q + scale
  {
    var k := v / scale;
    assert v == k * scale + v % scale;
    MultipleMod(k, scale);
    k * scale
  }

  lemma {:induction false} MultipleMod(k: nat, m: nat)
    requires m > 0
    ensures (k * m) % m == 0
  {
    var x := k * m;
    var d := k - x / m;
    assert x == (x / m) * m + x % m;
    assert x % m == d * m;
    assert d >= 1 ==> (d - 1) * m >= 0;
    assert d <= -1 ==> (-d - 1) * m >= 0;
  }

  /** The bucket size the text-contrast analysis passes in. */
  const BucketSize: nat := 30

  /** `(1 << 24) + (R << 16) + (G << 8) + B`: a marker bit above three packed bytes. */
  function Packed(r: Byte, g: Byte, b: Byte): nat {
    0x100_0000 + r * 0x1_0000 + g * 0x100 + b
  }

  function LowerHexDigit(d: nat): char
    requires d < 16
  {
    "0123456789abcdef"[d]
  }

  /**
   * `Number.prototype.toString(16)` on a non-negative integer, or on `NaN`
   * (`None`), which prints as "NaN".
   */
  function Radix16(n: Option<nat>): string {
    match n
    case None => "NaN"
    case Some(v) => LowerHex(v)
  }

  function LowerHex(n: nat): string {
    if n < 16 then [LowerHexDigit(n)] else LowerHex(n / 16) + [LowerHexDigit(n % 16)]
  }

  /** `String.prototype.toUpperCase` restricted to ASCII letters. */
  function ToUpperAscii(s: string): (u: string)
    ensures |u| == |s|
  {
    if s == [] then []
    else
      var c := s[0];
      [if 'a' <= c <= 'z' then (c as int - 32) as char else c] + ToUpperAscii(s[1..])
  }

  /** The pixel bytes at a `Uint8ClampedArray` index; `None` when the read is `undefined`. */
  datatype Pixel = Pixel(r: Byte, g: Byte, b: Byte)

  /**
   * The bucket key of one pixel read: each channel floored to a multiple of
   * `scale`, packed under the marker bit, printed in base 16 without the
   * marker digit and upper-cased.  An out-of-range read yields `undefined`
   * channels; the red and green shifts turn `NaN` into 0 but the unshifted
   * blue term keeps the sum `NaN`, whose key is "#AN".
   */
  function BucketKey(px: Option<Pixel>, scale: nat): string
    requires scale > 0
  {
    var sum: Option<nat> := match px
      case None => None
      case Some(p) => Some(Packed(Quantize(p.r, scale), Quantize(p.g, scale), Quantize(p.b, scale)));
    KeyOf(sum)
  }

  /** The key printed for a packed sum: its base-16 digits after the marker digit, upper-cased. */
  function KeyOf(sum: Option<nat>): string {
    var printed := Radix16(sum);
    "#" + ToUpperAscii(Slice(printed, 1, |printed|))
  }

  /** Two upper-case hexadecimal digits for a byte. */
  function Hex2(v: Byte): string {
    [UpperHexDigit(v / 16), UpperHexDigit(v % 16)]
  }

  /** The lower-case digits `toString(16)` prints for a byte that sits under a higher digit. */
  function LowerHex2(v: Byte): string {
    [LowerHexDigit(v / 16), LowerHexDigit(v % 16)]
  }

  lemma {:induction false} HexStep(n: nat, hi: nat, d: nat)
    requires d < 16 && hi >= 1 && n == hi * 16 + d
    ensures LowerHex(n) == LowerHex(hi) + [LowerHexDigit(d)]
  {
  }

  /** Appending one byte's two digits below a number prints its digits, then theirs. */
  lemma {:induction false} HexByteStep(hi: nat, v: Byte)
    requires hi >= 1
    ensures LowerHex(hi * 256 + v) == LowerHex(hi) + LowerHex2(v)
  {
    var h, l := v / 16, v % 16;
    assert v == h * 16 + l;
    HexStep(hi * 256 + v, hi * 16 + h, l);
    HexStep(hi * 16 + h, hi, h);
  }

  lemma {:induction false} UpperOfLowerDigit(d: nat)
    requires d < 16
    ensures ToUpperAscii([LowerHexDigit(d)]) == [UpperHexDigit(d)]
  {
  }

  lemma {:induction false} ToUpperAppend(a: string, b: string)
    ensures ToUpperAscii(a + b) == ToUpperAscii(a) + ToUpperAscii(b)
  {
    if a != [] {
      assert (a + b)[0] == a[0];
      assert (a + b)[1..] == a[1..] + b;
      ToUpperAppend(a[1..], b);
      assert ToUpperAscii(a + b) == ToUpperAscii(a[..1]) + ToUpperAscii(a[1..] + b);
      assert ToUpperAscii(a) == ToUpperAscii(a[..1]) + ToUpperAscii(a[1..]);
    } else {
      assert a + b == b;
    }
  }

  lemma {:induction false} UpperHex2(v: Byte)
    ensures ToUpperAscii(LowerHex2(v)) == Hex2(v)
  {
    assert LowerHex2(v) == [LowerHexDigit(v / 16)] + [LowerHexDigit(v % 16)];
    ToUpperAppend([LowerHexDigit(v / 16)], [LowerHexDigit(v % 16)]);
    UpperOfLowerDigit(v / 16);
    UpperOfLowerDigit(v % 16);
  }

  /** The printed digits of a packed colour: the marker "1" and then two digits per channel. */
  lemma {:induction false} PackedDigits(r: Byte, g: Byte, b: Byte)
    ensures LowerHex(Packed(r, g, b)) == "1" + LowerHex2(r) + LowerHex2(g) + LowerHex2(b)
  {
    assert LowerHex(1) == "1";
    HexByteStep(1, r);
    HexByteStep(256 + r, g);
    HexByteStep((256 + r) * 256 + g, b);
    assert Packed(r, g, b) == ((256 + r) * 256 + g) * 256 + b;
  }

  /** The key of a read pixel is "#" followed by the three quantized channels as two hex digits each. */
  lemma {:induction false} BucketKeyDigits(p: Pixel, scale: nat)
    requires scale > 0
    ensures BucketKey(Some(p), scale) ==
      "#" + Hex2(Quantize(p.r, scale)) + Hex2(Quantize(p.g, scale)) + Hex2(Quantize(p.b, scale))
  {
    PackedKey(Quantize(p.r, scale), Quantize(p.g, scale), Quantize(p.b, scale));
  }

  lemma {:induction false} PackedKey(r: Byte, g: Byte, b: Byte)
    ensures KeyOf(Some(Packed(r, g, b))) == "#" + Hex2(r) + Hex2(g) + Hex2(b)
  {
    PackedDigits(r, g, b);
    var printed := LowerHex(Packed(r, g, b));
    var tail := LowerHex2(r) + LowerHex2(g) + LowerHex2(b);
    assert Slice(printed, 1, |printed|) == tail;
    ToUpperAppend(LowerHex2(r) + LowerHex2(g), LowerHex2(b));
    ToUpperAppend(LowerHex2(r), LowerHex2(g));
    UpperHex2(r);
    UpperHex2(g);
    UpperHex2(b);
  }

  /** Every key of a read pixel is "#" and exactly six upper-case hexadecimal digits. */
  lemma {:induction false} BucketKeyShape(p: Pixel, scale: nat)
    requires scale > 0
    ensures |BucketKey(Some(p), scale)| == 7
    ensures BucketKey(Some(p), scale)[0] == '#'
    ensures forall k :: 1 <= k < 7 ==> BucketKey(Some(p), scale)[k] in "0123456789ABCDEF"
  {
    BucketKeyDigits(p, scale);
  }

  lemma {:induction false} ParseHex2(v: Byte)
    ensures ParseHex(Hex2(v)) == Some(v)
  {
    var s := Hex2(v);
    assert HexPrefixLength(s[1..][1..]) == 0 by {
      assert s[1..][1..] == [];
    }
    assert HexPrefixLength(s) == 2;
    assert s[..2] == s;
    assert s[..1] == [s[0]];
    assert [s[0]][..0] == [];
    assert HexValue(s[..1]) == v / 16;
    assert HexValue(s) == (v / 16) * 16 + v % 16;
  }

  /**
   * The round trip the contrast step relies on: `hexToRgb` of a bucket key
   * returns exactly the three quantized channels of the pixel.
   */
  lemma {:induction false} BucketKeyRoundTrip(p: Pixel, scale: nat)
    requires scale > 0
    ensures HexToRgb(BucketKey(Some(p), scale)) ==
      Some(Rgb(Quantize(p.r, scale), Quantize(p.g, scale), Quantize(p.b, scale)))
  {
    var r, g, b := Quantize(p.r, scale), Quantize(p.g, scale), Quantize(p.b, scale);
    BucketKeyDigits(p, scale);
    var key := "#" + Hex2(r) + Hex2(g) + Hex2(b);
    assert Slice(key, 1, 3) == Hex2(r);
    assert Slice(key, 3, 5) == Hex2(g);
    assert Slice(key, 5, 7) == Hex2(b);
    ParseHex2(r);
    ParseHex2(g);
    ParseHex2(b);
  }

  /** An `undefined` pixel read gives the key "#AN", and `hexToRgb` of it has a `NaN` channel. */
  lemma {:induction false} MissingPixelKey(scale: nat)
    requires scale > 0
    ensures BucketKey(None, scale) == "#AN"
    ensures HexToRgb(BucketKey(None, scale)) == None
  {
    assert Slice("NaN", 1, 3) == "aN";
    assert ToUpperAscii("aN") == "AN" by {
      assert "aN"[1..] == "N";
      assert "N"[1..] == [];
    }
    assert Slice("#AN", 3, 5) == [];
  }
}
