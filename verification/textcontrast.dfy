/**
 * The OCR-guided text-contrast analysis (`determineTextColor`): for every
 * recognised word that passes the confidence and noise filter, the pixels
 * of its inclusive bounding box are tallied per colour bucket; the most
 * frequent bucket is taken as the background, the next as the text colour,
 * and the worst contrast over all kept words is reported, starting from 21.
 * Recognition itself and the luminance formula are outside the model: the
 * words are an input and the contrast of two colours is a parameter.
 */
module TextContrast {
  import opened Wrappers
  import opened Color

  /** Tesseract's inclusive word box, in pixels. */
  datatype BBox = BBox(x0: int, y0: int, x1: int, y1: int)

  /** One recognised word. */
  datatype Word = Word(text: string, confidence: real, bbox: BBox)

  /** The canvas `ImageData`: RGBA bytes in row-major order and the row width in pixels. */
  datatype ImageData = ImageData(data: seq<Byte>, width: nat)

  /** Why `determineTextColor` rejects, after which its caller substitutes 21. */
  datatype ContrastError =
    | NoTextFound       // the word list is empty
    | TooFewColours     // a kept box has fewer than two buckets: indexing the sorted tally throws

  /** The contrast reported when nothing worse is found. */
  const MaxContrast: real := 21.0

  /** The confidence a word needs to be analysed. */
  const MinConfidence: real := 85.0

  /** Recognised texts treated as table rules and other noise. */
  const NoiseTokens: set<string> := {"|", "-", "_", "/", "="}

  /** The word filter of `determineTextColor`. */
  predicate Kept(w: Word) {
    w.confidence >= MinConfidence && w.text !in NoiseTokens
  }

  /**
   * The pixel index `y * width` where row `y` starts, by repeated addition
   * (see `RowStartIsProduct`), which keeps the product out of the proofs
   * that only count samples.
   */
  function RowStart(width: nat, y: int): int
    decreases if y < 0 then -y else y
  {
    if y == 0 then 0
    else if y > 0 then RowStart(width, y - 1) + width
    else RowStart(width, y + 1) - width
  }

  lemma {:induction false} RowStartIsProduct(width: nat, y: int)
    ensures RowStart(width, y) == y * width
    decreases if y < 0 then -y else y
  {
    if y > 0 {
      RowStartIsProduct(width, y - 1);
      assert (y - 1) * width + width == y * width;
    } else if y < 0 {
      RowStartIsProduct(width, y + 1);
      assert (y + 1) * width - width == y * width;
    }
  }

  /**
   * The RGB bytes at pixel (x, y); `None` when the index falls outside the
   * buffer and JavaScript reads `undefined`.  No clipping to the image is done.
   */
  function PixelAt(img: ImageData, x: int, y: int): Option<Pixel> {
    var idx := (RowStart(img.width, y) + x) * 4;
    if 0 <= idx && idx + 2 < |img.data| then
      Some(Pixel(img.data[idx], img.data[idx + 1], img.data[idx + 2]))
    else None
  }

  /** The pixel read is the one at byte offset `(y * width + x) * 4` of the buffer. */
  lemma {:induction false} PixelAtOffset(img: ImageData, x: int, y: int)
    ensures var idx := (y * img.width + x) * 4;
      PixelAt(img, x, y) == if 0 <= idx && idx + 2 < |img.data| then
        Some(Pixel(img.data[idx], img.data[idx + 1], img.data[idx + 2])) else None
  {
    RowStartIsProduct(img.width, y);
  }

  /** Bucket keys of row `y` from column `x` to `x1` inclusive, left to right. */
  function RowKeys(img: ImageData, y: int, x: int, x1: int, scale: nat): (ks: seq<string>)
    requires scale > 0
    ensures |ks| == if x <= x1 then x1 - x + 1 else 0
    decreases x1 - x
  {
    if x > x1 then [] else [BucketKey(PixelAt(img, x, y), scale)] + RowKeys(img, y, x + 1, x1, scale)
  }

  /** Bucket keys of rows `y` to `b.y1` of box `b`, top to bottom. */
  function RowsKeys(img: ImageData, b: BBox, y: int, scale: nat): seq<string>
    requires scale > 0
    decreases b.y1 - y
  {
    if y > b.y1 then [] else RowKeys(img, y, b.x0, b.x1, scale) + RowsKeys(img, b, y + 1, scale)
  }

  /** The keys sampled for one word: every pixel of its inclusive box, in the source's loop order. */
  function BoxKeys(img: ImageData, b: BBox, scale: nat): seq<string>
    requires scale > 0
  {
    RowsKeys(img, b, b.y0, scale)
  }

  /** `w` added up `h` times: the number of samples in `h` rows of `w` pixels. */
  function Rect(h: int, w: nat): nat
    decreases h
  {
    if h <= 0 then 0 else Rect(h - 1, w) + w
  }

  lemma {:induction false} RectIsProduct(h: nat, w: nat)
    ensures Rect(h, w) == h * w
  {
    if h > 0 {
      RectIsProduct(h - 1, w);
      assert (h - 1) * w + w == h * w;
    }
  }

  lemma {:induction false} RowsKeysLength(img: ImageData, b: BBox, y: int, scale: nat)
    requires scale > 0
    ensures |RowsKeys(img, b, y, scale)| == if b.x0 <= b.x1 then Rect(b.y1 - y + 1, b.x1 - b.x0 + 1) else 0
    decreases b.y1 - y
  {
    if y <= b.y1 {
      RowsKeysLength(img, b, y + 1, scale);
    }
  }

  lemma {:induction false} BoxSampleCount(img: ImageData, b: BBox, scale: nat)
    requires scale > 0
    ensures |BoxKeys(img, b, scale)| ==
      if b.y0 <= b.y1 && b.x0 <= b.x1 then (b.y1 - b.y0 + 1) * (b.x1 - b.x0 + 1) else 0
  {
    RowsKeysLength(img, b, b.y0, scale);
    var h, w := b.y1 - b.y0 + 1, b.x1 - b.x0 + 1;
    if b.y0 <= b.y1 && b.x0 <= b.x1 {
      assert |BoxKeys(img, b, scale)| == Rect(h, w);
      RectIsProduct(h, w);
    } else if b.x0 <= b.x1 {
      assert Rect(h, w) == 0;
    }
  }

  /** One entry of the `colorCount` dictionary. */
  datatype Bucket = Bucket(key: string, count: nat)

  /** Number of occurrences of `k` in `ks`. */
  function Occurrences(ks: seq<string>, k: string): nat {
    if ks == [] then 0 else Occurrences(ks[..|ks| - 1], k) + (if ks[|ks| - 1] == k then 1 else 0)
  }

  /** The count stored under `k`, or 0 when `k` has no entry. */
  function CountOf(t: seq<Bucket>, k: string): nat {
    if t == [] then 0 else if t[0].key == k then t[0].count else CountOf(t[1..], k)
  }

  /** The keys that have an entry. */
  function Keys(t: seq<Bucket>): set<string> {
    if t == [] then {} else {t[0].key} + Keys(t[1..])
  }

  /** No key has two entries. */
  predicate DistinctKeys(t: seq<Bucket>) {
    t == [] || (t[0].key !in Keys(t[1..]) && DistinctKeys(t[1..]))
  }

  /** `colorCount[k] = (colorCount[k] || 0) + 1`: bump an entry, or append a new one in insertion order. */
  function Bump(t: seq<Bucket>, k: string): (t': seq<Bucket>)
    ensures |t'| == if k in Keys(t) then |t| else |t| + 1
    ensures Keys(t') == Keys(t) + {k}
    ensures forall i :: 0 <= i < |t| ==> t'[i].key == t[i].key
    ensures DistinctKeys(t) ==> DistinctKeys(t')
    ensures forall j :: CountOf(t', j) == CountOf(t, j) + (if j == k then 1 else 0)
  {
    if t == [] then [Bucket(k, 1)]
    else if t[0].key == k then
      var r := [Bucket(k, t[0].count + 1)] + t[1..];
      assert r[1..] == t[1..];
      r
    else
      var r := [t[0]] + Bump(t[1..], k);
      assert r[1..] == Bump(t[1..], k);
      r
  }

  /** The `colorCount` dictionary after counting `ks` in order, entries in insertion order. */
  function Tally(ks: seq<string>): seq<Bucket> {
    if ks == [] then [] else Bump(Tally(ks[..|ks| - 1]), ks[|ks| - 1])
  }

  /**
   * The tally is a faithful histogram: one entry per distinct key, each
   * holding that key's number of occurrences.
   */
  lemma {:induction false} TallyIsHistogram(ks: seq<string>)
    ensures DistinctKeys(Tally(ks))
    ensures forall k :: k in Keys(Tally(ks)) <==> k in ks
    ensures forall k :: CountOf(Tally(ks), k) == Occurrences(ks, k)
  {
    if ks != [] {
      var init := ks[..|ks| - 1];
      TallyIsHistogram(init);
      assert ks == init + [ks[|ks| - 1]];
      forall k ensures k in ks <==> k in init || k == ks[|ks| - 1] {
        if k in ks {
          var i :| 0 <= i < |ks| && ks[i] == k;
          if i < |init| { assert init[i] == k; }
        }
      }
    }
  }

  /**
   * The earliest index below `n`, other than `skip`, whose count is maximal
   * among those indices; -1 when there is none.  This is what a stable sort
   * by descending count puts first.
   */
  function BestIndex(t: seq<Bucket>, skip: int, n: nat): (i: int)
    requires n <= |t|
    ensures -1 <= i < n
    ensures i == -1 <==> n == 0 || (n == 1 && skip == 0)
    ensures i >= 0 ==> i != skip
    ensures i >= 0 ==> forall j :: 0 <= j < n && j != skip ==> t[j].count <= t[i].count
    ensures i >= 0 ==> forall j :: 0 <= j < i && j != skip ==> t[j].count < t[i].count
  {
    if n == 0 then -1
    else
      var b := BestIndex(t, skip, n - 1);
      if n - 1 != skip && (b == -1 || t[n - 1].count > t[b].count) then n - 1 else b
  }

  /** Index of the presumed background: the first entry after a stable descending sort. */
  function Background(t: seq<Bucket>): (i: nat)
    requires |t| >= 2
    ensures i < |t|
  {
    BestIndex(t, -1, |t|)
  }

  /** Index of the presumed text colour: the second entry after a stable descending sort. */
  function Foreground(t: seq<Bucket>): (i: nat)
    requires |t| >= 2
    ensures i < |t| && i != Background(t)
  {
    BestIndex(t, Background(t), |t|)
  }

  /**
   * The background bucket has a maximal count and every earlier bucket a
   * smaller one; the text bucket has a maximal count among the others and
   * every earlier one of those a smaller one (ties go to insertion order).
   */
  lemma {:induction false} BackgroundForegroundRanking(t: seq<Bucket>)
    requires |t| >= 2
    ensures forall j :: 0 <= j < |t| ==> t[j].count <= t[Background(t)].count
    ensures forall j :: 0 <= j < Background(t) ==> t[j].count < t[Background(t)].count
    ensures t[Foreground(t)].count <= t[Background(t)].count
    ensures forall j :: 0 <= j < |t| && j != Background(t) ==> t[j].count <= t[Foreground(t)].count
    ensures forall j :: 0 <= j < Foreground(t) && j != Background(t) ==> t[j].count < t[Foreground(t)].count
  {
  }

  /**
   * `calculateContrast(fg, bg)`: the contrast of the two parsed colours, or
   * `None` for `NaN` when either has a channel `parseInt` could not read.
   * Its `catch` returning 21 is unreachable: nothing in it throws.
   */
  function CalculateContrast(fgHex: string, bgHex: string, contrast: (Rgb, Rgb) -> real): (c: Option<real>)
    ensures c.Some? <==> HexToRgb(fgHex).Some? && HexToRgb(bgHex).Some?
    ensures c.Some? ==> c.value == contrast(HexToRgb(fgHex).value, HexToRgb(bgHex).value)
  {
    match (HexToRgb(fgHex), HexToRgb(bgHex))
    case (Some(f), Some(b)) => Some(contrast(f, b))
    case _ => None
  }

  /** The tally of one word's box. */
  function WordTally(img: ImageData, w: Word, scale: nat): seq<Bucket>
    requires scale > 0
  {
    Tally(BoxKeys(img, w.bbox, scale))
  }

  /**
   * One word's step: `Failure` when its box has fewer than two buckets (the
   * source throws), otherwise the contrast of the runner-up bucket against the
   * most frequent one, `None` when that contrast is `NaN`.
   */
  function WordContrast(img: ImageData, w: Word, scale: nat, contrast: (Rgb, Rgb) -> real): Result<Option<real>, ContrastError>
    requires scale > 0
  {
    var t := WordTally(img, w, scale);
    if |t| < 2 then Failure(TooFewColours)
    else Success(CalculateContrast(t[Foreground(t)].key, t[Background(t)].key, contrast))
  }

  /** The contrast a word contributes to the minimum: kept, analysable and not `NaN`. */
  function KeptContrast(img: ImageData, w: Word, scale: nat, contrast: (Rgb, Rgb) -> real): Option<real>
    requires scale > 0
  {
    if !Kept(w) then None
    else match WordContrast(img, w, scale, contrast)
      case Failure(_) => None
      case Success(c) => c
  }

  /** A kept word whose box has fewer than two buckets: analysing it throws. */
  predicate Breaks(img: ImageData, w: Word, scale: nat)
    requires scale > 0
  {
    Kept(w) && |WordTally(img, w, scale)| < 2
  }

  /** One iteration of `words.forEach`: skip a filtered word, throw on a broken box, else lower the minimum. */
  function Step(img: ImageData, w: Word, scale: nat, contrast: (Rgb, Rgb) -> real, acc: real): Result<real, ContrastError>
    requires scale > 0
  {
    if !Kept(w) then Success(acc)
    else match WordContrast(img, w, scale, contrast)
      case Failure(e) => Failure(e)
      case Success(c) => Success(if c.Some? && c.value < acc then c.value else acc)
  }

  /** The `words.forEach` loop: the running minimum `acc` over the remaining words. */
  function MinOver(img: ImageData, ws: seq<Word>, scale: nat, contrast: (Rgb, Rgb) -> real, acc: real): Result<real, ContrastError>
    requires scale > 0
  {
    if ws == [] then Success(acc)
    else match Step(img, ws[0], scale, contrast, acc)
      case Failure(e) => Failure(e)
      case Success(a) => MinOver(img, ws[1..], scale, contrast, a)
  }

  /** `determineTextColor` after recognition: rejects on no words, else folds from 21. */
  function DetermineTextColor(img: ImageData, words: seq<Word>, scale: nat, contrast: (Rgb, Rgb) -> real): Result<real, ContrastError>
    requires scale > 0
  {
    if |words| == 0 then Failure(NoTextFound) else MinOver(img, words, scale, contrast, MaxContrast)
  }

  lemma {:induction false} StepSpec(img: ImageData, w: Word, scale: nat, contrast: (Rgb, Rgb) -> real, acc: real)
    requires scale > 0
    ensures Step(img, w, scale, contrast, acc).Failure? <==> Breaks(img, w, scale)
    ensures Step(img, w, scale, contrast, acc).Success? ==>
      Step(img, w, scale, contrast, acc).value ==
        match KeptContrast(img, w, scale, contrast)
        case Some(c) => if c < acc then c else acc
        case None => acc
  {
  }

  /** The fold rejects exactly when some kept word breaks, and otherwise returns the minimum of `acc` and the kept contrasts. */
  lemma {:induction false} MinOverSpec(img: ImageData, ws: seq<Word>, scale: nat, contrast: (Rgb, Rgb) -> real, acc: real)
    requires scale > 0
    ensures MinOver(img, ws, scale, contrast, acc).Failure? <==> exists i :: 0 <= i < |ws| && Breaks(img, ws[i], scale)
    ensures MinOver(img, ws, scale, contrast, acc).Success? ==>
      var m := MinOver(img, ws, scale, contrast, acc).value;
      && m <= acc
      && (forall i :: 0 <= i < |ws| && KeptContrast(img, ws[i], scale, contrast).Some? ==>
            m <= KeptContrast(img, ws[i], scale, contrast).value)
      && (m == acc || exists i :: 0 <= i < |ws| && KeptContrast(img, ws[i], scale, contrast) == Some(m))
  {
    MinOverFails(img, ws, scale, contrast, acc);
    MinOverBound(img, ws, scale, contrast, acc);
    MinOverAttained(img, ws, scale, contrast, acc);
  }

  lemma {:induction false} MinOverFails(img: ImageData, ws: seq<Word>, scale: nat, contrast: (Rgb, Rgb) -> real, acc: real)
    requires scale > 0
    ensures MinOver(img, ws, scale, contrast, acc).Failure? <==> exists i :: 0 <= i < |ws| && Breaks(img, ws[i], scale)
  {
    if ws != [] {
      StepSpec(img, ws[0], scale, contrast, acc);
      PreserveTail(img, ws, scale, contrast);
      var st := Step(img, ws[0], scale, contrast, acc);
      if st.Success? {
        MinOverFails(img, ws[1..], scale, contrast, st.value);
      }
    }
  }

  lemma {:induction false} MinOverBound(img: ImageData, ws: seq<Word>, scale: nat, contrast: (Rgb, Rgb) -> real, acc: real)
    requires scale > 0
    ensures MinOver(img, ws, scale, contrast, acc).Success? ==>
      var m := MinOver(img, ws, scale, contrast, acc).value;
      && m <= acc
      && (forall i :: 0 <= i < |ws| && KeptContrast(img, ws[i], scale, contrast).Some? ==>
            m <= KeptContrast(img, ws[i], scale, contrast).value)
  {
    if ws != [] {
      StepSpec(img, ws[0], scale, contrast, acc);
      var st := Step(img, ws[0], scale, contrast, acc);
      if st.Success? {
        var a := st.value;
        var m := MinOver(img, ws[1..], scale, contrast, a);
        assert MinOver(img, ws, scale, contrast, acc) == m;
        MinOverBound(img, ws[1..], scale, contrast, a);
        if m.Success? {
          assert a <= acc;
          forall i | 0 <= i < |ws| && KeptContrast(img, ws[i], scale, contrast).Some?
            ensures m.value <= KeptContrast(img, ws[i], scale, contrast).value
          {
            if i == 0 {
              assert a <= KeptContrast(img, ws[0], scale, contrast).value;
            } else {
              assert ws[i] == ws[1..][i - 1];
            }
          }
        }
      }
    }
  }

  lemma {:induction false} MinOverAttained(img: ImageData, ws: seq<Word>, scale: nat, contrast: (Rgb, Rgb) -> real, acc: real)
    requires scale > 0
    ensures MinOver(img, ws, scale, contrast, acc).Success? ==>
      var m := MinOver(img, ws, scale, contrast, acc).value;
      m == acc || exists i :: 0 <= i < |ws| && KeptContrast(img, ws[i], scale, contrast) == Some(m)
  {
    if ws != [] {
      var st := Step(img, ws[0], scale, contrast, acc);
      if st.Success? {
        var a := st.value;
        assert a == acc || KeptContrast(img, ws[0], scale, contrast) == Some(a) by {
          StepSpec(img, ws[0], scale, contrast, acc);
        }
        var m := MinOver(img, ws[1..], scale, contrast, a);
        assert MinOver(img, ws, scale, contrast, acc) == m;
        MinOverAttained(img, ws[1..], scale, contrast, a);
        if m.Success? && m.value != acc && m.value != a {
          var i :| 0 <= i < |ws[1..]| && KeptContrast(img, ws[1..][i], scale, contrast) == Some(m.value);
          assert ws[i + 1] == ws[1..][i];
        }
      }
    }
  }

  lemma {:induction false} PreserveTail(img: ImageData, ws: seq<Word>, scale: nat, contrast: (Rgb, Rgb) -> real)
    requires scale > 0
    requires ws != []
    ensures (exists i :: 0 <= i < |ws| && Breaks(img, ws[i], scale)) <==>
      (Breaks(img, ws[0], scale) || exists i :: 0 <= i < |ws[1..]| && Breaks(img, ws[1..][i], scale))
  {
    if exists i :: 0 <= i < |ws| && Breaks(img, ws[i], scale) {
      var i :| 0 <= i < |ws| && Breaks(img, ws[i], scale);
      if i > 0 { assert ws[1..][i - 1] == ws[i]; }
    }
  }

  /**
   * The properties of `determineTextColor`: it rejects exactly when there
   * are no words or a kept word's box holds fewer than two buckets;
   * otherwise its result is at most 21, at most every kept word's contrast,
   * and either 21 or one of those contrasts.
   */
  lemma {:induction false} DetermineTextColorSpec(img: ImageData, words: seq<Word>, scale: nat, contrast: (Rgb, Rgb) -> real)
    requires scale > 0
    ensures DetermineTextColor(img, words, scale, contrast).Failure? <==>
      |words| == 0 || exists i :: 0 <= i < |words| && Breaks(img, words[i], scale)
    ensures DetermineTextColor(img, words, scale, contrast).Success? ==>
      var m := DetermineTextColor(img, words, scale, contrast).value;
      && m <= MaxContrast
      && (forall i :: 0 <= i < |words| && KeptContrast(img, words[i], scale, contrast).Some? ==>
            m <= KeptContrast(img, words[i], scale, contrast).value)
      && (m == MaxContrast || exists i :: 0 <= i < |words| && KeptContrast(img, words[i], scale, contrast) == Some(m))
  {
    MinOverSpec(img, words, scale, contrast, MaxContrast);
  }

  function KeptWords(ws: seq<Word>): (r: seq<Word>)
    ensures forall i :: 0 <= i < |r| ==> Kept(r[i])
  {
    if ws == [] then [] else (if Kept(ws[0]) then [ws[0]] else []) + KeptWords(ws[1..])
  }

  /** The rest of the fold once the first word's step is known. */
  function MinOverAfter(img: ImageData, st: Result<real, ContrastError>, rest: seq<Word>, scale: nat, contrast: (Rgb, Rgb) -> real): Result<real, ContrastError>
    requires scale > 0
  {
    match st
    case Failure(e) => Failure(e)
    case Success(a) => MinOver(img, rest, scale, contrast, a)
  }

  /** Words the filter drops have no influence: folding over the kept words alone gives the same outcome. */
  lemma {:induction false} FilteredWordsIgnored(img: ImageData, ws: seq<Word>, scale: nat, contrast: (Rgb, Rgb) -> real, acc: real)
    requires scale > 0
    ensures MinOver(img, ws, scale, contrast, acc) == MinOver(img, KeptWords(ws), scale, contrast, acc)
  {
    if ws != [] {
      var st := Step(img, ws[0], scale, contrast, acc);
      if Kept(ws[0]) {
        var kw := KeptWords(ws);
        assert kw == [ws[0]] + KeptWords(ws[1..]);
        assert kw[0] == ws[0] && kw[1..] == KeptWords(ws[1..]);
        assert MinOver(img, ws, scale, contrast, acc) == MinOverAfter(img, st, ws[1..], scale, contrast);
        assert MinOver(img, kw, scale, contrast, acc) == MinOverAfter(img, st, kw[1..], scale, contrast);
        if st.Success? {
          FilteredWordsIgnored(img, ws[1..], scale, contrast, st.value);
        }
      } else {
        assert st == Success(acc);
        assert KeptWords(ws) == [] + KeptWords(ws[1..]) == KeptWords(ws[1..]);
        assert MinOver(img, ws, scale, contrast, acc) == MinOverAfter(img, st, ws[1..], scale, contrast);
        FilteredWordsIgnored(img, ws[1..], scale, contrast, acc);
      }
    }
  }

  /**
   * The caller's policy (`getTextContrast`): a rejection becomes 21, so the
   * score is always 21 or some kept word's contrast, and when no kept word
   * broke the analysis it is the least of 21 and those contrasts.
   */
  function TextContrastScore(img: ImageData, words: seq<Word>, scale: nat, contrast: (Rgb, Rgb) -> real): (s: real)
    requires scale > 0
    ensures s <= MaxContrast
    ensures (|words| == 0 || exists i :: 0 <= i < |words| && Breaks(img, words[i], scale)) ==> s == MaxContrast
    ensures (forall i :: 0 <= i < |words| ==> !Breaks(img, words[i], scale)) ==>
      forall i :: 0 <= i < |words| && KeptContrast(img, words[i], scale, contrast).Some? ==>
        s <= KeptContrast(img, words[i], scale, contrast).value
    ensures s == MaxContrast || exists i :: 0 <= i < |words| && KeptContrast(img, words[i], scale, contrast) == Some(s)
  {
    DetermineTextColorSpec(img, words, scale, contrast);
    match DetermineTextColor(img, words, scale, contrast)
    case Failure(_) => MaxContrast
    case Success(v) => v
  }

  /**
   * Every key the analysis compares comes from a read pixel or is "#AN": keys
   * of read pixels parse back to their quantized channels, so a word's
   * contrast is `NaN` only when its top two buckets include an out-of-image key.
   */
  lemma {:induction false} KeysParseUnlessOutside(img: ImageData, x: int, y: int, scale: nat)
    requires scale > 0
    ensures PixelAt(img, x, y).Some? ==> HexToRgb(BucketKey(PixelAt(img, x, y), scale)).Some?
    ensures PixelAt(img, x, y).None? ==> BucketKey(PixelAt(img, x, y), scale) == "#AN"
  {
    match PixelAt(img, x, y)
    case Some(p) => BucketKeyRoundTrip(p, scale);
    case None => MissingPixelKey(scale);
  }
}
