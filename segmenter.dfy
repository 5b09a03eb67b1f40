/**
 * Binary/thermometer segmentation of quantized DAC codes.
 *
 * A segmented current-steering DAC takes each `txBits`-wide code `v` as two
 * fields: the low `binBits` bits drive binary-weighted cells, and the high part
 * `v / 2^binBits` drives `2^(txBits - binBits) - 1` identical unit cells
 * through a thermometer code whose LAST `high` digits are 1.
 */
module Segmenter {

  /** Bit widths of the DAC: the whole code (`Txbits`) and its binary field (`bin`). */
  datatype Widths = Widths(txBits: nat, binBits: nat)

  predicate ValidWidths(w: Widths) { 0 < w.binBits < w.txBits }

  /** `Txbits = 9`, `bin = 4`: the defaults of the transmit path. */
  const DefaultWidths: Widths := Widths(9, 4)

  function Pow2(n: nat): (r: nat)
    ensures r >= 1
  {
    if n == 0 then 1 else 2 * Pow2(n - 1)
  }

  lemma {:induction false} Pow2Add(a: nat, b: nat)
    ensures Pow2(a + b) == Pow2(a) * Pow2(b)
  {
    if a > 0 {
      Pow2Add(a - 1, b);
      assert Pow2(a + b) == 2 * Pow2(a - 1 + b);
      assert 2 * (Pow2(a - 1) * Pow2(b)) == (2 * Pow2(a - 1)) * Pow2(b);
    }
  }

  /** A quantized component code lies in `[0, 2^Txbits - 1]`. */
  predicate InRange(w: Widths, v: int) { 0 <= v <= Pow2(w.txBits) - 1 }

  /**
   * Number of thermometer digits: `2^(Txbits - bin) - 1`. There is at least
   * one, and the `L + 1` thermometer levels of `2^bin` codes each cover the
   * `2^Txbits` codes exactly.
   */
  function ThermLength(w: Widths): (r: nat)
    requires ValidWidths(w)
    ensures r >= 1
    ensures (r + 1) * Pow2(w.binBits) == Pow2(w.txBits)
  {
    Pow2Add(w.txBits - w.binBits, w.binBits);
    assert w.txBits - w.binBits + w.binBits == w.txBits;
    Pow2(w.txBits - w.binBits) - 1
  }

  /**
   * Binary field: the remainder of `v` modulo `2^bin`. The remainder of a
   * positive divisor is never negative, both in Dafny and in numpy.
   */
  function BinaryPart(v: int, bin: nat): (r: int)
    ensures 0 <= r <= Pow2(bin) - 1
  {
    v % Pow2(bin)
  }

  /** Thermometer value: `floor(v / 2^bin)`; for a positive divisor Dafny's `/` is the floor. */
  function HighPart(v: int, bin: nat): (r: int)
    ensures r * Pow2(bin) <= v < r * Pow2(bin) + Pow2(bin)
  {
    v / Pow2(bin)
  }

  /** Integer arithmetic: `0 <= v < p * m` gives `v / p < m`. */
  lemma DivBelow(v: int, p: int, m: int)
    requires p > 0 && 0 <= v < p * m
    ensures 0 <= v / p < m
  {
  }

  /** Integer arithmetic: `d >= 1` and `p > 0` give `d * p >= p`. */
  lemma MulAtLeast(d: int, p: int)
    requires d >= 1 && p > 0
    ensures d * p >= p
  {
  }

  /** Integer arithmetic: division by a positive divisor is monotone. */
  lemma DivMonotone(v1: int, v2: int, p: int)
    requires p > 0 && v1 <= v2
    ensures v1 / p <= v2 / p
  {
    var q1, q2 := v1 / p, v2 / p;
    assert v1 == q1 * p + v1 % p && v2 == q2 * p + v2 % p;
    assert (q1 - q2) * p < p;
    if q1 - q2 >= 1 {
      MulAtLeast(q1 - q2, p);
    }
  }

  /** The high part of an in-range code never exceeds the thermometer length. */
  lemma HighBound(w: Widths, v: int)
    requires ValidWidths(w) && InRange(w, v)
    ensures 0 <= HighPart(v, w.binBits) <= ThermLength(w)
  {
    Pow2Add(w.binBits, w.txBits - w.binBits);
    assert w.binBits + (w.txBits - w.binBits) == w.txBits;
    DivBelow(v, Pow2(w.binBits), Pow2(w.txBits - w.binBits));
  }

  /** A larger code never has a smaller high part. */
  lemma HighMonotone(v1: int, v2: int, bin: nat)
    requires v1 <= v2
    ensures HighPart(v1, bin) <= HighPart(v2, bin)
  {
    DivMonotone(v1, v2, Pow2(bin));
  }

  /** `n` copies of the digit `d`. */
  function Repeat(d: int, n: nat): (r: seq<int>)
    ensures |r| == n
  {
    if n == 0 then [] else [d] + Repeat(d, n - 1)
  }

  lemma {:induction false} RepeatAt(d: int, n: nat, k: nat)
    requires k < n
    ensures Repeat(d, n)[k] == d
  {
    if k > 0 {
      RepeatAt(d, n - 1, k - 1);
    }
  }

  lemma RepeatAll(d: int, n: nat)
    ensures forall k :: 0 <= k < n ==> Repeat(d, n)[k] == d
  {
    forall k | 0 <= k < n
      ensures Repeat(d, n)[k] == d
    {
      RepeatAt(d, n, k);
    }
  }

  /** Number of entries equal to 1. */
  function CountOnes(s: seq<int>): nat
  {
    if s == [] then 0 else (if s[0] == 1 then 1 else 0) + CountOnes(s[1..])
  }

  lemma {:induction false} CountOnesConcat(a: seq<int>, b: seq<int>)
    ensures CountOnes(a + b) == CountOnes(a) + CountOnes(b)
  {
    if a != [] {
      assert (a + b)[1..] == a[1..] + b;
      CountOnesConcat(a[1..], b);
    } else {
      assert a + b == b;
    }
  }

  lemma {:induction false} CountOnesRepeat(d: int, n: nat)
    ensures CountOnes(Repeat(d, n)) == if d == 1 then n else 0
  {
    if n > 0 {
      assert Repeat(d, n)[1..] == Repeat(d, n - 1);
      CountOnesRepeat(d, n - 1);
    }
  }

  /**
   * The thermometer code of `high` on `width` digits: zeros, then `high`
   * ones at the end of the row.
   */
  function Therm(high: nat, width: nat): (r: seq<int>)
    requires high <= width
    ensures |r| == width
  {
    Repeat(0, width - high) + Repeat(1, high)
  }

  /** Digit `j` of a thermometer code is 1 exactly when `j >= width - high`, else 0. */
  lemma ThermAt(high: nat, width: nat, j: nat)
    requires high <= width && j < width
    ensures Therm(high, width)[j] == if width - high <= j then 1 else 0
  {
    if j < width - high {
      RepeatAt(0, width - high, j);
    } else {
      RepeatAt(1, high, j - (width - high));
    }
  }

  /** A thermometer code holds exactly `high` ones. */
  lemma ThermCountOnes(high: nat, width: nat)
    requires high <= width
    ensures CountOnes(Therm(high, width)) == high
  {
    CountOnesConcat(Repeat(0, width - high), Repeat(1, high));
    CountOnesRepeat(0, width - high);
    CountOnesRepeat(1, high);
  }

  /** The two extremes: `high == 0` gives all zeros, `high == width` all ones. */
  lemma ThermExtremes(width: nat)
    ensures forall j :: 0 <= j < width ==> Therm(0, width)[j] == 0
    ensures forall j :: 0 <= j < width ==> Therm(width, width)[j] == 1
  {
    forall j | 0 <= j < width
      ensures Therm(0, width)[j] == 0 && Therm(width, width)[j] == 1
    {
      ThermAt(0, width, j);
      ThermAt(width, width, j);
    }
  }

  /**
   * Start of the Python slice `row[-k:]` on a row of `width` entries, `k >= 0`.
   * Since `-0 == 0`, the slice `row[-0:]` is the WHOLE row.
   */
  function TailSliceStart(width: nat, k: nat): (start: nat)
    ensures start <= width
    ensures 0 < k <= width ==> width - start == k
    ensures k == 0 ==> start == 0
  {
    if k == 0 || k >= width then 0 else width - k
  }

  /** Number of entries of the slice `row[-k:]` on a row of `width` entries. */
  function TailSliceLength(width: nat, k: nat): (n: nat)
    ensures n <= width
    ensures 0 < k <= width ==> n == k
    ensures k == 0 ==> n == width
  {
    width - TailSliceStart(width, k)
  }

  /**
   * Whether numpy accepts assigning the `(1, k)` block `np.ones((1, k))` to
   * the slice `row[-k:]`: the value must have the slice's length, or be a
   * single one that numpy broadcasts. Any other assignment raises a
   * broadcast error.
   */
  predicate OnesFitSlice(width: nat, k: nat)
  {
    k == TailSliceLength(width, k) || k == 1
  }

  /**
   * The assignment is accepted exactly for `0 < k <= width`, plus the two
   * degenerate cases of an empty row (`k == 0`) and a single one (`k == 1`).
   */
  lemma OnesFitSliceIff(width: nat, k: nat)
    ensures OnesFitSlice(width, k) <==> (0 < k <= width) || (k == 0 && width == 0) || k == 1
  {
    if k > width {
      assert TailSliceStart(width, k) == 0;
    }
  }

  /**
   * Without the `k > 0` guard, `k == 0` would assign a value of length 0 to
   * the slice `row[-0:]`, which is the whole row: on a non-empty row numpy
   * raises a broadcast error. The guard prevents that error.
   */
  lemma UnguardedZeroRaises(width: nat)
    ensures TailSliceStart(width, 0) == 0 && TailSliceLength(width, 0) == width
    ensures OnesFitSlice(width, 0) <==> width == 0
  {
  }

  /**
   * `row` with the slice `row[-k:]` overwritten by ones, for the `k` that
   * numpy accepts there: the first `|row| - k` entries are kept and the last
   * `k` become ones.
   */
  function FillTail(row: seq<int>, k: nat): (r: seq<int>)
    requires 0 < k <= |row|
    ensures |r| == |row|
    ensures r == row[..|row| - k] + Repeat(1, k)
  {
    var start := TailSliceStart(|row|, k);
    RepeatAll(1, |row| - start);
    var r := seq(|row|, j requires 0 <= j < |row| => if start <= j then 1 else row[j]);
    assert r == row[..start] + Repeat(1, |row| - start);
    r
  }

  /**
   * One row of the segment array: zeros, then the tail slice `row[-k:]`
   * filled only when `k > 0`. A digit is set exactly when the guard holds and
   * the digit lies in the slice.
   */
  function SegmentRow(k: nat, width: nat): (r: seq<int>)
    requires k <= width
    ensures |r| == width && IsBinaryRow(r)
    ensures forall j :: 0 <= j < width ==> (r[j] == 1 <==> 0 < k && TailSliceStart(width, k) <= j)
  {
    RepeatAll(0, width);
    RepeatAll(1, k);
    if k > 0 then FillTail(Repeat(0, width), k) else Repeat(0, width)
  }

  /** The guarded row is the thermometer code of `k`, for every `0 <= k <= width`. */
  lemma SegmentRowIsTherm(k: nat, width: nat)
    requires k <= width
    ensures SegmentRow(k, width) == Therm(k, width)
  {
    var zeros := Repeat(0, width);
    forall j | 0 <= j < width
      ensures SegmentRow(k, width)[j] == Therm(k, width)[j]
    {
      ThermAt(k, width, j);
      RepeatAt(0, width, j);
      if k > 0 {
        assert |zeros| == width;
        assert TailSliceStart(|zeros|, k) == width - k;
        assert FillTail(zeros, k)[j] == if width - k <= j then 1 else zeros[j];
      }
    }
  }

  predicate IsBinaryRow(row: seq<int>)
  {
    forall j :: 0 <= j < |row| ==> row[j] == 0 || row[j] == 1
  }

  /** The character `str` gives a digit 0 or 1. */
  function DigitChar(d: int): (c: char)
    requires d == 0 || d == 1
    ensures c == '0' || c == '1'
    ensures (c == '1') == (d == 1)
  {
    if d == 1 then '1' else '0'
  }

  /** A row of digits concatenated into one string, in row order. */
  function DigitString(row: seq<int>): (s: string)
    requires IsBinaryRow(row)
    ensures |s| == |row|
    ensures forall j :: 0 <= j < |row| ==> s[j] == DigitChar(row[j])
  {
    if row == [] then "" else [DigitChar(row[0])] + DigitString(row[1..])
  }

  /** Number of '1' characters in a digit string. */
  function OnesIn(s: string): nat
  {
    if s == "" then 0 else (if s[0] == '1' then 1 else 0) + OnesIn(s[1..])
  }

  lemma {:induction false} OnesInDigitString(row: seq<int>)
    requires IsBinaryRow(row)
    ensures OnesIn(DigitString(row)) == CountOnes(row)
  {
    if row != [] {
      assert DigitString(row)[1..] == DigitString(row[1..]);
      OnesInDigitString(row[1..]);
    }
  }

  lemma ThermIsBinary(high: nat, width: nat)
    requires high <= width
    ensures IsBinaryRow(Therm(high, width))
  {
    forall j | 0 <= j < width
      ensures Therm(high, width)[j] == 0 || Therm(high, width)[j] == 1
    {
      ThermAt(high, width, j);
    }
  }

  /** The thermometer code of `high` as a string of '0'/'1' characters. */
  function ThermString(high: nat, width: nat): (s: string)
    requires high <= width
    ensures |s| == width
  {
    ThermIsBinary(high, width);
    DigitString(Therm(high, width))
  }

  /** Thermometer string of one in-range code. */
  function ThermCode(w: Widths, v: int): (s: string)
    requires ValidWidths(w) && InRange(w, v)
    ensures |s| == ThermLength(w)
  {
    HighBound(w, v);
    ThermString(HighPart(v, w.binBits), ThermLength(w))
  }

  /** Digit `j` of the thermometer string of `v` is '1' exactly when `j >= L - floor(v / 2^bin)`. */
  lemma ThermCodeAt(w: Widths, v: int, j: nat)
    requires ValidWidths(w) && InRange(w, v) && j < ThermLength(w)
    ensures ThermCode(w, v)[j] == (if ThermLength(w) - HighPart(v, w.binBits) <= j then '1' else '0')
  {
    HighBound(w, v);
    ThermAt(HighPart(v, w.binBits), ThermLength(w), j);
  }

  /** The value a segmented DAC sees: lit unit cells times `2^bin`, plus the binary field. */
  function Reconstruct(w: Widths, therm: string, binary: int): int
  {
    OnesIn(therm) * Pow2(w.binBits) + binary
  }

  /** Round trip: the two fields of an in-range code give the code back. */
  lemma SegmentRoundTrip(w: Widths, v: int)
    requires ValidWidths(w) && InRange(w, v)
    ensures Reconstruct(w, ThermCode(w, v), BinaryPart(v, w.binBits)) == v
  {
    var high := HighPart(v, w.binBits);
    HighBound(w, v);
    ThermIsBinary(high, ThermLength(w));
    OnesInDigitString(Therm(high, ThermLength(w)));
    ThermCountOnes(high, ThermLength(w));
  }

  /** Monotonicity: every unit cell lit for `v1` is also lit for any `v2 >= v1`. */
  lemma ThermMonotone(w: Widths, v1: int, v2: int)
    requires ValidWidths(w) && InRange(w, v1) && InRange(w, v2) && v1 <= v2
    ensures forall j :: 0 <= j < ThermLength(w) && ThermCode(w, v1)[j] == '1' ==> ThermCode(w, v2)[j] == '1'
  {
    HighMonotone(v1, v2, w.binBits);
    forall j | 0 <= j < ThermLength(w) && ThermCode(w, v1)[j] == '1'
      ensures ThermCode(w, v2)[j] == '1'
    {
      ThermCodeAt(w, v1, j);
      ThermCodeAt(w, v2, j);
    }
  }

  /** Binary codes of a whole component sequence, one per sample. */
  function BinaryCodes(w: Widths, codes: seq<int>): (r: seq<int>)
    ensures |r| == |codes|
    ensures forall i :: 0 <= i < |codes| ==> 0 <= r[i] <= Pow2(w.binBits) - 1
  {
    seq(|codes|, i requires 0 <= i < |codes| => BinaryPart(codes[i], w.binBits))
  }

  predicate AllInRange(w: Widths, codes: seq<int>)
  {
    forall i :: 0 <= i < |codes| ==> InRange(w, codes[i])
  }

  /** Thermometer strings of a whole component sequence, one per sample. */
  function ThermCodes(w: Widths, codes: seq<int>): (r: seq<string>)
    requires ValidWidths(w) && AllInRange(w, codes)
    ensures |r| == |codes|
    ensures forall i :: 0 <= i < |codes| ==> |r[i]| == ThermLength(w)
  {
    seq(|codes|, i requires 0 <= i < |codes| => ThermCode(w, codes[i]))
  }

  /** Sample by sample, the two output sequences decode back to the input codes. */
  lemma SegmentCodesRoundTrip(w: Widths, codes: seq<int>)
    requires ValidWidths(w) && AllInRange(w, codes)
    ensures forall i :: 0 <= i < |codes| ==>
      Reconstruct(w, ThermCodes(w, codes)[i], BinaryCodes(w, codes)[i]) == codes[i]
  {
    forall i | 0 <= i < |codes|
      ensures Reconstruct(w, ThermCodes(w, codes)[i], BinaryCodes(w, codes)[i]) == codes[i]
    {
      SegmentRoundTrip(w, codes[i]);
    }
  }

  /** Mid-scale example: code 200 has high part 12, binary 8, ones at digits 19..30 of 31. */
  lemma ExampleMidScale()
    ensures ThermLength(DefaultWidths) == 31
    ensures HighPart(200, 4) == 12 && BinaryPart(200, 4) == 8
    ensures forall j :: 0 <= j < 31 ==> (ThermCode(DefaultWidths, 200)[j] == '1' <==> 19 <= j)
  {
    assert Pow2(4) == 16 && Pow2(5) == 32 && Pow2(9) == 512;
    forall j | 0 <= j < 31
      ensures ThermCode(DefaultWidths, 200)[j] == '1' <==> 19 <= j
    {
      ThermCodeAt(DefaultWidths, 200, j);
    }
  }

  /** Boundary examples: code 0 lights nothing, code 511 lights all 31 cells with binary 15. */
  lemma ExampleBoundaries()
    ensures BinaryPart(0, 4) == 0 && BinaryPart(511, 4) == 15
    ensures forall j :: 0 <= j < 31 ==> ThermCode(DefaultWidths, 0)[j] == '0'
    ensures forall j :: 0 <= j < 31 ==> ThermCode(DefaultWidths, 511)[j] == '1'
  {
    assert Pow2(4) == 16 && Pow2(5) == 32 && Pow2(9) == 512;
    assert HighPart(511, 4) == 31 && HighPart(0, 4) == 0;
    forall j | 0 <= j < 31
      ensures ThermCode(DefaultWidths, 0)[j] == '0' && ThermCode(DefaultWidths, 511)[j] == '1'
    {
      ThermCodeAt(DefaultWidths, 0, j);
      ThermCodeAt(DefaultWidths, 511, j);
    }
  }

  /**
   * Thermometer strings of a sequence of high parts, computed as the transmit
   * path does: allocate a zeroed `|highs|`-by-`width` segment array, write
   * ones into the tail slice of each row whose high part is positive, then
   * concatenate each row's digits into a string.
   */
  method ThermometerRows(highs: seq<int>, width: nat) returns (rows: seq<string>)
    requires forall i :: 0 <= i < |highs| ==> 0 <= highs[i] <= width
    ensures |rows| == |highs|
    ensures forall i :: 0 <= i < |highs| ==> rows[i] == ThermString(highs[i], width)
  {
    var n := |highs|;
    var segment := new int[n, width]((i, j) => 0);
    for i := 0 to n
      invariant forall r, c :: 0 <= r < n && 0 <= c < width ==>
        segment[r, c] == (if r < i then SegmentRow(highs[r], width)[c] else 0)
    {
      if highs[i] > 0 {
        var start := TailSliceStart(width, highs[i]);
        for c := start to width
          invariant forall r, c' :: 0 <= r < n && 0 <= c' < width ==>
            segment[r, c'] == (if r < i then SegmentRow(highs[r], width)[c']
                               else if r == i && start <= c' < c then 1 else 0)
        {
          segment[i, c] := 1;
        }
      }
    }
    rows := [];
    for i := 0 to n
      invariant forall r, c :: 0 <= r < n && 0 <= c < width ==>
        segment[r, c] == SegmentRow(highs[r], width)[c]
      invariant |rows| == i
      invariant forall r :: 0 <= r < i ==> rows[r] == ThermString(highs[r], width)
    {
      var digits := "";
      for c := 0 to width
        invariant |digits| == c
        invariant forall c' :: 0 <= c' < c ==> digits[c'] == DigitChar(segment[i, c'])
      {
        digits := digits + [DigitChar(segment[i, c])];
      }
      SegmentRowIsTherm(highs[i], width);
      ThermIsBinary(highs[i], width);
      assert digits == ThermString(highs[i], width);
      rows := rows + [digits];
    }
  }
}
