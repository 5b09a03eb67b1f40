/**
 * The output stage of one transmit path: the quantized complex samples are
 * segmented into the four DAC code sequences the path holds as fields.
 */
module TxPath {
  import opened Segmenter

  /** One quantized complex sample: the integer codes of its real and imaginary parts. */
  datatype Code = Code(re: int, im: int)

  function Reals(norm: seq<Code>): seq<int>
  {
    seq(|norm|, i requires 0 <= i < |norm| => norm[i].re)
  }

  function Imags(norm: seq<Code>): seq<int>
  {
    seq(|norm|, i requires 0 <= i < |norm| => norm[i].im)
  }

  /**
   * High parts of a component sequence, before segmentation: one per code,
   * each the floor quotient of that code by `2^bin`.
   */
  function Highs(codes: seq<int>, bin: nat): (r: seq<int>)
    ensures |r| == |codes|
    ensures forall i :: 0 <= i < |codes| ==> r[i] * Pow2(bin) <= codes[i] < r[i] * Pow2(bin) + Pow2(bin)
  {
    seq(|codes|, i requires 0 <= i < |codes| => HighPart(codes[i], bin))
  }

  class TxPath {
    const widths: Widths
    /** Thermometer and binary-weighted outputs of the real and imaginary paths. */
    var zRealT: seq<string>
    var zRealB: seq<int>
    var zImagT: seq<string>
    var zImagB: seq<int>

    constructor (w: Widths)
      requires ValidWidths(w)
      ensures widths == w
      ensures zRealT == [] && zRealB == [] && zImagT == [] && zImagB == []
    {
      widths := w;
      zRealT, zRealB, zImagT, zImagB := [], [], [], [];
    }

    /**
     * Segments the quantized samples `norm`: binary fields first, then the
     * thermometer strings of the real path, then those of the imaginary path.
     * Each output sequence depends only on its own component's codes.
     */
    method SegmentOutput(norm: seq<Code>)
      requires ValidWidths(widths)
      requires AllInRange(widths, Reals(norm)) && AllInRange(widths, Imags(norm))
      modifies this`zRealT, this`zRealB, this`zImagT, this`zImagB
      ensures zRealB == BinaryCodes(widths, Reals(norm))
      ensures zImagB == BinaryCodes(widths, Imags(norm))
      ensures zRealT == ThermCodes(widths, Reals(norm))
      ensures zImagT == ThermCodes(widths, Imags(norm))
    {
      var width := ThermLength(widths);
      var realT := Highs(Reals(norm), widths.binBits);
      var imagT := Highs(Imags(norm), widths.binBits);
      zRealB := BinaryCodes(widths, Reals(norm));
      zImagB := BinaryCodes(widths, Imags(norm));
      forall i | 0 <= i < |norm|
        ensures 0 <= realT[i] <= width && 0 <= imagT[i] <= width
      {
        HighBound(widths, Reals(norm)[i]);
        HighBound(widths, Imags(norm)[i]);
      }
      // Both segment arrays have `|norm|` rows: the real and imaginary codes come in pairs.
      zRealT := ThermometerRows(realT, width);
      zImagT := ThermometerRows(imagT, width);
      assert zRealT == ThermCodes(widths, Reals(norm));
      assert zImagT == ThermCodes(widths, Imags(norm));
    }
  }
}
