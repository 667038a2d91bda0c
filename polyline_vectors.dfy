/** Concrete codes: the encoder's published vectors at precision 5 and the
    two inputs that show where the decoder departs from the format. */
module PolyLineVectors {
  import opened Bits
  import opened PolyLineFormat
  import opened PolyLineCorrected

  const Factor5: int := 100_000

  /** (38.5, -120.2) at precision 5. */
  const Start: Point := Point(3_850_000, -12_020_000)

  /** (38.5, -120.2), (40.7, -120.95), (43.252, -126.453) at precision 5. */
  const Line: seq<Point> := [Start, Point(4_070_000, -12_095_000), Point(4_325_200, -12_645_300)]

  const StartCode: string := "_p~iF~ps|U"
  const LineCodeText: string := "_p~iF~ps|U_ulLnnqC_mqNvxq`@"

  // The code of each delta of the published line, and of the two values
  // the decoder reads when it starts a pass one character late.

  lemma CodeLat0()
    ensures Emit(ZigZag(3_850_000)) == "_p~iF"
  {
    assert ZigZag(3_850_000) == 7_700_000;
    assert Emit(7) == "F";
    assert Emit(234) == "i" + Emit(7) == "iF";
    assert Emit(7_519) == "~" + Emit(234) == "~iF";
    assert Emit(240_625) == "p" + Emit(7_519) == "p~iF";
    assert Emit(7_700_000) == "_" + Emit(240_625) == "_p~iF";
  }

  lemma CodeLon0()
    ensures Emit(ZigZag(-12_020_000)) == "~ps|U"
  {
    assert ZigZag(-12_020_000) == 24_039_999;
    assert Emit(22) == "U";
    assert Emit(733) == "|" + Emit(22) == "|U";
    assert Emit(23_476) == "s" + Emit(733) == "s|U";
    assert Emit(751_249) == "p" + Emit(23_476) == "ps|U";
    assert Emit(24_039_999) == "~" + Emit(751_249) == "~ps|U";
  }

  lemma CodeLat1()
    ensures Emit(ZigZag(220_000)) == "_ulL"
  {
    assert ZigZag(220_000) == 440_000;
    assert Emit(13) == "L";
    assert Emit(429) == "l" + Emit(13) == "lL";
    assert Emit(13_750) == "u" + Emit(429) == "ulL";
    assert Emit(440_000) == "_" + Emit(13_750) == "_ulL";
  }

  lemma CodeLon1()
    ensures Emit(ZigZag(-75_000)) == "nnqC"
  {
    assert ZigZag(-75_000) == 149_999;
    assert Emit(4) == "C";
    assert Emit(146) == "q" + Emit(4) == "qC";
    assert Emit(4_687) == "n" + Emit(146) == "nqC";
    assert Emit(149_999) == "n" + Emit(4_687) == "nnqC";
  }

  lemma CodeLat2()
    ensures Emit(ZigZag(255_200)) == "_mqN"
  {
    assert ZigZag(255_200) == 510_400;
    assert Emit(15) == "N";
    assert Emit(498) == "q" + Emit(15) == "qN";
    assert Emit(15_950) == "m" + Emit(498) == "mqN";
    assert Emit(510_400) == "_" + Emit(15_950) == "_mqN";
  }

  lemma CodeLon2()
    ensures Emit(ZigZag(-550_300)) == "vxq`@"
  {
    assert ZigZag(-550_300) == 1_100_599;
    assert Emit(1) == "@";
    assert Emit(33) == "`" + Emit(1) == "`@";
    assert Emit(1_074) == "q" + Emit(33) == "q`@";
    assert Emit(34_393) == "x" + Emit(1_074) == "xq`@";
    assert Emit(1_100_599) == "v" + Emit(34_393) == "vxq`@";
  }

  lemma CodeSkew1()
    ensures Emit(ZigZag(6_875)) == "ulL"
  {
    assert ZigZag(6_875) == 13_750;
    assert Emit(13) == "L";
    assert Emit(429) == "l" + Emit(13) == "lL";
    assert Emit(13_750) == "u" + Emit(429) == "ulL";
  }

  lemma CodeSkew2()
    ensures Emit(ZigZag(7_975)) == "mqN"
  {
    assert ZigZag(7_975) == 15_950;
    assert Emit(15) == "N";
    assert Emit(498) == "q" + Emit(15) == "qN";
    assert Emit(15_950) == "m" + Emit(498) == "mqN";
  }


  /** Encoding the single position gives the published code. */
  lemma EncodeStartVector()
    ensures LineCode([Start], Factor5) == Success(StartCode)
  {
    hide LineCode, Emit, ZigZag;
    assert ValidPoint(Start, Factor5);
    LineCodeOnePoint(Start, Factor5);
    CodeLat0();
    CodeLon0();
    assert "_p~iF" + "~ps|U" == StartCode;
  }

  /** Encoding the published line gives the published code: each position
      is coded against the one before it. */
  lemma EncodeLineVector()
    ensures LineCode(Line, Factor5) == Success(LineCodeText)
  {
    hide LineCode, Codes, Emit, ZigZag;
    EncodeStartVector();
    var p1, p2 := Line[1], Line[2];
    assert ValidPoint(p1, Factor5) && ValidPoint(p2, Factor5);
    assert [Start] + [p1] == Line[..2];
    LineCodeAppend([Start], p1, Factor5);
    CodeLat1();
    CodeLon1();
    assert StartCode + "_ulL" + "nnqC" == "_p~iF~ps|U_ulLnnqC";
    assert LineCode(Line[..2], Factor5) == Success("_p~iF~ps|U_ulLnnqC");
    assert AllValid(Line[..2], 2, Factor5);
    LineCodeAppend(Line[..2], p2, Factor5);
    CodeLat2();
    CodeLon2();
    assert Line[..2] + [p2] == Line;
    assert "_p~iF~ps|U_ulLnnqC" + "_mqN" + "vxq`@" == LineCodeText;
  }

  /** Decoding the single position's code: the negative longitude comes
      back as 12019999 rather than -12020000. */
  lemma DecodeStartVector()
    ensures PointsOf(StartCode) == [Decoded(Num(3_850_000), Num(12_019_999))]
  {
    hide PointsOf, Emit, ZigZag;
    DecodeOnePoint(3_850_000, -12_020_000);
    CodeLat0();
    CodeLon0();
    assert "_p~iF" + "~ps|U" == StartCode;
  }

  /** The value read at `i` of the published line's code, where it holds the
      code of delta `d`. */
  lemma ReadLineAt(i: nat, d: int, n: nat)
    requires DeltaFits(d) && n == |Emit(ZigZag(d))|
    requires i + n <= |LineCodeText| && LineCodeText[i..i + n] == Emit(ZigZag(d))
    ensures ValueAt(LineCodeText, i) == Scan(Num(DecodedDelta(d)), i + n)
  {
    DecompressOnCompress(LineCodeText, i, d);
  }

  /** Where the decoder, as written, finds each code in the published
      line's code. */
  lemma LineCodeSlices()
    ensures |LineCodeText| == 27
    ensures LineCodeText[0..5] == "_p~iF" && LineCodeText[5..10] == "~ps|U"
    ensures LineCodeText[11..14] == "ulL" && LineCodeText[14..18] == "nnqC"
    ensures LineCodeText[19..22] == "mqN" && LineCodeText[22..27] == "vxq`@"
  {
    var s := LineCodeText;
    assert s == "_p~iF" + "~ps|U" + "_" + "ulL" + "nnqC" + "_" + "mqN" + "vxq`@";
    assert s[0..5] == "_p~iF";
    assert s[5..10] == "~ps|U";
    assert s[11..14] == "ulL";
    assert s[14..18] == "nnqC";
    assert s[19..22] == "mqN";
    assert s[22..27] == "vxq`@";
  }

  /** Decoding the published line's code as written: every pass after the
      first starts one character late, and negative deltas lose their sign. */
  lemma DecodeLineVector()
    ensures PointsOf(LineCodeText)
         == [Decoded(Num(3_850_000), Num(12_019_999)),
             Decoded(Num(3_856_875), Num(12_094_998)),
             Decoded(Num(3_864_850), Num(12_645_297))]
  {
    hide ValueAt, ReadPoint, ReadGroups, Or32, Emit, ZigZag;
    var s := LineCodeText;
    CodeLat0();
    CodeLon0();
    CodeSkew1();
    CodeLon1();
    CodeSkew2();
    CodeLon2();
    LineCodeSlices();
    ReadLineAt(0, 3_850_000, 5);
    ReadLineAt(5, -12_020_000, 5);
    ReadLineAt(11, 6_875, 3);
    ReadLineAt(14, -75_000, 4);
    ReadLineAt(19, 7_975, 3);
    ReadLineAt(22, -550_300, 5);
    var d0 := Decoded(Num(3_850_000), Num(12_019_999));
    var d1 := Decoded(Num(3_856_875), Num(12_094_998));
    var d2 := Decoded(Num(3_864_850), Num(12_645_297));
    ReadPointBoth(s, 0, Num(3_850_000), 5, Num(12_019_999), 10);
    DecodeFromStep(s, 0, [], ReadPoint(s, 0));
    ReadPointBoth(s, 11, Num(6_875), 14, Num(74_999), 18);
    DecodeFromStep(s, 11, [d0], ReadPoint(s, 11));
    ReadPointBoth(s, 19, Num(7_975), 22, Num(550_299), 27);
    DecodeFromStep(s, 19, [d0, d1], ReadPoint(s, 19));
  }

  /** The corrected decoder returns the published line exactly. */
  lemma DecodeLineVectorCorrected()
    ensures CorrectedPointsOf(LineCodeText)
         == [Decoded(Num(3_850_000), Num(-12_020_000)),
             Decoded(Num(4_070_000), Num(-12_095_000)),
             Decoded(Num(4_325_200), Num(-12_645_300))]
  {
    hide CorrectedPointsOf, LineCode, NoOverflow;
    EncodeLineVector();
    SmallFactorNoOverflow(Line, Factor5);
    DecodeCorrectedRoundTrip(Line, Factor5, LineCodeText);
    assert Exact(Line, 1) == [Decoded(Num(3_850_000), Num(-12_020_000))];
    assert Exact(Line, 2) == Exact(Line, 1) + [Decoded(Num(4_070_000), Num(-12_095_000))];
    assert Exact(Line, 3) == Exact(Line, 2) + [Decoded(Num(4_325_200), Num(-12_645_300))];
  }

  /** The code of delta -1 is "@", and the decoder reads it as 0: the low
      bit that marks the delta negative is dropped. */
  lemma NegativeDeltaCounterexample()
    ensures Emit(ZigZag(-1)) == "@"
    ensures ValueAt("@", 0) == Scan(Num(0), 1)
  {
    hide ValueAt;
    DecompressOnCompress("@", 0, -1);
  }

  lemma CodeZeroOne()
    ensures Emit(ZigZag(0)) == "?" && Emit(ZigZag(1)) == "A"
  {
  }

  /** Two positions at factor 1: the encoder writes "??AA". */
  lemma SkipEncode()
    ensures LineCode([Point(0, 0), Point(1, 1)], 1) == Success("??AA")
  {
    hide LineCode, Emit, ZigZag;
    var pts := [Point(0, 0), Point(1, 1)];
    CodeZeroOne();
    assert ValidPoint(pts[0], 1) && ValidPoint(pts[1], 1);
    LineCodeOnePoint(pts[0], 1);
    LineCodeAppend([pts[0]], pts[1], 1);
    assert [pts[0]] + [pts[1]] == pts;
    assert "?" + "?" + "A" + "A" == "??AA";
  }

  /** The decoder skips the first 'A' of "??AA", so it reads the second as
      a latitude delta and finds no longitude after it; the corrected
      decoder reads both positions. */
  lemma SkipCounterexample()
    ensures LineCode([Point(0, 0), Point(1, 1)], 1) == Success("??AA")
    ensures PointsOf("??AA") == [Decoded(Num(0), Num(0)), Decoded(Num(1), NaN)]
    ensures CorrectedPointsOf("??AA") == [Decoded(Num(0), Num(0)), Decoded(Num(1), Num(1))]
  {
    hide ValueAt, ReadPoint, ReadGroups, Or32, Emit, ZigZag, LineCode, CorrectedPointsOf, NoOverflow;
    var pts := [Point(0, 0), Point(1, 1)];
    var s := "??AA";
    SkipEncode();
    CodeZeroOne();
    assert s[0..1] == "?" && s[1..2] == "?" && s[3..4] == "A";
    DecompressOnCompress(s, 0, 0);
    DecompressOnCompress(s, 1, 0);
    DecompressOnCompress(s, 3, 1);
    var d0 := Decoded(Num(0), Num(0));
    ReadPointBoth(s, 0, Num(0), 1, Num(0), 2);
    DecodeFromStep(s, 0, [], ReadPoint(s, 0));
    ReadPointLast(s, 3, Num(1));
    DecodeFromStep(s, 3, [d0], ReadPoint(s, 3));
    SmallFactorNoOverflow(pts, 1);
    DecodeCorrectedRoundTrip(pts, 1, s);
  }
}
