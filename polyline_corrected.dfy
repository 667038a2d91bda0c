/** The decoder as the Encoded Polyline Algorithm Format intends it: the low
    bit of the gathered value selects the sign, and the next pass starts on
    the character right after the previous longitude. With both corrections
    decoding undoes encoding. */
module PolyLineCorrected {
  import opened Bits
  import opened PolyLineFormat

  /** The inverse of the zig-zag map: an odd value is a negative delta. */
  function UnZigZag(u: nat): (d: int)
    ensures ZigZag(d) == u
    ensures d < 0 <==> u % 2 == 1
  {
    if u % 2 == 1 then -(u / 2) - 1 else u / 2
  }

  /** Undoing the zig-zag map gives back every delta. */
  lemma UnZigZagOfZigZag(d: int)
    ensures UnZigZag(ZigZag(d)) == d
  {
    if d < 0 {
      assert ZigZag(d) == -2 * d - 1;
      assert ZigZag(d) / 2 == -d - 1;
    }
  }

  /** One value read from `i`, its sign taken from the low bit. */
  function ValueAtCorrected(s: string, i: nat): (r: Scan)
    ensures i < |s| ==> i < r.next <= |s|
    ensures i >= |s| ==> r == Scan(NaN, i)
    ensures r.next == ValueAt(s, i).next
    ensures r.value.NaN? <==> ValueAt(s, i).value.NaN?
  {
    match ReadGroups(s, i, 0, 0)
    case Gathered(acc, j) => Scan(Num(UnZigZag(acc)), j)
    case OutOfInput(j) => Scan(NaN, j)
  }

  /** On a code the encoder wrote for `d`, the corrected read returns `d`
      and moves past the code. */
  lemma ValueAtCorrectedOnCode(s: string, i: nat, d: int)
    requires DeltaFits(d)
    requires i + |Emit(ZigZag(d))| <= |s| && s[i..i + |Emit(ZigZag(d))|] == Emit(ZigZag(d))
    ensures ValueAtCorrected(s, i) == Scan(Num(d), i + |Emit(ZigZag(d))|)
  {
    ReadCode(s, i, ZigZag(d));
    UnZigZagOfZigZag(d);
  }

  /** One pass: a latitude, then a longitude if input remains. */
  function ReadPointCorrected(s: string, i: nat): (r: PointScan)
    requires i < |s|
    ensures i < r.next <= |s|
  {
    var lat := ValueAtCorrected(s, i);
    if lat.next < |s| then
      var lon := ValueAtCorrected(s, lat.next);
      PointScan(lat.value, lon.value, lon.next)
    else
      PointScan(lat.value, NaN, lat.next)
  }

  /** The decoder's loop without the extra step past each point. */
  function DecodeCorrectedFrom(s: string, i: nat, points: seq<Decoded>): (r: seq<Decoded>)
    ensures |points| <= |r| && r[..|points|] == points
    decreases |s| - i
  {
    if i < |s| then
      var p := ReadPointCorrected(s, i);
      DecodeCorrectedFrom(s, p.next, points + [NextPoint(p.lat, p.lon, points)])
    else
      points
  }

  function CorrectedPointsOf(s: string): seq<Decoded>
  {
    DecodeCorrectedFrom(s, 0, [])
  }

  /** The first `n` positions, as the decoder would ideally return them. */
  function Exact(pts: seq<Point>, n: nat): seq<Decoded>
    requires n <= |pts|
  {
    if n == 0 then [] else Exact(pts, n - 1) + [Decoded(Num(pts[n - 1].lat), Num(pts[n - 1].lon))]
  }

  lemma {:induction false} ExactLength(pts: seq<Point>, n: nat)
    requires n <= |pts|
    ensures |Exact(pts, n)| == n
  {
    if n > 0 {
      ExactLength(pts, n - 1);
    }
  }

  /** The code of position `n` sits in the line's code right after the
      codes of the positions before it. */
  lemma PointCodeInPlace(pts: seq<Point>, n: nat)
    requires n < |pts|
    ensures |Codes(pts, n)| + |PointCode(pts, n)| <= |Codes(pts, |pts|)|
    ensures Codes(pts, |pts|)[|Codes(pts, n)|..|Codes(pts, n)| + |PointCode(pts, n)|] == PointCode(pts, n)
  {
    hide PointCode;
    CodesPrefix(pts, n + 1, |pts|);
    var s, c, m := Codes(pts, |pts|), Codes(pts, n), Codes(pts, n + 1);
    assert m == c + PointCode(pts, n);
    assert s[|c|..|c| + |PointCode(pts, n)|] == m[|c|..];
  }

  /** The corrected pass on the codes of deltas `a` and `b` reads them back
      and stops after them. */
  lemma ReadPointOnCodes(s: string, i: nat, a: int, b: int)
    requires DeltaFits(a) && DeltaFits(b)
    requires i + |Emit(ZigZag(a)) + Emit(ZigZag(b))| <= |s|
    requires s[i..i + |Emit(ZigZag(a)) + Emit(ZigZag(b))|] == Emit(ZigZag(a)) + Emit(ZigZag(b))
    ensures ReadPointCorrected(s, i) == PointScan(Num(a), Num(b), i + |Emit(ZigZag(a)) + Emit(ZigZag(b))|)
  {
    hide ValueAtCorrected, ReadGroups, Or32;
    var ea, eb := Emit(ZigZag(a)), Emit(ZigZag(b));
    assert s[i..i + |ea|] == ea by {
      assert s[i..i + |ea|] == s[i..i + |ea| + |eb|][..|ea|];
    }
    ValueAtCorrectedOnCode(s, i, a);
    assert s[i + |ea|..i + |ea| + |eb|] == eb by {
      assert s[i + |ea|..i + |ea| + |eb|] == s[i..i + |ea| + |eb|][|ea|..];
    }
    ValueAtCorrectedOnCode(s, i + |ea|, b);
  }

  /** The corrected pass at position `n`'s code reads its two deltas and
      stops at the end of that code. */
  lemma ReadPointOnCode(pts: seq<Point>, n: nat)
    requires n < |pts| && PointFits(pts, n)
    ensures |Codes(pts, n)| < |Codes(pts, |pts|)|
    ensures ReadPointCorrected(Codes(pts, |pts|), |Codes(pts, n)|)
         == PointScan(Num(pts[n].lat - Prev(pts, n).lat), Num(pts[n].lon - Prev(pts, n).lon), |Codes(pts, n + 1)|)
  {
    hide ReadPointCorrected, Emit;
    PointCodeInPlace(pts, n);
    assert |Codes(pts, n + 1)| == |Codes(pts, n)| + |PointCode(pts, n)|;
    ReadPointOnCodes(Codes(pts, |pts|), |Codes(pts, n)|, pts[n].lat - Prev(pts, n).lat, pts[n].lon - Prev(pts, n).lon);
  }

  /** Decoding the rest of a line's code, from position `n`'s code on with
      the first `n` positions already decoded, yields all positions. */
  lemma {:induction false} DecodeCorrectedRest(pts: seq<Point>, factor: int, n: nat)
    requires n <= |pts| && AllValid(pts, |pts|, factor) && NoOverflow(pts, factor)
    ensures DecodeCorrectedFrom(Codes(pts, |pts|), |Codes(pts, n)|, Exact(pts, n)) == Exact(pts, |pts|)
    decreases |pts| - n
  {
    hide ReadPointCorrected, ValueAtCorrected, ReadGroups, Or32, Codes, Emit;
    var s := Codes(pts, |pts|);
    if n < |pts| {
      assert AllValid(pts, n + 1, factor);
      assert PointFits(pts, n);
      ReadPointOnCode(pts, n);
      var p := ReadPointCorrected(s, |Codes(pts, n)|);
      ExactLength(pts, n);
      assert NextPoint(p.lat, p.lon, Exact(pts, n)) == Decoded(Num(pts[n].lat), Num(pts[n].lon));
      DecodeCorrectedRest(pts, factor, n + 1);
    } else {
      assert |Codes(pts, n)| == |s|;
    }
  }

  /** The corrected decoder undoes the encoder: the code of a valid line
      decodes to exactly its positions, in order. */
  lemma {:induction false} DecodeCorrectedRoundTrip(pts: seq<Point>, factor: int, s: string)
    requires NoOverflow(pts, factor) && LineCode(pts, factor) == Success(s)
    ensures CorrectedPointsOf(s) == Exact(pts, |pts|)
  {
    if |pts| > 0 {
      assert s == Codes(pts, |pts|);
      DecodeCorrectedRest(pts, factor, 0);
    }
  }
}
