/** The PolyLineEncoder class: a precision setting with its scale factor,
    and the encoder and decoder loops, each proved against the functions of
    PolyLineFormat. Positions are given in the quantized domain. */
module PolyLine {
  import opened Bits
  import opened PolyLineFormat

  class PolyLineEncoder {
    var factor: int
    var precision: int

    /** The precision is one the setter accepts and the factor is derived
        from it. */
    ghost predicate Valid()
      reads this
    {
      0 <= precision <= MaxPrecision && factor == Pow10(precision)
    }

    /** `new PolyLineEncoder()`: precision 5. */
    constructor()
      ensures Valid() && precision == 5 && factor == 100_000
    {
      precision := 5;
      factor := CalculateFactor(5);
    }

    /** `new PolyLineEncoder(precision)`: the setter's check, so a precision
        outside 0..9 throws ArgumentOutOfRangeException. */
    static method Create(precision: int) returns (r: Result<PolyLineEncoder>)
      ensures r.Success? <==> 0 <= precision <= MaxPrecision
      ensures r.Failure? ==> r.error == ArgumentOutOfRange
      ensures r.Success? ==> fresh(r.value) && r.value.Valid() && r.value.precision == precision
    {
      var e := new PolyLineEncoder();
      var ok := e.SetPrecision(precision);
      if ok {
        r := Success(e);
      } else {
        r := Failure(ArgumentOutOfRange);
      }
    }

    /** The `Precision` setter. `ok` is false where the source throws
        ArgumentOutOfRangeException, and then neither field changes. */
    method SetPrecision(value: int) returns (ok: bool)
      modifies this
      ensures ok <==> 0 <= value <= MaxPrecision
      ensures ok ==> precision == value && factor == Pow10(value) && Valid()
      ensures !ok ==> precision == old(precision) && factor == old(factor)
    {
      if value < 0 || value > MaxPrecision {
        return false;
      }
      precision := value;
      factor := CalculateFactor(precision);
      ok := true;
    }

    /** 10^precision; it fits a 32-bit `int` for every precision the setter
        accepts. */
    static function CalculateFactor(precision: int): (f: int)
      requires 0 <= precision <= MaxPrecision
      ensures f == Pow10(precision)
      ensures 1 <= f <= 1_000_000_000 < TwoTo31
    {
      Pow10Monotone(precision, MaxPrecision);
      Pow10(precision)
    }

    /** Compress: the code of `current - previous`. The delta is doubled and
        complemented if negative, then written five bits at a time, least
        significant first, into a character buffer. */
    static method Compress(current: int, previous: int) returns (s: string)
      requires DeltaFits(current - previous)
      ensures s == Emit(ZigZag(current - previous))
    {
      var coordinate := current - previous;
      coordinate := 2 * coordinate;
      if current - previous < 0 {
        coordinate := -coordinate - 1;
      }
      ghost var u := coordinate;
      assert u == ZigZag(current - previous);
      EmitAtMostSeven(u);
      var chars := new char[7];
      var pos := 0;
      while coordinate >= 0x20
        invariant 0 <= coordinate
        invariant pos + |Emit(coordinate)| <= 7
        invariant chars[..pos] + Emit(coordinate) == Emit(u)
        decreases coordinate
      {
        // (0x20 | (coordinate & 0x1F)) + 63
        chars[pos] := (0x20 + coordinate % 0x20 + 63) as char;
        pos := pos + 1;
        // coordinate >>= 5 on a non-negative value
        coordinate := coordinate / 0x20;
      }
      chars[pos] := (coordinate + 63) as char;
      pos := pos + 1;
      s := chars[..pos];
    }

    /** EncodeLineString: "" for no positions; otherwise each position's
        codes against the previous one (the first against 0), or
        ArgumentOutOfRange at the first position outside [-180, 180]. */
    static method EncodeLineString(pts: seq<Point>, factor: int) returns (r: Result<string>)
      requires NoOverflow(pts, factor)
      ensures r == LineCode(pts, factor)
    {
      if |pts| == 0 {
        return Success("");
      }
      if !IsValidCoordinate(pts[0].lat, factor) || !IsValidCoordinate(pts[0].lon, factor) {
        LineCodeRejects(pts, 0, factor);
        return Failure(ArgumentOutOfRange);
      }
      assert AllValid(pts, 1, factor) && PointFits(pts, 0);
      var builder: string := [];
      var lat := Compress(pts[0].lat, 0);
      builder := builder + lat;
      var lon := Compress(pts[0].lon, 0);
      builder := builder + lon;
      assert builder == [] + PointCode(pts, 0) == Codes(pts, 1);
      var i := 1;
      while i < |pts|
        invariant 1 <= i <= |pts|
        invariant AllValid(pts, i, factor)
        invariant builder == Codes(pts, i)
      {
        var latitude, longitude := pts[i].lat, pts[i].lon;
        if !IsValidCoordinate(latitude, factor) || !IsValidCoordinate(longitude, factor) {
          LineCodeRejects(pts, i, factor);
          return Failure(ArgumentOutOfRange);
        }
        assert AllValid(pts, i + 1, factor) && PointFits(pts, i);
        CodesNext(pts, i);
        var prevLatitude, prevLongitude := pts[i - 1].lat, pts[i - 1].lon;
        lat := Compress(latitude, prevLatitude);
        builder := builder + lat;
        lon := Compress(longitude, prevLongitude);
        builder := builder + lon;
        i := i + 1;
      }
      return Success(builder);
    }

    /** Decompress: reads one value from `i` and returns it with the cursor
        after it (the source's `ref i`). The 32-bit `result` is kept as its
        bit pattern. */
    static method Decompress(coords: string, i: nat) returns (value: Number, next: nat)
      ensures Scan(value, next) == ValueAt(coords, i)
    {
      next := i;
      var result: nat := 0;
      var shift: nat := 0;
      var more := true;
      while more
        invariant result < TwoTo32
        invariant i <= next
        invariant more ==> ReadGroups(coords, next, shift, result) == ReadGroups(coords, i, 0, 0)
        invariant !more ==> ReadGroups(coords, i, 0, 0) == Gathered(result, next)
        decreases |coords| - next + (if more then 1 else 0)
      {
        if next < |coords| {
          var c := Raw(coords[next]);
          next := next + 1;
          result := Or32(result, Shl32(c % 0x20, shift));
          shift := shift + 5;
          more := c >= 0x20;
        } else {
          return NaN, next;
        }
      }
      if result >= TwoTo31 {
        // ~result on a negative `int`
        result := TwoTo32 - 1 - result;
      }
      // result >>= 1 on a non-negative value
      result := result / 2;
      value := Num(result);
    }

    /** DecodeString: one pass per point, a latitude and then a longitude
        (NaN when the input ends first), summed onto the previous point; the
        loop's `i++` then moves one character further. */
    static method DecodeString(coords: string) returns (points: seq<Decoded>)
      ensures points == PointsOf(coords)
    {
      hide ReadGroups, ValueAt, Or32;
      points := [];
      var i := 0;
      ghost var all := PointsOf(coords);
      while i < |coords|
        invariant DecodeFrom(coords, i, points) == all
        decreases |coords| - i
      {
        ghost var start := i;
        var latitude, longitude: Number;
        latitude, i := Decompress(coords, i);
        if i < |coords| {
          ghost var j := i;
          longitude, i := Decompress(coords, i);
          ReadPointBoth(coords, start, latitude, j, longitude, i);
        } else {
          longitude := NaN;
          ReadPointLast(coords, start, latitude);
        }
        ghost var p := ReadPoint(coords, start);
        assert p == PointScan(latitude, longitude, i);
        DecodeFromStep(coords, start, points, p);
        ghost var next := NextPoint(latitude, longitude, points);
        if |points| > 0 {
          var prevPoint := points[|points| - 1];
          latitude := Plus(latitude, prevPoint.lat);
          longitude := Plus(longitude, prevPoint.lon);
        }
        assert Decoded(latitude, longitude) == next;
        points := points + [Decoded(latitude, longitude)];
        i := i + 1;
      }
    }

    /** Encode(IPosition): the latitude code against 0, then the longitude
        code against 0, or ArgumentOutOfRange for a position outside
        [-180, 180]. */
    method Encode(position: Point) returns (r: Result<string>)
      requires Valid()
      requires ValidPoint(position, factor) ==> DeltaFits(position.lat) && DeltaFits(position.lon)
      ensures r == LineCode([position], factor)
    {
      if !IsValidCoordinate(position.lat, factor) || !IsValidCoordinate(position.lon, factor) {
        LineCodeRejects([position], 0, factor);
        return Failure(ArgumentOutOfRange);
      }
      var lat := Compress(position.lat, 0);
      var lon := Compress(position.lon, 0);
      LineCodeOnePoint(position, factor);
      return Success(lat + lon);
    }

    /** Encode(LineString), at this encoder's factor. */
    method EncodeLine(line: seq<Point>) returns (r: Result<string>)
      requires Valid() && NoOverflow(line, factor)
      ensures r == LineCode(line, factor)
    {
      r := EncodeLineString(line, factor);
    }

    /** At a precision of at most six decimals, the default among them, no
        line of valid positions overflows, so Encode and EncodeLine accept
        every input there. */
    lemma LowPrecisionNoOverflow(line: seq<Point>)
      requires Valid() && precision <= 6
      ensures NoOverflow(line, factor)
    {
      Pow10Monotone(precision, 6);
      assert Pow10(6) == 1_000_000;
      SmallFactorNoOverflow(line, factor);
    }

    /** Decode(coords). */
    method Decode(coords: string) returns (points: seq<Decoded>)
      ensures points == PointsOf(coords)
    {
      points := DecodeString(coords);
    }
  }
}
