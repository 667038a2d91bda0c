/** The encoded polyline format as PolyLineEncoder writes and reads it, stated
    on values in the quantized domain: every coordinate is already multiplied
    by the scale factor and rounded to an integer. */
module PolyLineFormat {
  import opened Bits

  /** The exception the encoder throws: ArgumentOutOfRangeException. */
  datatype Error = ArgumentOutOfRange

  datatype Result<+T> = Success(value: T) | Failure(error: Error)

  /** A position in the quantized domain (degrees times the scale factor). */
  datatype Point = Point(lat: int, lon: int)

  /** A decoded position, still in the quantized domain. */
  datatype Decoded = Decoded(lat: Number, lon: Number)

  // ---------------------------------------------------------------------
  // Precision and coordinate validity

  const MaxPrecision: int := 9

  function Pow10(n: nat): (r: nat)
    ensures r >= 1
  {
    if n == 0 then 1 else 10 * Pow10(n - 1)
  }

  lemma {:induction false} Pow10Monotone(a: nat, b: nat)
    requires a <= b
    ensures Pow10(a) <= Pow10(b)
    decreases b
  {
    if a < b {
      Pow10Monotone(a, b - 1);
    }
  }

  /** The inclusive range [-180, 180] degrees, on a quantized value. Up to
      six decimals (a factor of at most 10^6) a valid value doubled stays
      strictly inside the 32-bit range, so the difference of two valid
      values can be doubled without overflow. */
  function IsValidCoordinate(q: int, factor: int): (ok: bool)
    ensures ok && factor <= 1_000_000 ==> -TwoTo30 < 2 * q < TwoTo30
  {
    -180 * factor <= q <= 180 * factor
  }

  predicate ValidPoint(p: Point, factor: int)
  {
    IsValidCoordinate(p.lat, factor) && IsValidCoordinate(p.lon, factor)
  }

  // ---------------------------------------------------------------------
  // Encoding one value

  /** The deltas whose doubling does not overflow a 32-bit `int`. */
  predicate DeltaFits(d: int)
  {
    -TwoTo30 <= d < TwoTo30
  }

  /** The encoder's signed-to-unsigned map: shift left, complement if
      negative. The low bit carries the sign. */
  function ZigZag(d: int): (u: nat)
    ensures u % 2 == 1 <==> d < 0
    ensures DeltaFits(d) ==> u < TwoTo31
  {
    if d < 0 then -(2 * d) - 1 else 2 * d
  }

  /** The characters emitted for an unsigned value: its 5-bit groups, least
      significant first, each offset by 63, every group but the last with
      the continuation bit 0x20 set. */
  function Emit(u: nat): (s: string)
    ensures |s| >= 1
    decreases u
  {
    if u < 0x20 then [(u + 63) as char]
    else [(u % 0x20 + 0x20 + 63) as char] + Emit(u / 0x20)
  }

  /** Every character of a code is printable ASCII ('?' to '~'); every one
      but the last has the continuation bit set, the last has it clear. */
  lemma {:induction false} EmitShape(u: nat)
    ensures forall k :: 0 <= k < |Emit(u)| ==> 63 <= Emit(u)[k] as int <= 126
    ensures forall k :: 0 <= k < |Emit(u)| - 1 ==> Emit(u)[k] as int - 63 >= 0x20
    ensures Emit(u)[|Emit(u)| - 1] as int - 63 < 0x20
    decreases u
  {
    if u >= 0x20 {
      EmitShape(u / 0x20);
      var c := (u % 0x20 + 0x20 + 63) as char;
      assert Emit(u) == [c] + Emit(u / 0x20);
    }
  }

  /** The value of a character after the decoder's `c -= (char)63`, which
      wraps around modulo 2^16. A character below '?' wraps to a value with
      the continuation bit set, so it never ends a value. */
  function Raw(c: char): (r: nat)
    ensures r < 0x1_0000
    ensures c as int < 63 ==> r >= 0x20
    ensures 63 <= c as int < 63 + 0x1_0000 ==> r + 63 == c as int
  {
    (c as int - 63) % 0x1_0000
  }

  /** Reference reading of a code: its 5-bit groups, least significant first. */
  function GroupsValue(s: string): nat
  {
    if s == [] then 0 else Raw(s[0]) % 0x20 + 0x20 * GroupsValue(s[1..])
  }

  /** The groups `Emit` writes read back to the value it was given. */
  lemma {:induction false} EmitGroupsValue(u: nat)
    ensures GroupsValue(Emit(u)) == u
    decreases u
  {
    var s := Emit(u);
    if u < 0x20 {
      assert s == [(u + 63) as char];
      assert Raw(s[0]) == u;
      assert s[1..] == [];
    } else {
      var c := (u % 0x20 + 0x20 + 63) as char;
      assert s == [c] + Emit(u / 0x20);
      assert Raw(c) % 0x20 == u % 0x20;
      assert s[1..] == Emit(u / 0x20);
      EmitGroupsValue(u / 0x20);
    }
  }

  /** A value below 2^(5k) takes at most `k` characters. */
  lemma {:induction false} EmitLengthBelow(u: nat, k: nat)
    requires 1 <= k && u < Pow2(5 * k)
    ensures |Emit(u)| <= k
    decreases k
  {
    if u >= 0x20 {
      Pow2Plus5(5 * (k - 1));
      assert 5 * (k - 1) + 5 == 5 * k;
      if k == 1 {
        assert false;
      }
      EmitLengthBelow(u / 0x20, k - 1);
    }
  }

  /** A zig-zag value of a 32-bit delta takes at most seven characters. */
  lemma EmitAtMostSeven(u: nat)
    requires u < TwoTo31
    ensures |Emit(u)| <= 7
  {
    Pow2Wide();
    Pow2Monotone(31, 35);
    EmitLengthBelow(u, 7);
  }

  // ---------------------------------------------------------------------
  // Decoding one value

  /** How the decoder's inner loop ends: with the 32-bit accumulator and the
      cursor after the character whose continuation bit was clear, or at the
      end of the input while the bit was still set. */
  datatype Gathered = Gathered(acc: nat, next: nat) | OutOfInput(next: nat)

  /** The decoder's inner loop from position `i`: each character adds its
      five low bits at `shift` to the 32-bit accumulator, and reading goes on
      while the character's continuation bit is set. */
  function ReadGroups(s: string, i: nat, shift: nat, acc: nat): (r: Gathered)
    requires acc < TwoTo32
    ensures r.Gathered? ==> r.acc < TwoTo32
    ensures i < |s| ==> i < r.next <= |s|
    ensures i < |s| && r.OutOfInput? ==> r.next == |s|
    ensures i >= |s| ==> r == OutOfInput(i)
    decreases |s| - i
  {
    if i < |s| then
      var c := Raw(s[i]);
      var acc' := Or32(acc, Shl32(c % 0x20, shift));
      if c >= 0x20 then ReadGroups(s, i + 1, shift + 5, acc') else Gathered(acc', i + 1)
    else
      OutOfInput(i)
  }

  /** The decoder's last step on its 32-bit accumulator: complement it if it
      is negative, then shift right by one. The low (sign) bit of the zig-zag
      value is dropped without being used. */
  function Finish(acc: nat): (v: int)
    requires acc < TwoTo32
    ensures 0 <= v < TwoTo30
  {
    (if acc >= TwoTo31 then TwoTo32 - 1 - acc else acc) / 2
  }

  /** A decoded number in the quantized domain, or the NaN the decoder
      returns for a value the input ends in the middle of. */
  datatype Number = Num(n: int) | NaN

  /** One value read, and the cursor after it. */
  datatype Scan = Scan(value: Number, next: nat)

  /** Decompress: one value read from position `i`. The value read is never
      negative, and it is NaN when the input ends first. */
  function ValueAt(s: string, i: nat): (r: Scan)
    ensures r.value.Num? ==> r.value.n >= 0
    ensures i < |s| ==> i < r.next <= |s|
    ensures i >= |s| ==> r == Scan(NaN, i)
  {
    match ReadGroups(s, i, 0, 0)
    case Gathered(acc, j) => Scan(Num(Finish(acc)), j)
    case OutOfInput(j) => Scan(NaN, j)
  }

  /** What the decoder returns for a delta the encoder wrote: the delta
      itself when it is not negative, and -d-1 when it is. */
  function DecodedDelta(d: int): int
  {
    if d < 0 then -d - 1 else d
  }

  /** The first character of a code Emit wrote, as the decoder sees it. */
  lemma EmitHead(u: nat)
    ensures Raw(Emit(u)[0]) == if u < 0x20 then u else u % 0x20 + 0x20
    ensures u < 0x20 ==> |Emit(u)| == 1
    ensures u >= 0x20 ==> Emit(u)[1..] == Emit(u / 0x20)
  {
  }

  /** The reader on a character with the continuation bit clear. */
  lemma ReadGroupsStop(s: string, i: nat, shift: nat, acc: nat, g: nat, x: nat)
    requires i < |s| && Raw(s[i]) < 0x20 && Raw(s[i]) % 0x20 == g && acc < TwoTo32
    requires Or32(acc, Shl32(g, shift)) == x
    ensures ReadGroups(s, i, shift, acc) == Gathered(x, i + 1)
  {
  }

  /** The reader on a character with the continuation bit set. */
  lemma ReadGroupsGo(s: string, i: nat, shift: nat, acc: nat, g: nat, x: nat)
    requires i < |s| && Raw(s[i]) >= 0x20 && Raw(s[i]) % 0x20 == g && acc < TwoTo32
    requires Or32(acc, Shl32(g, shift)) == x
    ensures ReadGroups(s, i, shift, acc) == ReadGroups(s, i + 1, shift + 5, x)
  {
  }

  /** The rest of a code after its first character, in place in `s`. */
  lemma EmitTail(s: string, i: nat, u: nat)
    requires u >= 0x20
    requires i + |Emit(u)| <= |s| && s[i..i + |Emit(u)|] == Emit(u)
    ensures |Emit(u)| == 1 + |Emit(u / 0x20)|
    ensures s[i + 1..i + 1 + |Emit(u / 0x20)|] == Emit(u / 0x20)
  {
    EmitHead(u);
    assert s[i + 1..i + 1 + |Emit(u / 0x20)|] == Emit(u)[1..];
  }

  /** Reading the code of `u`, placed at `i`, with the bits gathered so far
      in `acc` below `shift`: the groups add `u` shifted by `shift` and the
      cursor moves past the code. */
  lemma {:induction false} ReadEmitted(s: string, i: nat, u: nat, shift: nat, acc: nat)
    requires i + |Emit(u)| <= |s| && s[i..i + |Emit(u)|] == Emit(u)
    requires acc < Pow2(shift)
    requires acc + ShiftLeft(u, shift) < TwoTo31
    ensures acc < TwoTo32
    ensures ReadGroups(s, i, shift, acc) == Gathered(acc + ShiftLeft(u, shift), i + |Emit(u)|)
    decreases u
  {
    assert s[i] == Emit(u)[0];
    EmitHead(u);
    if u < 0x20 {
      assert Raw(s[i]) == u && u % 0x20 == u;
      OrShiftAdd(acc, u, shift);
      ReadGroupsStop(s, i, shift, acc, u, acc + ShiftLeft(u, shift));
    } else {
      var g, hi := u % 0x20, u / 0x20;
      assert Raw(s[i]) == g + 0x20 && (g + 0x20) % 0x20 == g;
      ShiftLeftSplit(u, shift);
      ShiftLeftGroupBound(acc, g, shift);
      OrShiftAdd(acc, g, shift);
      var acc' := acc + ShiftLeft(g, shift);
      ReadGroupsGo(s, i, shift, acc, g, acc');
      EmitTail(s, i, u);
      ReadEmitted(s, i + 1, hi, shift + 5, acc');
    }
  }

  /** The reader, started on a code, gathers exactly the value coded. */
  lemma ReadCode(s: string, i: nat, u: nat)
    requires u < TwoTo31
    requires i + |Emit(u)| <= |s| && s[i..i + |Emit(u)|] == Emit(u)
    ensures ReadGroups(s, i, 0, 0) == Gathered(u, i + |Emit(u)|)
  {
    ReadEmitted(s, i, u, 0, 0);
    assert ShiftLeft(u, 0) == u;
  }

  /** Dropping the sign bit of a zig-zag value, as Finish does. */
  lemma ZigZagHalf(d: int)
    ensures ZigZag(d) / 2 == DecodedDelta(d)
  {
  }

  /** Decompress on a code Compress wrote for delta `d`: the cursor moves by
      exactly the code's length, and the value is `d` for `d >= 0` and `-d-1`
      for `d < 0`. */
  lemma DecompressOnCompress(s: string, i: nat, d: int)
    requires DeltaFits(d)
    requires i + |Emit(ZigZag(d))| <= |s| && s[i..i + |Emit(ZigZag(d))|] == Emit(ZigZag(d))
    ensures ValueAt(s, i) == Scan(Num(DecodedDelta(d)), i + |Emit(ZigZag(d))|)
  {
    var u := ZigZag(d);
    ReadCode(s, i, u);
    ZigZagHalf(d);
  }

  /** The reader runs out of input exactly when every character left has its
      continuation bit set. */
  lemma {:induction false} ReadGroupsOutOfInput(s: string, i: nat, shift: nat, acc: nat)
    requires acc < TwoTo32
    ensures ReadGroups(s, i, shift, acc).OutOfInput? <==> forall m :: i <= m < |s| ==> Raw(s[m]) >= 0x20
    decreases |s| - i
  {
    if i < |s| {
      var c := Raw(s[i]);
      if c >= 0x20 {
        ReadGroupsOutOfInput(s, i + 1, shift + 5, Or32(acc, Shl32(c % 0x20, shift)));
      }
    }
  }

  /** Decompress yields NaN exactly when every character left has its
      continuation bit set, and then the cursor stops at the end. */
  lemma DecompressNaN(s: string, i: nat)
    requires i <= |s|
    ensures ValueAt(s, i).value.NaN? <==> forall m :: i <= m < |s| ==> Raw(s[m]) >= 0x20
    ensures ValueAt(s, i).value.NaN? ==> ValueAt(s, i).next == |s|
  {
    ReadGroupsOutOfInput(s, i, 0, 0);
  }

  /** The reader looks at no character at or after the cursor it returns:
      two strings of the same length that agree before it read alike. */
  lemma {:induction false} ReadGroupsAgree(s: string, t: string, i: nat, shift: nat, acc: nat)
    requires acc < TwoTo32 && |s| == |t|
    requires forall m :: i <= m < ReadGroups(s, i, shift, acc).next ==> s[m] == t[m]
    ensures ReadGroups(t, i, shift, acc) == ReadGroups(s, i, shift, acc)
    decreases |s| - i
  {
    if i < |s| {
      assert s[i] == t[i];
      var c := Raw(s[i]);
      if c >= 0x20 {
        ReadGroupsAgree(s, t, i + 1, shift + 5, Or32(acc, Shl32(c % 0x20, shift)));
      }
    }
  }

  // ---------------------------------------------------------------------
  // Decoding a string

  /** `+` on the decoder's doubles: NaN plus anything is NaN. */
  function Plus(a: Number, b: Number): Number
  {
    if a.Num? && b.Num? then Num(a.n + b.n) else NaN
  }

  /** The point appended: the decoded deltas plus the previous point, if
      any. Once an axis is NaN it stays NaN in every later point. */
  function NextPoint(lat: Number, lon: Number, points: seq<Decoded>): (d: Decoded)
    ensures |points| == 0 ==> d == Decoded(lat, lon)
    ensures |points| > 0 ==>
      (d.lat.NaN? <==> lat.NaN? || points[|points| - 1].lat.NaN?) &&
      (d.lon.NaN? <==> lon.NaN? || points[|points| - 1].lon.NaN?)
    ensures |points| > 0 && d.lat.Num? ==> d.lat.n == lat.n + points[|points| - 1].lat.n
    ensures |points| > 0 && d.lon.Num? ==> d.lon.n == lon.n + points[|points| - 1].lon.n
  {
    if |points| > 0 then
      Decoded(Plus(lat, points[|points| - 1].lat), Plus(lon, points[|points| - 1].lon))
    else
      Decoded(lat, lon)
  }

  /** What one pass of the decoder's loop body reads. */
  datatype PointScan = PointScan(lat: Number, lon: Number, next: nat)

  /** One pass of the decoder's loop body: a latitude, then a longitude if
      input remains (NaN otherwise), and the cursor after them. */
  function ReadPoint(s: string, i: nat): (r: PointScan)
    requires i < |s|
    ensures i < r.next <= |s|
  {
    var lat := ValueAt(s, i);
    if lat.next < |s| then
      var lon := ValueAt(s, lat.next);
      PointScan(lat.value, lon.value, lon.next)
    else
      PointScan(lat.value, NaN, lat.next)
  }

  /** The decoder's loop from cursor `i` with `points` already gathered. The
      loop's own `i++` moves past one more character after each point. */
  function DecodeFrom(s: string, i: nat, points: seq<Decoded>): (r: seq<Decoded>)
    ensures |points| <= |r| && r[..|points|] == points
    decreases |s| - i
  {
    if i < |s| then
      var p := ReadPoint(s, i);
      DecodeFrom(s, p.next + 1, points + [NextPoint(p.lat, p.lon, points)])
    else
      points
  }

  function PointsOf(s: string): seq<Decoded>
  {
    DecodeFrom(s, 0, [])
  }

  /** The passes of the decoder's loop from `i`, in the order it makes them. */
  function Passes(s: string, i: nat): seq<PointScan>
    decreases |s| - i
  {
    if i < |s| then [ReadPoint(s, i)] + Passes(s, ReadPoint(s, i).next + 1) else []
  }

  /** Points are appended one per pass, in the order of the passes, and each
      is the previous point plus the deltas read in its pass. */
  lemma {:induction false} DecodeFromSums(s: string, i: nat, points: seq<Decoded>)
    ensures |DecodeFrom(s, i, points)| == |points| + |Passes(s, i)|
    ensures forall k :: |points| <= k < |DecodeFrom(s, i, points)| ==>
      DecodeFrom(s, i, points)[k]
        == NextPoint(Passes(s, i)[k - |points|].lat, Passes(s, i)[k - |points|].lon, DecodeFrom(s, i, points)[..k])
    decreases |s| - i
  {
    if i < |s| {
      var p := ReadPoint(s, i);
      var points' := points + [NextPoint(p.lat, p.lon, points)];
      var r := DecodeFrom(s, i, points);
      var ps, ps' := Passes(s, i), Passes(s, p.next + 1);
      assert r == DecodeFrom(s, p.next + 1, points');
      assert ps == [p] + ps';
      DecodeFromSums(s, p.next + 1, points');
      forall k | |points| <= k < |r|
        ensures r[k] == NextPoint(ps[k - |points|].lat, ps[k - |points|].lon, r[..k])
      {
        if k == |points| {
          assert r[..|points'|] == points';
          assert r[..k] == points by {
            assert r[..k] == r[..|points'|][..k];
          }
        } else {
          assert ps[k - |points|] == ps'[k - |points'|];
        }
      }
    }
  }

  /** Every pass consumes at least two characters, the one it skips
      included, so there are at most half as many points as characters,
      rounded up. */
  lemma {:induction false} PassesCount(s: string, i: nat)
    requires i <= |s|
    ensures |Passes(s, i)| <= (|s| - i + 1) / 2
    decreases |s| - i
  {
    if i < |s| {
      var j := ReadPoint(s, i).next + 1;
      if j <= |s| {
        PassesCount(s, j);
      }
    }
  }

  /** One pass of the loop, then the rest from one character past it. */
  lemma DecodeFromStep(s: string, i: nat, points: seq<Decoded>, p: PointScan)
    requires i < |s| && p == ReadPoint(s, i)
    ensures DecodeFrom(s, i, points) == DecodeFrom(s, p.next + 1, points + [NextPoint(p.lat, p.lon, points)])
  {
  }

  /** One pass reads nothing at or after the cursor it returns. */
  lemma ReadPointAgree(s: string, t: string, i: nat)
    requires i < |s| == |t|
    requires forall m :: i <= m < ReadPoint(s, i).next ==> s[m] == t[m]
    ensures ReadPoint(t, i) == ReadPoint(s, i)
  {
    var j := ValueAt(s, i).next;
    ReadGroupsAgree(s, t, i, 0, 0);
    if j < |s| {
      ReadGroupsAgree(s, t, j, 0, 0);
    }
  }

  /** The characters from `i` on decide everything decoded from `i`. */
  lemma {:induction false} DecodeFromLocal(s: string, t: string, i: nat, points: seq<Decoded>)
    requires |s| == |t| && forall m :: i <= m < |s| ==> s[m] == t[m]
    ensures DecodeFrom(t, i, points) == DecodeFrom(s, i, points)
    decreases |s| - i
  {
    hide ReadGroups, Or32;
    if i < |s| {
      ReadPointAgree(s, t, i);
      var p := ReadPoint(s, i);
      DecodeFromLocal(s, t, p.next + 1, points + [NextPoint(p.lat, p.lon, points)]);
    }
  }

  /** The character right after a point's codes is never read: replacing it
      changes nothing in what the decoder returns. */
  lemma SkippedCharacterIgnored(s: string, i: nat, points: seq<Decoded>, c: char)
    requires i < |s| && ReadPoint(s, i).next < |s|
    ensures DecodeFrom(s[ReadPoint(s, i).next := c], i, points) == DecodeFrom(s, i, points)
  {
    hide ReadGroups, Or32;
    var p := ReadPoint(s, i);
    var t := s[p.next := c];
    ReadPointAgree(s, t, i);
    DecodeFromLocal(s, t, p.next + 1, points + [NextPoint(p.lat, p.lon, points)]);
  }

  /** One pass that reads a latitude and a longitude. */
  lemma ReadPointBoth(s: string, i: nat, lat: Number, j: nat, lon: Number, k: nat)
    requires i < j < |s|
    requires ValueAt(s, i) == Scan(lat, j) && ValueAt(s, j) == Scan(lon, k)
    ensures ReadPoint(s, i) == PointScan(lat, lon, k)
  {
  }

  /** One pass whose latitude reaches the end of the input. */
  lemma ReadPointLast(s: string, i: nat, lat: Number)
    requires i < |s| && ValueAt(s, i) == Scan(lat, |s|)
    ensures ReadPoint(s, i) == PointScan(lat, NaN, |s|)
  {
  }

  /** A string the first pass reads to its end decodes to one point. */
  lemma DecodeOnePass(s: string, p: PointScan)
    requires 0 < |s| && ReadPoint(s, 0) == p && p.next == |s|
    ensures PointsOf(s) == [Decoded(p.lat, p.lon)]
  {
    assert DecodeFrom(s, 0, []) == DecodeFrom(s, p.next + 1, [NextPoint(p.lat, p.lon, [])]);
  }

  /** A string holding one complete point decodes to one point, with each
      negative delta turned into -d-1. */
  lemma DecodeOnePoint(a: int, b: int)
    requires DeltaFits(a) && DeltaFits(b)
    ensures PointsOf(Emit(ZigZag(a)) + Emit(ZigZag(b)))
         == [Decoded(Num(DecodedDelta(a)), Num(DecodedDelta(b)))]
  {
    var ea, eb := Emit(ZigZag(a)), Emit(ZigZag(b));
    var s := ea + eb;
    assert s[0..|ea|] == ea;
    DecompressOnCompress(s, 0, a);
    assert s[|ea|..|ea| + |eb|] == eb;
    DecompressOnCompress(s, |ea|, b);
    ReadPointBoth(s, 0, Num(DecodedDelta(a)), |ea|, Num(DecodedDelta(b)), |s|);
    DecodeOnePass(s, ReadPoint(s, 0));
  }

  /** A string that ends after a latitude code decodes to one point whose
      longitude is NaN. */
  lemma DecodeMissingLongitude(a: int)
    requires DeltaFits(a)
    ensures PointsOf(Emit(ZigZag(a))) == [Decoded(Num(DecodedDelta(a)), NaN)]
  {
    var s := Emit(ZigZag(a));
    assert s[0..|s|] == s;
    DecompressOnCompress(s, 0, a);
    ReadPointLast(s, 0, Num(DecodedDelta(a)));
    DecodeOnePass(s, ReadPoint(s, 0));
  }

  // ---------------------------------------------------------------------
  // Encoding a line

  /** The previous point of the delta chain; the first point has (0, 0). */
  function Prev(pts: seq<Point>, k: nat): Point
    requires k < |pts|
  {
    if k == 0 then Point(0, 0) else pts[k - 1]
  }

  /** Each axis coded against the same axis of the previous point. */
  function PointCode(pts: seq<Point>, k: nat): string
    requires k < |pts|
  {
    Emit(ZigZag(pts[k].lat - Prev(pts, k).lat)) + Emit(ZigZag(pts[k].lon - Prev(pts, k).lon))
  }

  /** The codes of the first `n` points, concatenated. */
  function Codes(pts: seq<Point>, n: nat): string
    requires n <= |pts|
  {
    if n == 0 then [] else Codes(pts, n - 1) + PointCode(pts, n - 1)
  }

  predicate AllValid(pts: seq<Point>, n: nat, factor: int)
    requires n <= |pts|
  {
    forall m :: 0 <= m < n ==> ValidPoint(pts[m], factor)
  }

  predicate PointFits(pts: seq<Point>, k: nat)
    requires k < |pts|
  {
    DeltaFits(pts[k].lat - Prev(pts, k).lat) && DeltaFits(pts[k].lon - Prev(pts, k).lon)
  }

  /** Every delta the encoder computes (those of the points up to the first
      invalid one) fits the 32-bit arithmetic of Compress. */
  predicate NoOverflow(pts: seq<Point>, factor: int)
  {
    forall k :: 0 <= k < |pts| ==> AllValid(pts, k + 1, factor) ==> PointFits(pts, k)
  }

  /** EncodeLineString: "" for no points, otherwise the codes of all points,
      or ArgumentOutOfRange if any point is outside [-180, 180]. */
  function LineCode(pts: seq<Point>, factor: int): Result<string>
  {
    if |pts| == 0 then Success([])
    else if AllValid(pts, |pts|, factor) then Success(Codes(pts, |pts|))
    else Failure(ArgumentOutOfRange)
  }

  /** Up to six decimals (a factor of at most 10^6) no valid line overflows. */
  lemma SmallFactorNoOverflow(pts: seq<Point>, factor: int)
    requires 1 <= factor <= 1_000_000
    ensures NoOverflow(pts, factor)
  {
    forall k | 0 <= k < |pts| && AllValid(pts, k + 1, factor)
      ensures PointFits(pts, k)
    {
      assert ValidPoint(pts[k], factor);
      if k > 0 {
        assert ValidPoint(pts[k - 1], factor);
      }
    }
  }

  /** The code of a longer line starts with the code of a shorter one. */
  lemma {:induction false} CodesPrefix(pts: seq<Point>, n: nat, m: nat)
    requires n <= m <= |pts|
    ensures |Codes(pts, n)| <= |Codes(pts, m)| && Codes(pts, m)[..|Codes(pts, n)|] == Codes(pts, n)
    decreases m
  {
    if n < m {
      CodesPrefix(pts, n, m - 1);
      assert Codes(pts, m) == Codes(pts, m - 1) + PointCode(pts, m - 1);
    }
  }

  /** Every character of an encoded line lies in [63, 126]. */
  lemma {:induction false} CodesPrintable(pts: seq<Point>, n: nat)
    requires n <= |pts|
    ensures forall k :: 0 <= k < |Codes(pts, n)| ==> 63 <= Codes(pts, n)[k] as int <= 126
    decreases n
  {
    if n > 0 {
      CodesPrintable(pts, n - 1);
      EmitShape(ZigZag(pts[n - 1].lat - Prev(pts, n - 1).lat));
      EmitShape(ZigZag(pts[n - 1].lon - Prev(pts, n - 1).lon));
    }
  }

  /** A single valid position is coded as its latitude code against 0
      followed by its longitude code against 0. */
  lemma LineCodeOnePoint(p: Point, factor: int)
    requires ValidPoint(p, factor)
    ensures LineCode([p], factor) == Success(Emit(ZigZag(p.lat)) + Emit(ZigZag(p.lon)))
  {
    assert AllValid([p], 1, factor);
    var code := Emit(ZigZag(p.lat)) + Emit(ZigZag(p.lon));
    assert PointCode([p], 0) == code;
    assert Codes([p], 1) == [] + code == code;
  }

  /** Appending a valid position to a valid line appends its codes against
      the last position, and leaves the code already written untouched. */
  lemma LineCodeAppend(pts: seq<Point>, p: Point, factor: int)
    requires |pts| > 0 && AllValid(pts, |pts|, factor) && ValidPoint(p, factor)
    ensures LineCode(pts + [p], factor)
         == Success(LineCode(pts, factor).value
                    + Emit(ZigZag(p.lat - pts[|pts| - 1].lat)) + Emit(ZigZag(p.lon - pts[|pts| - 1].lon)))
  {
    var qs := pts + [p];
    assert AllValid(qs, |qs|, factor) by {
      forall m | 0 <= m < |qs| ensures ValidPoint(qs[m], factor) {
        if m < |pts| {
          assert qs[m] == pts[m];
        }
      }
    }
    assert qs[..|pts|] == pts[..|pts|];
    CodesSamePrefix(pts, qs, |pts|);
    assert Prev(qs, |pts|) == pts[|pts| - 1] && qs[|pts|] == p;
    var a, b := Emit(ZigZag(p.lat - pts[|pts| - 1].lat)), Emit(ZigZag(p.lon - pts[|pts| - 1].lon));
    assert PointCode(qs, |pts|) == a + b;
    assert Codes(qs, |qs|) == Codes(pts, |pts|) + (a + b) == Codes(pts, |pts|) + a + b;
  }

  /** The codes of the first `n` points depend on those points only. */
  lemma {:induction false} CodesSamePrefix(pts: seq<Point>, qs: seq<Point>, n: nat)
    requires n <= |pts| && n <= |qs| && pts[..n] == qs[..n]
    ensures Codes(pts, n) == Codes(qs, n)
    decreases n
  {
    if n > 0 {
      assert pts[..n - 1] == qs[..n - 1] by {
        assert pts[..n - 1] == pts[..n][..n - 1];
        assert qs[..n - 1] == qs[..n][..n - 1];
      }
      CodesSamePrefix(pts, qs, n - 1);
      assert pts[n - 1] == pts[..n][n - 1] && qs[n - 1] == qs[..n][n - 1];
      if n > 1 {
        assert pts[n - 2] == pts[..n][n - 2] && qs[n - 2] == qs[..n][n - 2];
      }
      assert PointCode(pts, n - 1) == PointCode(qs, n - 1);
    }
  }

  /** The codes of one more position: its codes against the previous one
      appended. */
  lemma CodesNext(pts: seq<Point>, n: nat)
    requires 1 <= n < |pts|
    ensures Codes(pts, n + 1)
         == Codes(pts, n) + Emit(ZigZag(pts[n].lat - pts[n - 1].lat)) + Emit(ZigZag(pts[n].lon - pts[n - 1].lon))
  {
    var a, b := Emit(ZigZag(pts[n].lat - pts[n - 1].lat)), Emit(ZigZag(pts[n].lon - pts[n - 1].lon));
    assert PointCode(pts, n) == a + b;
    assert Codes(pts, n) + (a + b) == Codes(pts, n) + a + b;
  }

  /** A line with a position outside [-180, 180] degrees is rejected, however
      many valid positions come before it. */
  lemma LineCodeRejects(pts: seq<Point>, k: nat, factor: int)
    requires k < |pts| && !ValidPoint(pts[k], factor)
    ensures LineCode(pts, factor) == Failure(ArgumentOutOfRange)
  {
    assert !AllValid(pts, |pts|, factor);
  }

  /** The sum of the first `n` deltas of each axis. */
  function DeltaSum(pts: seq<Point>, n: nat): Point
    requires n <= |pts|
  {
    if n == 0 then Point(0, 0)
    else
      var s := DeltaSum(pts, n - 1);
      Point(s.lat + (pts[n - 1].lat - Prev(pts, n - 1).lat), s.lon + (pts[n - 1].lon - Prev(pts, n - 1).lon))
  }

  /** The deltas of each axis telescope: the first `n` of them add up to the
      `n`-th position. */
  lemma {:induction false} DeltasTelescope(pts: seq<Point>, n: nat)
    requires 1 <= n <= |pts|
    ensures DeltaSum(pts, n) == pts[n - 1]
  {
    if n > 1 {
      DeltasTelescope(pts, n - 1);
    }
  }
}
