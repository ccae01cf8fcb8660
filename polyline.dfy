/**
 * `decodePolyline` from the map component: Google's Encoded Polyline
 * Algorithm Format. Each value is a run of 5-bit chunks, least significant
 * first, each character carrying `chunk + 63` and a continuation bit 0x20; the
 * value is zigzag sign-encoded and is a delta from the previous point.
 *
 * Points are kept in integer units of 1e-5 degrees (the source divides by 1e5
 * only when it pushes a point). A character's code stands for what
 * `charCodeAt` reads; this agrees with JavaScript for characters up to 0xFFFF.
 */
module Polyline {

  /** A decoded point, or a delta between points, in 1e-5 degree units. */
  datatype Point = Point(lat: int, lng: int)

  function Pow2(n: nat): (r: nat)
    ensures r >= 1
  {
    if n == 0 then 1 else 2 * Pow2(n - 1)
  }

  lemma {:induction false} Pow2Add(a: nat, b: nat)
    ensures Pow2(a + b) == Pow2(a) * Pow2(b)
    decreases a
  {
    if a > 0 {
      Pow2Add(a - 1, b);
    }
  }

  lemma Pow2Values()
    ensures Pow2(5) == 32 && Pow2(30) == 0x4000_0000
  {
    assert Pow2(1) == 2 && Pow2(2) == 4 && Pow2(3) == 8 && Pow2(4) == 16 && Pow2(5) == 32;
    Pow2Add(5, 5);
    Pow2Add(10, 10);
    Pow2Add(20, 10);
  }

  lemma {:induction false} Pow2Monotone(a: nat, b: nat)
    requires a <= b
    ensures Pow2(a) <= Pow2(b)
    decreases b
  {
    if a < b {
      Pow2Monotone(a, b - 1);
    }
  }

  // ---------------------------------------------------------------------------
  // Reading one value

  /**
   * `(charCodeAt(i) - 63) & 0x1f`. Dafny's `%` is Euclidean, which is what
   * `& 0x1f` does to a negative two's-complement value. Past the end
   * `charCodeAt` is NaN and `NaN & 0x1f` is 0.
   */
  function Chunk(s: string, i: nat): (c: nat)
    ensures c < 32
  {
    if i < |s| then (s[i] as int - 63) % 32 else 0
  }

  /** `charCodeAt(i) - 63 >= 0x20`; NaN past the end compares false. */
  predicate Continues(s: string, i: nat)
  {
    i < |s| && s[i] as int - 63 >= 32
  }

  /**
   * The raw (zigzagged) value whose first chunk is at `i`, and the index just
   * after its last chunk. Every read advances the index.
   */
  function ReadRaw(s: string, i: nat): (r: (nat, nat))
    ensures r.1 > i
    decreases |s| - i
  {
    if Continues(s, i) then
      var rest := ReadRaw(s, i + 1);
      (Chunk(s, i) + 32 * rest.0, rest.1)
    else
      (Chunk(s, i), i + 1)
  }

  /** Zigzag decoding: `r & 1 ? ~(r >> 1) : r >> 1`. */
  function Unzig(r: nat): int
  {
    if r % 2 == 1 then -(r / 2) - 1 else r / 2
  }

  // ---------------------------------------------------------------------------
  // The specification of the decoder

  /** The (lat, lng) deltas read from index `i` on, one pair per outer iteration. */
  function DeltasFrom(s: string, i: nat): seq<Point>
    decreases |s| - i
  {
    if i >= |s| then []
    else
      var lat := ReadRaw(s, i);
      var lng := ReadRaw(s, lat.1);
      [Point(Unzig(lat.0), Unzig(lng.0))] + DeltasFrom(s, lng.1)
  }

  /** Running sums of `deltas`, starting from (lat, lng). */
  function Accumulate(deltas: seq<Point>, lat: int, lng: int): (r: seq<Point>)
    ensures |r| == |deltas|
    decreases |deltas|
  {
    if deltas == [] then []
    else
      var p := Point(lat + deltas[0].lat, lng + deltas[0].lng);
      [p] + Accumulate(deltas[1..], p.lat, p.lng)
  }

  /** What `decodePolyline` returns, before scaling by 1e-5. */
  function Decode(s: string): seq<Point>
  {
    Accumulate(DeltasFrom(s, 0), 0, 0)
  }

  function SumLat(deltas: seq<Point>): int
    decreases |deltas|
  {
    if deltas == [] then 0 else deltas[0].lat + SumLat(deltas[1..])
  }

  function SumLng(deltas: seq<Point>): int
    decreases |deltas|
  {
    if deltas == [] then 0 else deltas[0].lng + SumLng(deltas[1..])
  }

  /** Point k is the start plus the sum of the first k + 1 deltas. */
  lemma {:induction false} AccumulateAt(deltas: seq<Point>, lat: int, lng: int, k: nat)
    requires k < |deltas|
    ensures Accumulate(deltas, lat, lng)[k] ==
      Point(lat + SumLat(deltas[..k + 1]), lng + SumLng(deltas[..k + 1]))
    decreases k
  {
    var d := deltas[..k + 1];
    assert d[0] == deltas[0];
    if k > 0 {
      var p := Point(lat + deltas[0].lat, lng + deltas[0].lng);
      AccumulateAt(deltas[1..], p.lat, p.lng, k - 1);
      assert deltas[1..][..k] == d[1..];
    } else {
      assert d[1..] == [];
    }
  }

  /**
   * The decoder's output is a running sum: one point per delta pair, and point
   * k is the sum of the first k + 1 decoded deltas.
   */
  lemma DecodeIsRunningSum(s: string, k: nat)
    requires k < |DeltasFrom(s, 0)|
    ensures |Decode(s)| == |DeltasFrom(s, 0)|
    ensures Decode(s)[k] == Point(SumLat(DeltasFrom(s, 0)[..k + 1]), SumLng(DeltasFrom(s, 0)[..k + 1]))
  {
    AccumulateAt(DeltasFrom(s, 0), 0, 0, k);
  }

  /** The empty string decodes to no points. */
  lemma DecodeEmpty()
    ensures Decode("") == []
  {
  }

  /** The index at which the outer loop stops. */
  function EndOf(s: string, i: nat): (e: nat)
    ensures e >= i && e >= |s|
    decreases |s| - i
  {
    if i >= |s| then i
    else
      var j := ReadRaw(s, i).1;
      EndOf(s, ReadRaw(s, j).1)
  }

  // ---------------------------------------------------------------------------
  // The decoder itself

  /** Number of continuation characters in a row from `i`. */
  function RunLength(s: string, i: nat): nat
    decreases |s| - i
  {
    if Continues(s, i) then 1 + RunLength(s, i + 1) else 0
  }

  /**
   * No value spans more than six characters. Then `shift` stays at most 25 and
   * every intermediate result stays below 2^30, so JavaScript's 32-bit `|=`,
   * `<<`, `>>`, `&` and `~` agree with the integer arithmetic used here.
   */
  predicate ShortValues(s: string)
  {
    forall i :: 0 <= i < |s| ==> RunLength(s, i) <= 5
  }

  method DecodePolyline(encoded: string) returns (points: seq<Point>, index: nat)
    requires ShortValues(encoded)
    ensures points == Decode(encoded)
    ensures index == EndOf(encoded, 0) && index >= |encoded|
  {
    points := [];
    index := 0;
    var lat, lng := 0, 0;
    while index < |encoded|
      invariant points + Accumulate(DeltasFrom(encoded, index), lat, lng) == Decode(encoded)
      invariant EndOf(encoded, index) == EndOf(encoded, 0)
      decreases |encoded| - index
    {
      DecodeStep(encoded, index);
      var rawLat, next := ReadValue(encoded, index);
      var rawLng, after := ReadValue(encoded, next);
      AccumulateStep(points, Point(Unzig(rawLat), Unzig(rawLng)), DeltasFrom(encoded, after), lat, lng);
      lat := lat + Unzig(rawLat);
      lng := lng + Unzig(rawLng);
      points := points + [Point(lat, lng)];
      index := after;
    }
  }

  /**
   * One inner `do … while (b >= 0x20)` loop: reads the chunks of the value
   * starting at `index` and returns it with the index after its last chunk.
   */
  method ReadValue(encoded: string, index: nat) returns (result: nat, next: nat)
    requires ShortValues(encoded)
    ensures result == ReadRaw(encoded, index).0 && next == ReadRaw(encoded, index).1
  {
    ghost var start := index;
    next := index;
    var shift: nat := 0;
    result := 0;
    assert RunLength(encoded, start) <= 5;
    while true
      invariant ReadSoFar(encoded, start, next, result, shift)
      decreases ReadRaw(encoded, start).1 - next
    {
      // b = encoded.charCodeAt(index++) - 63; past the end charCodeAt is NaN
      var nan := next >= |encoded|;
      var b := if nan then 0 else encoded[next] as int - 63;
      var chunk := if nan then 0 else b % 32;
      ReadStep(encoded, start, next, result, shift);
      // `result |= (b & 0x1f) << shift`: the bits are disjoint, so `|` is `+`
      result := result + chunk * Pow2(shift);
      assert result < 0x4000_0000;
      shift := shift + 5;
      next := next + 1;
      if nan || b < 32 {
        break;
      }
    }
  }

  /**
   * The inner loop's invariant: the chunks read so far, from `start` up to
   * `next`, make up `result`, and the rest of the value is still to come.
   */
  ghost predicate ReadSoFar(s: string, start: nat, next: nat, result: nat, shift: nat)
  {
    && start <= next < ReadRaw(s, start).1
    && ReadRaw(s, next).1 == ReadRaw(s, start).1
    && result + Pow2(shift) * ReadRaw(s, next).0 == ReadRaw(s, start).0
    && shift == 5 * (next - start)
    && RunLength(s, start) == (next - start) + RunLength(s, next)
    && result < Pow2(shift)
  }

  /** One iteration of the inner loop keeps ReadSoFar, or ends with the whole value. */
  lemma ReadStep(s: string, start: nat, next: nat, result: nat, shift: nat)
    requires ShortValues(s) && ReadSoFar(s, start, next, result, shift)
    ensures var r := result + Chunk(s, next) * Pow2(shift);
      && r < 0x4000_0000
      && (Continues(s, next) ==> ReadSoFar(s, start, next + 1, r, shift + 5))
      && (!Continues(s, next) ==> r == ReadRaw(s, start).0 && next + 1 == ReadRaw(s, start).1)
  {
    assert RunLength(s, start) <= 5;
    ShiftStep(s, next, result, shift);
  }

  /** One chunk read: the running value stays below 2^(shift + 5) and below 2^30. */
  lemma ShiftStep(s: string, i: nat, result: nat, shift: nat)
    requires result < Pow2(shift) && shift <= 25
    ensures result + Chunk(s, i) * Pow2(shift) < Pow2(shift + 5) <= 0x4000_0000
    ensures Continues(s, i) ==>
      result + Pow2(shift) * ReadRaw(s, i).0 ==
        (result + Chunk(s, i) * Pow2(shift)) + Pow2(shift + 5) * ReadRaw(s, i + 1).0
    ensures !Continues(s, i) ==> result + Pow2(shift) * ReadRaw(s, i).0 == result + Chunk(s, i) * Pow2(shift)
  {
    var p, c := Pow2(shift), Chunk(s, i);
    Pow2Add(shift, 5);
    Pow2Values();
    Pow2Monotone(shift + 5, 30);
    assert Pow2(shift + 5) == p * 32;
    ChunkBound(result, p, c);
    if Continues(s, i) {
      var v := ReadRaw(s, i + 1).0;
      assert ReadRaw(s, i).0 == c + 32 * v;
      Distribute(result, p, c, v);
    } else {
      assert ReadRaw(s, i).0 == c;
    }
  }

  lemma ChunkBound(result: int, p: int, c: int)
    requires 0 <= result < p && 0 <= c < 32
    ensures result + c * p < p * 32
  {
    assert c * p <= 31 * p;
  }

  lemma Distribute(result: int, p: int, c: int, v: int)
    ensures result + p * (c + 32 * v) == (result + c * p) + (p * 32) * v
  {
  }

  // ---------------------------------------------------------------------------
  // The encoder (the format's other half) and the round trip

  /** Zigzag encoding: non-negative v to 2v, negative v to -2v - 1. */
  function Zig(v: int): nat
  {
    if v < 0 then -2 * v - 1 else 2 * v
  }

  lemma ZigUnzig(v: int)
    ensures Unzig(Zig(v)) == v
  {
  }

  /** Chunks of n, least significant first, each `+ 63`, all but the last with 0x20 set. */
  function EncodeRaw(n: nat): (r: string)
    ensures 1 <= |r|
    ensures forall k :: 0 <= k < |r| ==> 63 <= r[k] as int <= 126
    decreases n
  {
    if n < 32 then [(n + 63) as char]
    else [(n % 32 + 32 + 63) as char] + EncodeRaw(n / 32)
  }

  /** Each delta pair as two encoded values. */
  function EncodeDeltas(deltas: seq<Point>): string
    decreases |deltas|
  {
    if deltas == [] then ""
    else EncodeRaw(Zig(deltas[0].lat)) + EncodeRaw(Zig(deltas[0].lng)) + EncodeDeltas(deltas[1..])
  }

  /** Differences between consecutive points, the first taken from (lat, lng). */
  function Differences(points: seq<Point>, lat: int, lng: int): (r: seq<Point>)
    ensures |r| == |points|
    decreases |points|
  {
    if points == [] then []
    else [Point(points[0].lat - lat, points[0].lng - lng)] + Differences(points[1..], points[0].lat, points[0].lng)
  }

  /** The standard encoding of a point list. */
  function Encode(points: seq<Point>): string
  {
    EncodeDeltas(Differences(points, 0, 0))
  }

  /** Reading an encoded value back yields it and stops right after its last character. */
  lemma {:induction false} ReadEncoded(s: string, i: nat, n: nat)
    requires i + |EncodeRaw(n)| <= |s| && s[i..i + |EncodeRaw(n)|] == EncodeRaw(n)
    ensures ReadRaw(s, i) == (n, i + |EncodeRaw(n)|)
    decreases n
  {
    var e := EncodeRaw(n);
    assert s[i] == e[0];
    if n >= 32 {
      assert s[i + 1..i + |e|] == e[1..] == EncodeRaw(n / 32);
      ReadEncoded(s, i + 1, n / 32);
    }
  }

  /** The two encoded values of the first delta pair, and what follows them. */
  lemma SplitPair(s: string, i: nat, deltas: seq<Point>)
    requires deltas != [] && i <= |s| && s[i..] == EncodeDeltas(deltas)
    ensures var a, b := EncodeRaw(Zig(deltas[0].lat)), EncodeRaw(Zig(deltas[0].lng));
      && i + |a| + |b| <= |s|
      && s[i..i + |a|] == a
      && s[i + |a|..i + |a| + |b|] == b
      && s[i + |a| + |b|..] == EncodeDeltas(deltas[1..])
  {
    var a, b := EncodeRaw(Zig(deltas[0].lat)), EncodeRaw(Zig(deltas[0].lng));
    SplitThree(s, i, a, b, EncodeDeltas(deltas[1..]));
  }

  /** A suffix made of three parts, located in the whole sequence. */
  lemma SplitThree(s: string, i: nat, a: string, b: string, rest: string)
    requires i <= |s| && s[i..] == a + b + rest
    ensures && i + |a| + |b| <= |s|
            && s[i..i + |a|] == a
            && s[i + |a|..i + |a| + |b|] == b
            && s[i + |a| + |b|..] == rest
  {
    var t := s[i..];
    assert s[i..i + |a|] == t[..|a|] == a;
    assert s[i + |a|..i + |a| + |b|] == t[|a|..|a| + |b|] == b;
    assert s[i + |a| + |b|..] == t[|a| + |b|..] == rest;
  }

  /**
   * Reading the first pair of an encoded delta list gives its two zigzagged
   * values and leaves the encoding of the remaining deltas.
   */
  lemma ReadPair(s: string, i: nat, deltas: seq<Point>)
    requires deltas != [] && i <= |s| && s[i..] == EncodeDeltas(deltas)
    ensures var j := ReadRaw(s, i).1;
      var k := ReadRaw(s, j).1;
      && i < |s|
      && ReadRaw(s, i).0 == Zig(deltas[0].lat)
      && ReadRaw(s, j).0 == Zig(deltas[0].lng)
      && k <= |s|
      && s[k..] == EncodeDeltas(deltas[1..])
  {
    var a, b := EncodeRaw(Zig(deltas[0].lat)), EncodeRaw(Zig(deltas[0].lng));
    SplitPair(s, i, deltas);
    ReadEncoded(s, i, Zig(deltas[0].lat));
    assert ReadRaw(s, i).1 == i + |a|;
    ReadEncoded(s, i + |a|, Zig(deltas[0].lng));
    assert ReadRaw(s, i + |a|).1 == i + |a| + |b|;
  }

  /** Parsing an encoding from its start gives back the deltas. */
  lemma {:induction false} DeltasOfEncoding(s: string, i: nat, deltas: seq<Point>)
    requires i <= |s| && s[i..] == EncodeDeltas(deltas)
    ensures DeltasFrom(s, i) == deltas
    decreases |deltas|
  {
    if deltas != [] {
      ReadPair(s, i, deltas);
      var j := ReadRaw(s, i).1;
      var k := ReadRaw(s, j).1;
      DecodeStep(s, i);
      DeltasOfEncoding(s, k, deltas[1..]);
      ZigUnzig(deltas[0].lat);
      ZigUnzig(deltas[0].lng);
    }
  }

  lemma {:induction false} AccumulateDifferences(points: seq<Point>, lat: int, lng: int)
    ensures Accumulate(Differences(points, lat, lng), lat, lng) == points
    decreases |points|
  {
    if points != [] {
      AccumulateDifferences(points[1..], points[0].lat, points[0].lng);
    }
  }

  /** The decoder inverts the Encoded Polyline Algorithm Format. */
  lemma DecodeEncode(points: seq<Point>)
    ensures Decode(Encode(points)) == points
  {
    DeltasOfEncoding(Encode(points), 0, Differences(points, 0, 0));
    AccumulateDifferences(points, 0, 0);
  }

  /** On an encoding the outer loop ends exactly at the end of the string. */
  lemma {:induction false} EncodingEndsAtLength(s: string, i: nat, deltas: seq<Point>)
    requires i <= |s| && s[i..] == EncodeDeltas(deltas)
    ensures EndOf(s, i) == |s|
    decreases |deltas|
  {
    if deltas == [] {
      assert |s[i..]| == 0;
    } else {
      ReadPair(s, i, deltas);
      DecodeStep(s, i);
      EncodingEndsAtLength(s, ReadRaw(s, ReadRaw(s, i).1).1, deltas[1..]);
    }
  }

  /** One outer iteration: a (lat, lng) pair is read and the rest follows it. */
  lemma DecodeStep(s: string, i: nat)
    requires i < |s|
    ensures var j := ReadRaw(s, i).1;
      var k := ReadRaw(s, j).1;
      && DeltasFrom(s, i) == [Point(Unzig(ReadRaw(s, i).0), Unzig(ReadRaw(s, j).0))] + DeltasFrom(s, k)
      && EndOf(s, i) == EndOf(s, k)
  {
  }

  /** Taking one delta moves one point from the pending running sums to the output. */
  lemma AccumulateStep(points: seq<Point>, d: Point, rest: seq<Point>, lat: int, lng: int)
    ensures points + Accumulate([d] + rest, lat, lng) ==
      (points + [Point(lat + d.lat, lng + d.lng)]) + Accumulate(rest, lat + d.lat, lng + d.lng)
  {
    assert ([d] + rest)[1..] == rest;
  }

  /** Inside an encoded value, the run of continuation characters ends at its last character. */
  lemma {:induction false} EncodedRun(s: string, i: nat, n: nat, k: nat)
    requires i + |EncodeRaw(n)| <= |s| && s[i..i + |EncodeRaw(n)|] == EncodeRaw(n)
    requires k < |EncodeRaw(n)|
    ensures RunLength(s, i + k) == |EncodeRaw(n)| - 1 - k
    decreases n
  {
    var e := EncodeRaw(n);
    assert s[i + k] == e[k];
    if n >= 32 {
      assert s[i + 1..i + |e|] == e[1..] == EncodeRaw(n / 32);
      if k == 0 {
        EncodedRun(s, i + 1, n / 32, 0);
      } else {
        EncodedRun(s, i + 1, n / 32, k - 1);
      }
    }
  }

  /** A value below 2^(5m) takes at most m characters. */
  lemma {:induction false} EncodeRawLength(n: nat, m: nat)
    requires 1 <= m && n < Pow2(5 * m)
    ensures |EncodeRaw(n)| <= m
    decreases n
  {
    if n >= 32 {
      Pow2Add(5, 5 * (m - 1));
      Pow2Values();
      assert m >= 2;
      EncodeRawLength(n / 32, m - 1);
    }
  }

  /** Deltas whose zigzagged values fit in 30 bits. */
  predicate SmallDeltas(deltas: seq<Point>)
  {
    forall k :: 0 <= k < |deltas| ==> Zig(deltas[k].lat) < 0x4000_0000 && Zig(deltas[k].lng) < 0x4000_0000
  }

  /** A zigzagged value fits in 30 bits exactly when -2^29 <= v < 2^29. */
  lemma ZigRange(v: int)
    ensures Zig(v) < 0x4000_0000 <==> -0x2000_0000 <= v < 0x2000_0000
  {
  }

  /**
   * Every delta between real coordinates, at most 360 degrees or 36,000,000
   * units of 1e-5 degree, is small.
   */
  lemma {:induction false} CoordinateDeltasSmall(deltas: seq<Point>)
    requires forall k :: 0 <= k < |deltas| ==>
      -36_000_000 <= deltas[k].lat <= 36_000_000 && -36_000_000 <= deltas[k].lng <= 36_000_000
    ensures SmallDeltas(deltas)
  {
    forall k | 0 <= k < |deltas|
      ensures Zig(deltas[k].lat) < 0x4000_0000 && Zig(deltas[k].lng) < 0x4000_0000
    {
      ZigRange(deltas[k].lat);
      ZigRange(deltas[k].lng);
    }
  }

  lemma {:induction false} EncodeDeltasShort(s: string, i: nat, deltas: seq<Point>, j: nat)
    requires SmallDeltas(deltas)
    requires i <= j < |s| && s[i..] == EncodeDeltas(deltas)
    ensures RunLength(s, j) <= 5
    decreases |deltas|
  {
    assert deltas != [] by { assert |s[i..]| > 0; }
    var x, y := Zig(deltas[0].lat), Zig(deltas[0].lng);
    var a, b := EncodeRaw(x), EncodeRaw(y);
    assert x < 0x4000_0000 && y < 0x4000_0000;
    SplitPair(s, i, deltas);
    if j < i + |a| + |b| {
      PairShort(s, i, x, y, j);
    } else {
      SmallDeltasTail(deltas);
      EncodeDeltasShort(s, i + |a| + |b|, deltas[1..], j);
    }
  }

  lemma SmallDeltasTail(deltas: seq<Point>)
    requires deltas != [] && SmallDeltas(deltas)
    ensures SmallDeltas(deltas[1..])
  {
    forall k | 0 <= k < |deltas[1..]|
      ensures Zig(deltas[1..][k].lat) < 0x4000_0000 && Zig(deltas[1..][k].lng) < 0x4000_0000
    {
      assert deltas[1..][k] == deltas[k + 1];
    }
  }

  /** Within one encoded pair of values below 2^30, no run of continuation characters exceeds five. */
  lemma PairShort(s: string, i: nat, x: nat, y: nat, j: nat)
    requires x < 0x4000_0000 && y < 0x4000_0000
    requires i + |EncodeRaw(x)| + |EncodeRaw(y)| <= |s|
    requires s[i..i + |EncodeRaw(x)|] == EncodeRaw(x)
    requires s[i + |EncodeRaw(x)|..i + |EncodeRaw(x)| + |EncodeRaw(y)|] == EncodeRaw(y)
    requires i <= j < i + |EncodeRaw(x)| + |EncodeRaw(y)|
    ensures RunLength(s, j) <= 5
  {
    if j < i + |EncodeRaw(x)| {
      ShortValue(s, i, x, j);
    } else {
      ShortValue(s, i + |EncodeRaw(x)|, y, j);
    }
  }

  /** Within one encoded value below 2^30, no run of continuation characters exceeds five. */
  lemma ShortValue(s: string, i: nat, n: nat, j: nat)
    requires n < 0x4000_0000
    requires i + |EncodeRaw(n)| <= |s| && s[i..i + |EncodeRaw(n)|] == EncodeRaw(n)
    requires i <= j < i + |EncodeRaw(n)|
    ensures RunLength(s, j) <= 5
  {
    Pow2Values();
    EncodeRawLength(n, 6);
    EncodedRun(s, i, n, j - i);
  }

  /**
   * An encoding of points whose deltas zigzag below 2^30, that is
   * -2^29 <= delta < 2^29, meets the decoder's precondition, so
   * DecodePolyline returns the points.
   */
  lemma EncodingIsShort(points: seq<Point>)
    requires SmallDeltas(Differences(points, 0, 0))
    ensures ShortValues(Encode(points))
    ensures EndOf(Encode(points), 0) == |Encode(points)|
  {
    var s := Encode(points);
    forall j | 0 <= j < |s| ensures RunLength(s, j) <= 5 {
      EncodeDeltasShort(s, 0, Differences(points, 0, 0), j);
    }
    EncodingEndsAtLength(s, 0, Differences(points, 0, 0));
  }
}
