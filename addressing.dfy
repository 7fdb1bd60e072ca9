/**
 * Flat addressing used by an EOgmaNeo layer.
 *
 * A layer keeps one weight vector per (visible layer, hidden unit) pair in a
 * single flat vector, at index `v + V * (x + y * hiddenWidth)`. That index is a
 * mixed-radix number with digits v (radix V), x (radix hiddenWidth) and y. The
 * same two-digit encoding also numbers the `chunkSize * chunkSize` bits of a
 * square chunk, and a chunked code names one of those bits per chunk.
 */
module Addressing {

  /** The largest value of the source's 32-bit `int`. */
  const MaxInt: int := 0x7fff_ffff

  // ---------------------------------------------------------------------------
  // Two-digit mixed radix

  /** The number whose low digit (radix `radix`) is `low` and whose high part is `high`. */
  function Join(radix: int, low: int, high: int): int
  {
    low + radix * high
  }

  lemma MulLeftMonotone(a: int, b: int, c: int)
    requires a >= 0 && b <= c
    ensures a * b <= a * c
  {
  }

  /** Euclidean division has exactly one quotient and remainder. */
  lemma DivModUnique(n: int, d: int, q: int, r: int)
    requires d > 0 && 0 <= r < d && n == d * q + r
    ensures n / d == q && n % d == r
  {
    var q', r' := n / d, n % d;
    assert d * (q - q') == r' - r;
    if q > q' {
      MulLeftMonotone(d, 1, q - q');
      assert false;
    } else if q < q' {
      MulLeftMonotone(d, q - q', -1);
      assert false;
    }
  }

  /** An in-range low digit and a high part in [0, highCount) give a number in [0, radix * highCount). */
  lemma JoinBounds(radix: int, low: int, high: int, highCount: int)
    requires 0 <= low < radix && 0 <= high < highCount
    ensures 0 <= Join(radix, low, high) < radix * highCount
  {
    MulLeftMonotone(radix, 0, high);
    MulLeftMonotone(radix, high, highCount - 1);
    assert radix * (highCount - 1) == radix * highCount - radix;
  }

  /** `%` and `/` by the radix give back the two digits of a joined number. */
  lemma JoinSplit(radix: int, low: int, high: int)
    requires 0 <= low < radix
    ensures Join(radix, low, high) % radix == low
    ensures Join(radix, low, high) / radix == high
  {
    DivModUnique(Join(radix, low, high), radix, high, low);
  }

  /** Dividing by `a` and then by `b` is dividing by `a * b`. */
  lemma DivDiv(n: int, a: int, b: int)
    requires a > 0 && b > 0
    ensures n / a / b == n / (a * b)
  {
    var q1, r1 := n / a, n % a;
    var q2, r2 := q1 / b, q1 % b;
    assert n == a * (b * q2 + r2) + r1;
    assert n == (a * b) * q2 + (a * r2 + r1) by {
      assert a * (b * q2 + r2) == (a * b) * q2 + a * r2;
    }
    JoinBounds(a, r1, r2, b);
    DivModUnique(n, a * b, q2, a * r2 + r1);
  }

  // ---------------------------------------------------------------------------
  // The (visible layer, hidden x, hidden y) weight index

  /** A weight-vector address: visible layer `v` and hidden unit (`x`, `y`). */
  datatype UnitCoord = UnitCoord(v: int, x: int, y: int)

  /** `c` addresses a real weight vector of a layer with these dimensions. */
  predicate InGrid(numVisible: int, width: int, height: int, c: UnitCoord)
  {
    0 <= c.v < numVisible && 0 <= c.x < width && 0 <= c.y < height
  }

  /** The flat index of the weight vector for `c`: `v + V * (x + y * hiddenWidth)`. */
  function UnitIndex(numVisible: int, width: int, c: UnitCoord): int
  {
    c.v + numVisible * (c.x + c.y * width)
  }

  /** The address stored at flat index `i`: the inverse of `UnitIndex`. */
  function UnitCoordOf(numVisible: int, width: int, i: int): UnitCoord
    requires numVisible > 0 && width > 0
  {
    UnitCoord(i % numVisible, (i / numVisible) % width, i / (numVisible * width))
  }

  /** Every in-grid address lands inside a flat vector of `V * hiddenWidth * hiddenHeight` entries. */
  lemma UnitIndexInRange(numVisible: int, width: int, height: int, c: UnitCoord)
    requires InGrid(numVisible, width, height, c)
    ensures 0 <= UnitIndex(numVisible, width, c) < numVisible * width * height
  {
    JoinBounds(width, c.x, c.y, height);
    assert c.x + c.y * width == Join(width, c.x, c.y);
    JoinBounds(numVisible, c.v, Join(width, c.x, c.y), width * height);
    assert numVisible * (width * height) == numVisible * width * height;
  }

  /**
   * Decoding an index recovers its address: `v = i % V`, `x = (i / V) % hiddenWidth`,
   * `y = i / (V * hiddenWidth)`. Only v and x need be in range; y may be any row.
   */
  lemma UnitCoordRoundTrip(numVisible: int, width: int, c: UnitCoord)
    requires 0 <= c.v < numVisible && 0 <= c.x < width
    ensures UnitCoordOf(numVisible, width, UnitIndex(numVisible, width, c)) == c
  {
    var i := UnitIndex(numVisible, width, c);
    var inner := c.x + c.y * width;
    assert inner == Join(width, c.x, c.y);
    assert i == Join(numVisible, c.v, inner);
    JoinSplit(numVisible, c.v, inner);
    JoinSplit(width, c.x, c.y);
    DivDiv(i, numVisible, width);
  }

  /** A quotient by `d` of a number in [0, d * count) lies in [0, count). */
  lemma DivBounds(n: int, d: int, count: int)
    requires d > 0 && 0 <= n < d * count
    ensures 0 <= n / d < count
  {
  }

  /** Every index of the flat vector is the index of exactly the in-grid address it decodes to. */
  lemma UnitIndexRoundTrip(numVisible: int, width: int, height: int, i: int)
    requires numVisible > 0 && width > 0
    requires 0 <= i < numVisible * width * height
    ensures InGrid(numVisible, width, height, UnitCoordOf(numVisible, width, i))
    ensures UnitIndex(numVisible, width, UnitCoordOf(numVisible, width, i)) == i
  {
    var c := UnitCoordOf(numVisible, width, i);
    var q := i / numVisible;
    DivModUnique(i, numVisible, q, c.v);
    assert i == Join(numVisible, c.v, q);
    assert numVisible * width * height == numVisible * (width * height);
    DivBounds(i, numVisible, width * height);
    DivDiv(i, numVisible, width);
    DivModUnique(q, width, c.y, c.x);
    assert q == Join(width, c.x, c.y);
    DivBounds(q, width, height);
  }

  /**
   * The index of an in-grid address is the one slot of the flat vector that
   * decodes to that address.
   */
  lemma UnitIndexIsOnlySlot(numVisible: int, width: int, height: int, c: UnitCoord)
    requires InGrid(numVisible, width, height, c)
    ensures 0 <= UnitIndex(numVisible, width, c) < numVisible * width * height
    ensures UnitCoordOf(numVisible, width, UnitIndex(numVisible, width, c)) == c
    ensures forall j :: 0 <= j < numVisible * width * height && UnitCoordOf(numVisible, width, j) == c ==>
      j == UnitIndex(numVisible, width, c)
  {
    UnitIndexInRange(numVisible, width, height, c);
    UnitCoordRoundTrip(numVisible, width, c);
    forall j | 0 <= j < numVisible * width * height && UnitCoordOf(numVisible, width, j) == c
      ensures j == UnitIndex(numVisible, width, c)
    {
      UnitIndexRoundTrip(numVisible, width, height, j);
    }
  }

  /** Distinct addresses never share a weight vector: the index is injective. */
  lemma UnitIndexInjective(numVisible: int, width: int, c: UnitCoord, d: UnitCoord)
    requires 0 <= c.v < numVisible && 0 <= c.x < width
    requires 0 <= d.v < numVisible && 0 <= d.x < width
    requires UnitIndex(numVisible, width, c) == UnitIndex(numVisible, width, d)
    ensures c == d
  {
    UnitCoordRoundTrip(numVisible, width, c);
    UnitCoordRoundTrip(numVisible, width, d);
  }

  /**
   * A triple outside the grid whose index still lands in the flat vector names
   * the weight vector of a different, in-grid unit.
   */
  lemma OffGridIndexIsAnotherUnit(numVisible: int, width: int, height: int, c: UnitCoord)
    requires numVisible > 0 && width > 0
    requires !InGrid(numVisible, width, height, c)
    requires 0 <= UnitIndex(numVisible, width, c) < numVisible * width * height
    ensures InGrid(numVisible, width, height, UnitCoordOf(numVisible, width, UnitIndex(numVisible, width, c)))
    ensures UnitCoordOf(numVisible, width, UnitIndex(numVisible, width, c)) != c
  {
    UnitIndexRoundTrip(numVisible, width, height, UnitIndex(numVisible, width, c));
  }

  /**
   * In the source, `y * hiddenWidth` and `x + y * hiddenWidth` are computed in
   * 32-bit `int`; the product by the descriptor count and the addition of `v` are
   * computed in `size_t`, and the result is narrowed to `int`. When the flat vector
   * has at most 2^31 entries, the two `int` intermediates do not overflow and the
   * narrowed index is the mathematical one, so nothing wraps around.
   */
  lemma UnitIndexFitsInt(numVisible: int, width: int, height: int, c: UnitCoord)
    requires InGrid(numVisible, width, height, c)
    requires numVisible * width * height <= MaxInt + 1
    ensures 0 <= c.y * width <= c.x + c.y * width <= MaxInt
    ensures 0 <= UnitIndex(numVisible, width, c) <= MaxInt
  {
    UnitIndexInRange(numVisible, width, height, c);
    MulLeftMonotone(width, 0, c.y);
    JoinBounds(width, c.x, c.y, height);
    MulLeftMonotone(c.x + c.y * width, 1, numVisible);
    assert c.x + c.y * width <= UnitIndex(numVisible, width, c);
  }

  // ---------------------------------------------------------------------------
  // Chunks and chunked codes

  /** A chunk of side ("diameter") `chunkSize` holds `chunkSize * chunkSize` bits. */
  function ChunkBits(chunkSize: int): int
  {
    chunkSize * chunkSize
  }

  /** Numbering the positions of a chunk: each (dx, dy) inside the square gets a distinct bit in [0, chunkSize²). */
  lemma ChunkPositionIsBit(chunkSize: int, dx: int, dy: int)
    requires 0 <= dx < chunkSize && 0 <= dy < chunkSize
    ensures 0 <= Join(chunkSize, dx, dy) < ChunkBits(chunkSize)
    ensures Join(chunkSize, dx, dy) % chunkSize == dx && Join(chunkSize, dx, dy) / chunkSize == dy
  {
    JoinBounds(chunkSize, dx, dy, chunkSize);
    JoinSplit(chunkSize, dx, dy);
  }

  /** ... and every bit in [0, chunkSize²) is the number of a position inside the square. */
  lemma ChunkBitIsPosition(chunkSize: int, b: int)
    requires chunkSize > 0 && 0 <= b < ChunkBits(chunkSize)
    ensures 0 <= b % chunkSize < chunkSize && 0 <= b / chunkSize < chunkSize
    ensures Join(chunkSize, b % chunkSize, b / chunkSize) == b
  {
  }

  /** Chunks per grid: whole chunks along each axis. */
  function ChunkCount(width: int, height: int, chunkSize: int): int
    requires chunkSize > 0
  {
    (width / chunkSize) * (height / chunkSize)
  }

  /** A chunked code of a grid: one entry per chunk, each naming one of the chunk's bits. */
  predicate IsChunkedCode(code: seq<int>, width: int, height: int, chunkSize: int)
  {
    && chunkSize > 0
    && |code| == ChunkCount(width, height, chunkSize)
    && forall c :: 0 <= c < |code| ==> 0 <= code[c] < ChunkBits(chunkSize)
  }

  /** The dense bits of one chunk of `n` bits whose winner is `winner`. */
  function Indicator(n: nat, winner: int): (bits: seq<bool>)
    ensures |bits| == n
    ensures forall b :: 0 <= b < n ==> (bits[b] <==> b == winner)
  {
    if n == 0 then [] else Indicator(n - 1, winner) + [n - 1 == winner]
  }

  /** How many bits are set. */
  function CountActive(bits: seq<bool>): (k: nat)
    ensures k <= |bits|
  {
    if bits == [] then 0
    else CountActive(bits[..|bits| - 1]) + (if bits[|bits| - 1] then 1 else 0)
  }

  lemma {:induction false} IndicatorCount(n: nat, winner: int)
    ensures CountActive(Indicator(n, winner)) == if 0 <= winner < n then 1 else 0
  {
    if n > 0 {
      IndicatorCount(n - 1, winner);
      var bits := Indicator(n, winner);
      assert bits[..n - 1] == Indicator(n - 1, winner);
    }
  }

  /** The dense bits of a chunk of side `chunkSize` whose chunked-code entry is `winner`. */
  function ChunkBitmap(chunkSize: int, winner: int): (bits: seq<bool>)
    requires chunkSize >= 0
    ensures |bits| == ChunkBits(chunkSize)
  {
    MulLeftMonotone(chunkSize, 0, chunkSize);
    Indicator(chunkSize * chunkSize, winner)
  }

  /** A chunk has exactly one active bit when its entry names one of its bits, and none otherwise. */
  lemma ChunkHasOneActiveBit(chunkSize: int, winner: int)
    requires chunkSize >= 0
    ensures CountActive(ChunkBitmap(chunkSize, winner)) == 1 <==> 0 <= winner < ChunkBits(chunkSize)
    ensures CountActive(ChunkBitmap(chunkSize, winner)) <= 1
  {
    MulLeftMonotone(chunkSize, 0, chunkSize);
    IndicatorCount(chunkSize * chunkSize, winner);
  }

  /** In a chunked code every chunk has exactly one active bit. */
  lemma ChunkedCodeOneWinnerPerChunk(code: seq<int>, width: int, height: int, chunkSize: int)
    requires IsChunkedCode(code, width, height, chunkSize)
    ensures forall c :: 0 <= c < |code| ==> CountActive(ChunkBitmap(chunkSize, code[c])) == 1
  {
    forall c | 0 <= c < |code|
      ensures CountActive(ChunkBitmap(chunkSize, code[c])) == 1
    {
      ChunkHasOneActiveBit(chunkSize, code[c]);
    }
  }
}
