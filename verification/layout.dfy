/**
  The fixed cell layout of the histogram: how an unsigned 64-bit sample is
  mapped to a (bucket, low bits) cell, and the inverse mapping from a cell to
  its representative (smallest) value.

  Cells are also numbered linearly, `Index(c) == c.bucket * LowBits + c.lowBits`,
  which is the row-major order in which the cursors walk the counter grid.
 */
module Layout {
  import opened Options

  /** Extra significant bits kept below the leading one bit. */
  const Bits: nat := 4
  /** Number of buckets: one linear bucket plus one per binary order of magnitude. */
  const Buckets: nat := 64 - Bits + 1
  /** Sub-buckets per bucket, `2^Bits`. */
  const LowBits: nat := 16
  /** Number of cells of the grid. */
  const Cells: nat := Buckets * LowBits

  /** Exclusive upper bound of `unsigned long`. */
  const U64Limit: nat := 0x1_0000_0000_0000_0000

  type U64 = x: nat | x < U64Limit

  datatype Cell = Cell(bucket: nat, lowBits: nat)

  function Pow2(n: nat): (r: nat)
    ensures r >= 1
  {
    if n == 0 then 1 else 2 * Pow2(n - 1)
  }

  /** `x << k` on unbounded naturals. */
  function Shl(x: nat, k: nat): nat
  {
    if k == 0 then x else 2 * Shl(x, k - 1)
  }

  /** `v >> k` on unbounded naturals. */
  function Shr(v: nat, k: nat): nat
  {
    if k == 0 then v else Shr(v, k - 1) / 2
  }

  /** Position of the most significant set bit, counted from 1; 0 for 0. */
  function BitLength(v: nat): nat
  {
    if v == 0 then 0 else 1 + BitLength(v / 2)
  }

  function Index(c: Cell): nat
  {
    c.bucket * LowBits + c.lowBits
  }

  function CellAt(i: nat): (c: Cell)
    ensures Index(c) == i && c.lowBits < LowBits
  {
    Cell(i / LowBits, i % LowBits)
  }

  /** Linear numbering is a bijection between cells with `lowBits < LowBits` and indices. */
  lemma CellAtIndex(c: Cell)
    requires c.lowBits < LowBits
    ensures CellAt(Index(c)) == c
  {
  }

  /**
    The cell that receives sample `v`: the bucket is the bit length minus
    `Bits` (or 0), and the low bits are the `Bits` bits just below the leading
    one, taken after shifting right by `bucket - 1`.
   */
  function CellOf(v: U64): (c: Cell)
    ensures c.bucket < Buckets && c.lowBits < LowBits
    ensures v == 0 ==> c == Cell(0, 0)
  {
    if v == 0 then Cell(0, 0)
    else
      Pow2U64();
      BitLengthBelow(v, 64);
      var msb := BitLength(v);
      var bucket := if msb > Bits then msb - Bits else 0;
      var shift := if bucket > 0 then bucket - 1 else 0;
      Cell(bucket, Shr(v, shift) % LowBits)
  }

  /**
    The representative value of a cell: `2^(bucket+3) + (lowBits << (bucket-1))`,
    that is `(16 + lowBits) << (bucket-1)`, for bucket > 0, and `lowBits`
    itself in bucket 0. Stated over the naturals, that is, as the shift was
    evidently meant; see `RepAsWritten`.
   */
  function Rep(c: Cell): nat
  {
    if c.bucket > 0 then Shl(LowBits + c.lowBits, c.bucket - 1)
    else c.lowBits
  }

  function RepAt(i: nat): nat
  {
    Rep(CellAt(i))
  }

  /**
    The representative value as the source computes it: the leading term is
    the `int` literal 1 shifted left by `bucket + 3`. At bucket 28 the shift by
    31 yields `INT_MIN`, which the addition with the `unsigned long` low-bits
    term converts to `2^64 - 2^31`; the sum wraps modulo `2^64`. From bucket 29
    on the shift is by 32 or more, which has no defined value; `None` marks that
    case.
   */
  /** `2^31`, the magnitude of the 32-bit `INT_MIN`. */
  const IntMinMagnitude: nat := 0x8000_0000

  function RepAsWritten(c: Cell): Option<nat>
  {
    if c.bucket > 0 then
      if c.bucket + Bits - 1 < 31 then Some(Shl(1, c.bucket + Bits - 1) + Shl(c.lowBits, c.bucket - 1))
      else if c.bucket + Bits - 1 == 31 then Some((U64Limit - IntMinMagnitude + Shl(c.lowBits, c.bucket - 1)) % U64Limit)
      else None
    else Some(c.lowBits)
  }

  // ---------------------------------------------------------------------------
  // Powers of two, shifts and bit length

  lemma {:induction false} Pow2Add(a: nat, b: nat)
    ensures Pow2(a + b) == Pow2(a) * Pow2(b)
    decreases a
  {
    if a > 0 {
      Pow2Add(a - 1, b);
    }
  }

  lemma {:induction false} Pow2Monotone(a: nat, b: nat)
    requires a <= b
    ensures Pow2(a) <= Pow2(b)
    decreases b
  {
    if a < b {
      Pow2Monotone(a, b - 1);
    }
  }

  lemma Pow2U64()
    ensures Pow2(64) == U64Limit
  {
    assert Pow2(8) == 0x100;
    Pow2Add(8, 8);
    assert Pow2(16) == 0x1_0000;
    Pow2Add(16, 16);
    assert Pow2(32) == 0x1_0000_0000;
    Pow2Add(32, 32);
  }

  /** Shifting distributes over addition. */
  lemma {:induction false} ShlAdd(x: nat, y: nat, k: nat)
    ensures Shl(x + y, k) == Shl(x, k) + Shl(y, k)
    decreases k
  {
    if k > 0 {
      ShlAdd(x, y, k - 1);
    }
  }

  /** Two shifts in a row are one shift by the sum. */
  lemma {:induction false} ShlCompose(x: nat, a: nat, k: nat)
    ensures Shl(x, a + k) == Shl(Shl(x, a), k)
    decreases k
  {
    if k > 0 {
      ShlCompose(x, a, k - 1);
    }
  }

  /** Shifting a power of two gives a larger power of two. */
  lemma {:induction false} ShlPow2(a: nat, k: nat)
    ensures Shl(Pow2(a), k) == Pow2(a + k)
    decreases k
  {
    if k > 0 {
      ShlPow2(a, k - 1);
    }
  }

  lemma {:induction false} ShlDouble(x: nat, k: nat)
    ensures Shl(2 * x, k) == 2 * Shl(x, k)
    decreases k
  {
    if k > 0 {
      ShlDouble(x, k - 1);
    }
  }

  lemma {:induction false} ShlMonotone(x: nat, y: nat, k: nat)
    requires x <= y
    ensures Shl(x, k) <= Shl(y, k)
    decreases k
  {
    if k > 0 {
      ShlMonotone(x, y, k - 1);
    }
  }

  lemma {:induction false} ShlStrict(x: nat, y: nat, k: nat)
    requires x < y
    ensures Shl(x, k) < Shl(y, k)
    decreases k
  {
    if k > 0 {
      ShlStrict(x, y, k - 1);
    }
  }

  /** A right shift drops the low `k` bits: `v` lies in `[u << k, (u + 1) << k)` for `u == v >> k`. */
  lemma {:induction false} ShrBracket(v: nat, k: nat)
    ensures Shl(Shr(v, k), k) <= v < Shl(Shr(v, k) + 1, k)
    decreases k
  {
    if k > 0 {
      var w, u := Shr(v, k - 1), Shr(v, k);
      ShrBracket(v, k - 1);
      ShlDouble(u, k - 1);
      ShlDouble(u + 1, k - 1);
      ShlMonotone(2 * u, w, k - 1);
      ShlMonotone(w + 1, 2 * (u + 1), k - 1);
    }
  }

  /** The bracket pins the right shift down. */
  lemma ShrUnique(v: nat, x: nat, k: nat)
    requires Shl(x, k) <= v < Shl(x + 1, k)
    ensures Shr(v, k) == x
  {
    var u := Shr(v, k);
    ShrBracket(v, k);
    if u < x {
      ShlMonotone(u + 1, x, k);
    } else if x < u {
      ShlMonotone(x + 1, u, k);
    }
  }

  /** `v` lies in `[2^(BitLength(v)-1), 2^BitLength(v))`. */
  lemma {:induction false} BitLengthBounds(v: nat)
    requires v > 0
    ensures BitLength(v) >= 1
    ensures Pow2(BitLength(v) - 1) <= v < Pow2(BitLength(v))
    decreases v
  {
    if v >= 2 {
      BitLengthBounds(v / 2);
    }
  }

  /** The bit length is the unique `k` with `2^(k-1) <= v < 2^k`. */
  lemma {:induction false} BitLengthUnique(v: nat, k: nat)
    requires k >= 1 && Pow2(k - 1) <= v < Pow2(k)
    ensures BitLength(v) == k
    decreases k
  {
    if k > 1 {
      BitLengthUnique(v / 2, k - 1);
    }
  }

  lemma {:induction false} BitLengthBelow(v: nat, k: nat)
    requires v < Pow2(k)
    ensures BitLength(v) <= k
    decreases k
  {
    if v > 0 {
      BitLengthBelow(v / 2, k - 1);
    }
  }

  // ---------------------------------------------------------------------------
  // The inverse mapping

  /** The cell after `c` in linear order. */
  function Succ(c: Cell): Cell
  {
    if c.lowBits + 1 < LowBits then Cell(c.bucket, c.lowBits + 1) else Cell(c.bucket + 1, 0)
  }

  lemma CellAtSucc(i: nat)
    ensures CellAt(i + 1) == Succ(CellAt(i))
  {
  }

  /** A cell's successor has a strictly larger representative. */
  lemma RepSucc(c: Cell)
    requires c.lowBits < LowBits
    ensures Rep(c) < Rep(Succ(c))
  {
    if c.bucket > 0 {
      if c.lowBits + 1 < LowBits {
        ShlStrict(LowBits + c.lowBits, LowBits + c.lowBits + 1, c.bucket - 1);
      } else {
        ShlStrict(LowBits + c.lowBits, 2 * LowBits, c.bucket - 1);
        ShlDouble(LowBits, c.bucket - 1);
      }
    }
  }

  /** Representatives are strictly increasing along the linear cell order. */
  lemma {:induction false} RepAtMonotone(i: nat, j: nat)
    requires i < j
    ensures RepAt(i) < RepAt(j)
    decreases j - i
  {
    CellAtSucc(i);
    RepSucc(CellAt(i));
    if i + 1 < j {
      RepAtMonotone(i + 1, j);
    }
  }

  /** A cell's representative is below `2^(bucket + 4)`. */
  lemma RepBelowPow(c: Cell)
    requires c.lowBits < LowBits
    ensures Rep(c) < Pow2(c.bucket + Bits)
  {
    assert Pow2(Bits) == LowBits;
    if c.bucket > 0 {
      assert Pow2(Bits + 1) == 2 * LowBits;
      ShlStrict(LowBits + c.lowBits, Pow2(Bits + 1), c.bucket - 1);
      ShlPow2(Bits + 1, c.bucket - 1);
    }
  }

  /** An upper-bucket representative is at least `2^(bucket + 3)`. */
  lemma RepAbovePow(c: Cell)
    requires c.bucket > 0
    ensures Pow2(c.bucket + Bits - 1) <= Rep(c)
  {
    assert Pow2(Bits) == LowBits;
    ShlMonotone(Pow2(Bits), LowBits + c.lowBits, c.bucket - 1);
    ShlPow2(Bits, c.bucket - 1);
  }

  /** Every representative of a grid cell fits in `unsigned long`. */
  lemma RepFitsU64(c: Cell)
    requires c.bucket < Buckets && c.lowBits < LowBits
    ensures Rep(c) < U64Limit
  {
    RepBelowPow(c);
    Pow2Monotone(c.bucket + Bits, 64);
    Pow2U64();
  }

  // ---------------------------------------------------------------------------
  // Properties of the forward mapping

  /** A sample of bit length `b + 4` (bucket `b > 0`) has `v >> (b-1)` in `[16, 32)`. */
  lemma ShrRange(v: nat, b: nat)
    requires b > 0 && Pow2(b + Bits - 1) <= v < Pow2(b + Bits)
    ensures LowBits <= Shr(v, b - 1) < 2 * LowBits
  {
    var u := Shr(v, b - 1);
    ShrBracket(v, b - 1);
    assert Pow2(Bits) == LowBits;
    assert Pow2(Bits + 1) == 2 * LowBits;
    ShlPow2(Bits, b - 1);
    ShlPow2(Bits + 1, b - 1);
    if u < LowBits {
      ShlMonotone(u + 1, LowBits, b - 1);
    }
    if u >= 2 * LowBits {
      ShlMonotone(2 * LowBits, u, b - 1);
    }
  }

  /** A value `v` with `16 <= v >> k < 32` lies in the range of cell `(k + 1, (v >> k) - 16)`. */
  lemma BracketUpper(v: nat, k: nat)
    requires LowBits <= Shr(v, k) < 2 * LowBits
    ensures var c := Cell(k + 1, Shr(v, k) - LowBits); Rep(c) <= v < Rep(Succ(c))
  {
    ShrBracket(v, k);
    if Shr(v, k) + 1 == 2 * LowBits {
      ShlDouble(LowBits, k);
    }
  }

  /** Samples below 16 go to bucket 0 with the sample itself as low bits. */
  lemma CellOfSmall(v: U64)
    requires v < LowBits
    ensures CellOf(v) == Cell(0, v)
  {
    if v > 0 {
      assert Pow2(Bits) == LowBits;
      BitLengthBelow(v, Bits);
    }
  }

  /** Samples of bit length `m > 4` go to bucket `m - 4`, low bits `(v >> (m-5)) - 16`. */
  lemma CellOfLarge(v: U64)
    requires BitLength(v) > Bits
    ensures var b := BitLength(v) - Bits;
      LowBits <= Shr(v, b - 1) < 2 * LowBits && CellOf(v) == Cell(b, Shr(v, b - 1) - LowBits)
  {
    var b := BitLength(v) - Bits;
    BitLengthBounds(v);
    ShrRange(v, b);
    CellOfUpper(v, b, Shr(v, b - 1));
  }

  lemma CellOfUpper(v: U64, b: nat, u: nat)
    requires v > 0 && b > 0 && b == BitLength(v) - Bits && u == Shr(v, b - 1) && LowBits <= u < 2 * LowBits
    ensures CellOf(v) == Cell(b, u - LowBits)
  {
    assert u % LowBits == u - LowBits;
  }

  /**
    The sample lies in its cell's range: at or above the cell's representative
    and below the representative of the next cell in linear order.
   */
  lemma Bracket(v: U64)
    ensures RepAt(Index(CellOf(v))) <= v < RepAt(Index(CellOf(v)) + 1)
  {
    var c := CellOf(v);
    CellAtIndex(c);
    CellAtSucc(Index(c));
    BracketCell(v);
  }

  lemma BracketCell(v: U64)
    ensures Rep(CellOf(v)) <= v < Rep(Succ(CellOf(v)))
  {
    if BitLength(v) > Bits {
      CellOfLarge(v);
      BracketUpper(v, BitLength(v) - Bits - 1);
    } else {
      BracketSmall(v);
    }
  }

  lemma BracketSmall(v: U64)
    requires BitLength(v) <= Bits
    ensures CellOf(v) == Cell(0, v) && Rep(CellOf(v)) <= v < Rep(Succ(CellOf(v)))
  {
    if v > 0 {
      BitLengthBounds(v);
      Pow2Monotone(BitLength(v), Bits);
    }
    assert Pow2(Bits) == LowBits;
    CellOfSmall(v);
  }

  /**
    The linear order of cells agrees with the order of values: the cell of
    `v` comes before cell `i` exactly when `v` is below `i`'s representative.
   */
  lemma IndexBelowIff(v: U64, i: nat)
    ensures Index(CellOf(v)) < i <==> v < RepAt(i)
  {
    var k := Index(CellOf(v));
    Bracket(v);
    if k < i {
      if k + 1 < i {
        RepAtMonotone(k + 1, i);
      }
    } else if i < k {
      RepAtMonotone(i, k);
    }
  }

  /** Sample `v` lands in cell `i` exactly when `RepAt(i) <= v < RepAt(i + 1)`. */
  lemma CellOfIff(v: U64, i: nat)
    ensures Index(CellOf(v)) == i <==> RepAt(i) <= v < RepAt(i + 1)
  {
    IndexBelowIff(v, i);
    IndexBelowIff(v, i + 1);
  }

  /** Insertion order is monotone in the sample value. */
  lemma CellOfMonotone(v: U64, w: U64)
    requires v <= w
    ensures Index(CellOf(v)) <= Index(CellOf(w))
  {
    Bracket(w);
    IndexBelowIff(v, Index(CellOf(w)) + 1);
  }

  /** Samples below 32 are stored exactly: their cell's representative is the sample. */
  lemma ExactBelow32(v: U64)
    requires v < 2 * LowBits
    ensures Rep(CellOf(v)) == v
  {
    if v > 0 {
      assert Pow2(Bits) == LowBits;
      assert Pow2(Bits + 1) == 2 * LowBits;
      if v < LowBits {
        BitLengthBelow(v, Bits);
      } else {
        BitLengthUnique(v, Bits + 1);
      }
    }
  }

  /** The bit length of an upper-bucket representative is `bucket + 4`. */
  lemma RepBitLength(c: Cell)
    requires c.bucket > 0 && c.lowBits < LowBits
    ensures BitLength(Rep(c)) == c.bucket + Bits
  {
    RepBelowPow(c);
    RepAbovePow(c);
    BitLengthUnique(Rep(c), c.bucket + Bits);
  }

  /** Round trip: inserting a cell's representative selects that cell. */
  lemma CellOfRep(c: Cell)
    requires c.bucket < Buckets && c.lowBits < LowBits
    ensures Rep(c) < U64Limit
    ensures CellOf(Rep(c)) == c
  {
    RepFitsU64(c);
    if c.bucket == 0 {
      CellOfSmall(Rep(c));
    } else {
      CellOfRepUpper(c);
    }
  }

  lemma CellOfRepUpper(c: Cell)
    requires 0 < c.bucket < Buckets && c.lowBits < LowBits
    ensures Rep(c) < U64Limit && CellOf(Rep(c)) == c
  {
    RepFitsU64(c);
    var r: U64 := Rep(c);
    RepBitLength(c);
    ShlStrict(LowBits + c.lowBits, LowBits + c.lowBits + 1, c.bucket - 1);
    ShrUnique(r, LowBits + c.lowBits, c.bucket - 1);
    CellOfUpper(r, c.bucket, LowBits + c.lowBits);
  }

  /** The cell after the top cell has representative `2^64`, one past the largest sample. */
  lemma RepPastTop()
    ensures RepAt(Cells) == U64Limit
  {
    assert CellAt(Cells) == Cell(Buckets, 0);
    assert Pow2(Bits) == LowBits;
    ShlPow2(Bits, Buckets - 1);
    Pow2U64();
  }

  // ---------------------------------------------------------------------------
  // Finding: the `int` shift in the source's inverse mapping

  /**
    The source's formula agrees with the intended one up to bucket 27 and
    departs from it at cell (28, 0), where sample `2^31` lands: it reports
    `2^64 - 2^31` instead of `2^31`.
   */
  lemma RepAsWrittenDiverges()
    ensures Rep(Cell(28, 0)) == Pow2(31) == IntMinMagnitude
    ensures CellOf(IntMinMagnitude) == Cell(28, 0)
    ensures RepAsWritten(Cell(28, 0)) == Some(U64Limit - IntMinMagnitude) != Some(IntMinMagnitude)
  {
    RepPow2At28();
    CellOfRep(Cell(28, 0));
    RepAsWrittenAt28(Cell(28, 0));
  }

  /** In bucket 28 the widened `INT_MIN` replaces the leading `2^31`: the result is `2^64 - 2^32` too large. */
  lemma RepAsWrittenAt28(c: Cell)
    requires c.bucket == 28 && c.lowBits < LowBits
    ensures RepAsWritten(c) == Some(Rep(c) + U64Limit - 2 * IntMinMagnitude)
  {
    RepPow2At28();
    ShlAdd(LowBits, c.lowBits, 27);
    ShlStrict(c.lowBits, LowBits, 27);
    var x := U64Limit - IntMinMagnitude + Shl(c.lowBits, 27);
    ModBelow(x, U64Limit);
    assert RepAsWritten(c) == Some(x % U64Limit);
    assert Rep(c) == IntMinMagnitude + Shl(c.lowBits, 27);
  }

  /** From bucket 29 on the `int` shift is by 32 or more and has no defined value. */
  lemma RepAsWrittenUndefined(c: Cell)
    requires c.bucket > 28
    ensures RepAsWritten(c) == None
  {
  }

  lemma ModBelow(x: nat, m: nat)
    requires x < m
    ensures x % m == x
  {
  }

  lemma RepPow2At28()
    ensures Shl(LowBits, 27) == Rep(Cell(28, 0)) == Pow2(31) == IntMinMagnitude
  {
    assert Pow2(Bits) == LowBits;
    ShlPow2(Bits, 27);
    assert Pow2(8) == 0x100;
    Pow2Add(8, 8);
    Pow2Add(16, 8);
    assert Pow2(7) == 0x80;
    Pow2Add(24, 7);
  }

  /** Below bucket 28 the source's formula is the representative. */
  lemma RepAsWrittenAgrees(c: Cell)
    requires c.bucket < 28
    ensures RepAsWritten(c) == Some(Rep(c))
  {
    if c.bucket > 0 {
      ShlAdd(LowBits, c.lowBits, c.bucket - 1);
      ShlCompose(1, Bits, c.bucket - 1);
      assert Shl(1, Bits) == LowBits;
    }
  }
}
