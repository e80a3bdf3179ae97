/** Coarsening of coordinates (core/lora/precision.go). */
module Precision {
  import opened Bits
  import opened Bytes

  function TruncateCoordinate(coordinate: Int32, precision: Uint32): Int32 {
    if precision == 0 || precision >= 32 then coordinate
    else
      var truncated := And(Unsigned(coordinate), Wrap(Shl(0xFFFF_FFFF, 32 - precision)));
      Signed(Wrap(truncated + Shl(1, 31 - precision)))
  }

  /** The side of a grid cell, and the cell a coordinate lies in. */
  function Side(p: nat): (k: nat)
    requires p <= 32
    ensures k > 0
  {
    Pow2(32 - p)
  }

  function Cell(c: int, p: nat): int
    requires p <= 32
  {
    c / Side(p)
  }

  /** The middle of a cell. */
  function Centre(cell: int, p: nat): int
    requires 1 <= p <= 31
  {
    cell * Side(p) + Pow2(31 - p)
  }

  lemma BorrowOne(m: int)
    ensures 0xFFFF_FFFF * m == (m - 1) * 0x1_0000_0000 + (0x1_0000_0000 - m)
  {}

  lemma ShiftedOnes(k: nat)
    requires k <= 32
    ensures Pow2(k) <= Pow2(32) && Wrap(Shl(0xFFFF_FFFF, k)) == if k == 32 then 0 else Pow2(32) - Pow2(k)
  {
    Pow2Words();
    Pow2Monotone(k, 32);
    ShlIsProduct(0xFFFF_FFFF, k);
    var m := Pow2(k);
    BorrowOne(m);
    if k < 32 {
      DivModUnique(0xFFFF_FFFF * m, 0x1_0000_0000, m - 1, 0x1_0000_0000 - m);
    }
  }

  /** The unsigned mask-and-add on a number below 2^w stays below 2^w. */
  lemma {:induction false} MaskAndAdd(u: nat, w: nat, k: nat)
    requires 1 <= k <= w && u < Pow2(w)
    ensures u - u % Pow2(k) + Pow2(k - 1) < Pow2(w)
    ensures u - u % Pow2(k) == High(u, k) * Pow2(k)
  {
    var q, m := High(u, k), Pow2(k);
    QuotientBound(u, w, k);
    Pow2Add(w - k, k);
    BelowMultiple(q, Pow2(w - k), m);
  }

  lemma BelowMultiple(q: int, n: int, m: int)
    requires q < n && m > 0
    ensures q * m + m <= n * m
  {
    NonNegativeProduct(n - 1 - q, m);
  }

  lemma {:induction false} Masked(u: Uint32, k: nat)
    requires 1 <= k <= 31
    ensures And(u, Wrap(Shl(0xFFFF_FFFF, k))) == High(u, k) * Pow2(k)
    ensures High(u, k) * Pow2(k) + Pow2(k - 1) < 0x1_0000_0000
  {
    Pow2Words();
    ShiftedOnes(k);
    AndHighMask(u, 32, k);
    MaskAndAdd(u, 32, k);
  }

  lemma {:induction false} MaskForm(c: Int32, p: Uint32, k: nat)
    requires 1 <= p <= 31 && k == 32 - p
    ensures TruncateCoordinate(c, p) == Signed(Wrap(High(Unsigned(c), k) * Pow2(k) + Pow2(k - 1)))
    ensures High(Unsigned(c), k) * Pow2(k) + Pow2(k - 1) < 0x1_0000_0000
  {
    Masked(Unsigned(c), k);
    ShlIsProduct(1, k - 1);
  }

  lemma {:induction false} NonNegativeCentre(c: Int32, k: nat)
    requires 1 <= k <= 31 && c >= 0
    ensures c / Pow2(k) == High(c, k) && High(c, k) * Pow2(k) + Pow2(k - 1) < 0x8000_0000
  {
    Pow2Words();
    MaskAndAdd(c, 31, k);
    DivModUnique(c, Pow2(k), High(c, k), c % Pow2(k));
  }

  lemma {:induction false} NegativeCentre(c: Int32, k: nat)
    requires 1 <= k <= 31 && c < 0
    ensures var q, m := High(Unsigned(c), k), Pow2(k);
            q * m >= 0x8000_0000 && (c / m) * m == q * m - 0x1_0000_0000
  {
    var u, m, q := Unsigned(c), Pow2(k), High(Unsigned(c), k);
    Pow2Words();
    Pow2Add(32 - k, k);
    Pow2Add(31 - k, k);
    HighAtLeast(u, Pow2(31 - k), m, q);
    ShiftQuotient(c, m, q, Pow2(32 - k), u - q * m);
  }

  lemma SignedSum(c: Int32, u: nat, v: int, h: nat)
    requires u + h < 0x1_0000_0000
    requires if c >= 0 then v == u && u + h < 0x8000_0000 else u >= 0x8000_0000 && v == u - 0x1_0000_0000
    ensures Signed(Wrap(u + h)) == v + h
  {}

  /** The mask-and-add form computes the middle of the coordinate's cell, with no signed wrap. */
  lemma {:induction false} TruncatesToCentre(c: Int32, p: Uint32)
    requires 1 <= p <= 31
    ensures TruncateCoordinate(c, p) == Centre(Cell(c, p), p)
  {
    var k := 32 - p;
    MaskForm(c, p, k);
    if c >= 0 { NonNegativeCentre(c, k); } else { NegativeCentre(c, k); }
    SignedSum(c, High(Unsigned(c), k) * Pow2(k), (c / Pow2(k)) * Pow2(k), Pow2(k - 1));
  }

  lemma HighAtLeast(u: int, n: int, m: int, q: int)
    requires m > 0 && u >= n * m && 0 <= u - q * m < m
    ensures q * m >= n * m
  {
    if q < n { BelowMultiple(q, n, m); }
  }

  lemma ShiftQuotient(c: int, m: int, q: int, n: int, r: int)
    requires m > 0 && 0 <= r < m && c + n * m == q * m + r
    ensures c / m == q - n && (c / m) * m == q * m - n * m
  {
    assert (q - n) * m == q * m - n * m;
    DivModUnique(c, m, q - n, r);
  }

  /** The middle of a cell lies in that cell. */
  lemma CentreInCell(cell: int, p: nat)
    requires 1 <= p <= 31
    ensures Cell(Centre(cell, p), p) == cell
  {
    DivModUnique(Centre(cell, p), Side(p), cell, Pow2(31 - p));
  }

  /** Two coordinates come out equal exactly when they share a cell. */
  lemma SameCellSameResult(c: Int32, d: Int32, p: Uint32)
    requires 1 <= p <= 31
    ensures TruncateCoordinate(c, p) == TruncateCoordinate(d, p) <==> Cell(c, p) == Cell(d, p)
  {
    TruncatesToCentre(c, p);
    TruncatesToCentre(d, p);
    CentreInCell(Cell(c, p), p);
    CentreInCell(Cell(d, p), p);
  }

  /** A precision leaves every coordinate alone exactly when it is 0 or at least 32. */
  lemma UnchangedExactly(p: Uint32)
    ensures (forall c: Int32 :: TruncateCoordinate(c, p) == c) <==> p == 0 || p >= 32
  {
    if 1 <= p <= 31 {
      TruncatesToCentre(0, p);
      assert Cell(0, p) == 0 && TruncateCoordinate(0, p) == Pow2(31 - p);
    }
  }

  lemma Idempotent(c: Int32, p: Uint32)
    ensures TruncateCoordinate(TruncateCoordinate(c, p), p) == TruncateCoordinate(c, p)
  {
    if 1 <= p <= 31 {
      TruncatesToCentre(c, p);
      TruncatesToCentre(TruncateCoordinate(c, p), p);
      CentreInCell(Cell(c, p), p);
    }
  }

  lemma QuotientMonotone(c: int, d: int, m: int)
    requires m > 0 && c <= d
    ensures c / m <= d / m && (c / m) * m <= (d / m) * m
  {
    DivModForm(c, m);
    DivModForm(d, m);
    if c / m > d / m { BelowMultiple(d / m, c / m, m); }
  }

  lemma Monotone(c: Int32, d: Int32, p: Uint32)
    requires c <= d
    ensures TruncateCoordinate(c, p) <= TruncateCoordinate(d, p)
  {
    if 1 <= p <= 31 {
      TruncatesToCentre(c, p);
      TruncatesToCentre(d, p);
      QuotientMonotone(c, d, Side(p));
    }
  }

  /** The result is at most half a cell away. */
  lemma HalfACellAway(c: Int32, p: Uint32)
    requires 1 <= p <= 31
    ensures c - Pow2(31 - p) < TruncateCoordinate(c, p) <= c + Pow2(31 - p)
  {
    TruncatesToCentre(c, p);
    DivModForm(c, Side(p));
  }

  /** A coarser cell is settled by the finer one. */
  lemma CoarserCell(c: int, p: nat, q: nat)
    requires p <= q <= 32
    ensures Cell(c, p) == Cell(c, q) / Pow2(q - p)
  {
    Pow2Add(q - p, 32 - q);
    DivDiv(c, Pow2(q - p), Side(q));
  }

  /** Coarsening never leaves the cell of the same or any coarser grid. */
  lemma KeepsCoarserCells(c: Int32, p: nat, q: Uint32)
    requires p <= 32 && p <= q && q != 0
    ensures Cell(TruncateCoordinate(c, q), p) == Cell(c, p)
  {
    if q <= 31 {
      TruncatesToCentre(c, q);
      CentreInCell(Cell(c, q), q);
      CoarserCell(c, p, q);
      CoarserCell(TruncateCoordinate(c, q), p, q);
    }
  }

  /** Coarsening to q and then to p <= q is coarsening to p. */
  lemma CoarsenTwice(c: Int32, p: Uint32, q: Uint32)
    requires 1 <= p <= q
    ensures TruncateCoordinate(TruncateCoordinate(c, q), p) == TruncateCoordinate(c, p)
  {
    if p <= 31 {
      KeepsCoarserCells(c, p, q);
      SameCellSameResult(TruncateCoordinate(c, q), c, p);
    }
  }
}
