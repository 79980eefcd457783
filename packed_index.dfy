/** The packed upper triangle that the FLARE pair style walks with its
    `beta_counter`: the entries (j, k), j <= k < nD, of an nD x nD symmetric
    coefficient matrix stored row by row, row j holding (j, j) .. (j, nD - 1).
    `Packed` gives the counter value of a pair, `Unpack` its inverse. */
module PackedIndex {

  /** Counter value at which row j of the packed triangle starts. */
  function RowStart(nD: nat, j: nat): nat
    requires j <= nD
  {
    if j == 0 then 0 else RowStart(nD, j - 1) + (nD - (j - 1))
  }

  /** Number of entries of the packed triangle: the beta_size of one species. */
  function TriangleSize(nD: nat): nat { RowStart(nD, nD) }

  /** Counter value (offset from beta_init) at which the loops read pair (j, k). */
  function Packed(nD: nat, j: nat, k: nat): nat
    requires j <= k < nD
  {
    RowStart(nD, j) + (k - j)
  }

  lemma {:induction false} RowStartClosedForm(nD: nat, j: nat)
    requires j <= nD
    ensures 2 * RowStart(nD, j) == 2 * j * nD - j * (j - 1)
  {
    if j > 0 {
      RowStartClosedForm(nD, j - 1);
      assert (j - 1) * (j - 2) + 2 * (j - 1) == (j - 1) * j;
      assert 2 * (j - 1) * nD + 2 * nD == 2 * j * nD;
    }
  }

  /** The packed triangle holds nD(nD+1)/2 entries. */
  lemma TriangleSizeFormula(nD: nat)
    ensures 2 * TriangleSize(nD) == nD * (nD + 1)
  {
    RowStartClosedForm(nD, nD);
    assert 2 * nD * nD - nD * (nD - 1) == nD * (nD + 1);
  }

  /** The counter for (j, k) is j*nD - j(j-1)/2 + (k - j). */
  lemma PackedFormula(nD: nat, j: nat, k: nat)
    requires j <= k < nD
    ensures Packed(nD, j, k) == j * nD - j * (j - 1) / 2 + (k - j)
  {
    RowStartClosedForm(nD, j);
  }

  lemma {:induction false} RowStartMonotone(nD: nat, a: nat, b: nat)
    requires a <= b <= nD
    ensures RowStart(nD, a) <= RowStart(nD, b)
    decreases b - a
  {
    if a < b {
      RowStartMonotone(nD, a, b - 1);
    }
  }

  /** Pair (j, k) lies in row j's block of counter values, inside the triangle. */
  lemma PackedInRow(nD: nat, j: nat, k: nat)
    requires j <= k < nD
    ensures RowStart(nD, j) <= Packed(nD, j, k) < RowStart(nD, j + 1)
    ensures Packed(nD, j, k) < TriangleSize(nD)
  {
    RowStartMonotone(nD, j + 1, nD);
  }

  /** Distinct pairs get distinct counter values. */
  lemma PackedInjective(nD: nat, j1: nat, k1: nat, j2: nat, k2: nat)
    requires j1 <= k1 < nD && j2 <= k2 < nD
    requires Packed(nD, j1, k1) == Packed(nD, j2, k2)
    ensures j1 == j2 && k1 == k2
  {
    PackedInRow(nD, j1, k1);
    PackedInRow(nD, j2, k2);
    if j1 < j2 {
      RowStartMonotone(nD, j1 + 1, j2);
    } else if j2 < j1 {
      RowStartMonotone(nD, j2 + 1, j1);
    }
  }

  /** The pair read at counter offset c, searching from row j on. */
  function UnpackFrom(nD: nat, j: nat, c: nat): (p: (nat, nat))
    requires j <= nD && RowStart(nD, j) <= c < TriangleSize(nD)
    ensures j <= p.0 <= p.1 < nD
    ensures Packed(nD, p.0, p.1) == c
    decreases nD - j
  {
    if c < RowStart(nD, j + 1) then (j, j + (c - RowStart(nD, j)))
    else UnpackFrom(nD, j + 1, c)
  }

  /** The pair read at counter offset c: every offset of the triangle is some pair's. */
  function Unpack(nD: nat, c: nat): (p: (nat, nat))
    requires c < TriangleSize(nD)
    ensures p.0 <= p.1 < nD
    ensures Packed(nD, p.0, p.1) == c
  {
    UnpackFrom(nD, 0, c)
  }

  /** Unpack undoes Packed: with the converse above, Packed is a bijection from
      the pairs j <= k < nD onto [0, nD(nD+1)/2). */
  lemma UnpackPacked(nD: nat, j: nat, k: nat)
    requires j <= k < nD
    ensures Packed(nD, j, k) < TriangleSize(nD)
    ensures Unpack(nD, Packed(nD, j, k)) == (j, k)
  {
    PackedInRow(nD, j, k);
    var p := Unpack(nD, Packed(nD, j, k));
    PackedInjective(nD, p.0, p.1, j, k);
  }
}
