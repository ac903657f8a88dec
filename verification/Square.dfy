/** Index arithmetic between the extended data square, of width 2k, and the original square, of
    width k, in its top left quarter. */
module Square {
  import opened Arithmetic

  /** Rust's u64::div_ceil. */
  function DivCeil(x: nat, d: nat): (q: nat)
    requires d > 0
    ensures x > 0 ==> q == (x - 1) / d + 1
    ensures x == 0 ==> q == 0
  {
    QuotientNat(x + d - 1, d);
    if x > 0 then
      QuotientNat(x - 1, d);
      Division(x - 1, d);
      MulDistributes((x - 1) / d, 1, d);
      QuotientOf((x - 1) / d + 1, d, (x - 1) % d, x + d - 1);
      (x + d - 1) / d
    else
      QuotientOf(0, d, d - 1, d - 1);
      (x + d - 1) / d
  }

  // ----- the position of a share -----

  /** The floor form, from the prover's share query. */
  function FloorRow(k: nat, index: nat): nat
    requires k > 0
  {
    QuotientNat(index, 2 * k);
    index / (2 * k)
  }

  /** The ceiling form, from the row proofs. At index 0 its subtraction underflows. */
  function CeilRow(k: nat, index: nat): int
    requires k > 0
  {
    DivCeil(index, 2 * k) - 1
  }

  /** The index in the original square, given the row a form computes. */
  function OdsIndex(k: nat, index: nat, row: int): int {
    index - row * k
  }

  /** The last row of a blob of `size` shares that starts at an original-square index. */
  function LastRow(k: nat, odsIndex: nat, size: nat): int
    requires k > 0
  {
    DivCeil(odsIndex + size, k) - 1
  }

  /** For a share in the original quarter the floor form finds its row and its row-major index. */
  lemma FloorFormCorrect(k: nat, row: nat, col: nat, index: nat)
    requires k > 0 && col < k && index == row * (2 * k) + col
    ensures FloorRow(k, index) == row
    ensures OdsIndex(k, index, row) == row * k + col
  {
    QuotientOf(row, 2 * k, col, index);
    assert row * (2 * k) == row * k + row * k;
  }

  /** Rows and columns of the original square correspond one to one to 0 .. k*k - 1. */
  lemma OdsIndexBijective(k: nat, row: nat, col: nat, j: nat)
    requires k > 0 && col < k
    ensures row < k ==> row * k + col < k * k
    ensures j == row * k + col <==> j / k == row && j % k == col
    ensures j < k * k ==> 0 <= j / k < k
  {
    if row < k {
      MulDistributes(row, 1, k);
      MulMonotone(row + 1, k, k);
    }
    Division(j, k);
    QuotientNat(j, k);
    if j == row * k + col { QuotientOf(row, k, col, j); }
    if j / k >= k { MulMonotone(k, j / k, k); }
  }

  /** The two forms agree exactly when the index is not at the start of a row. */
  lemma FormsAgree(k: nat, index: nat)
    requires k > 0
    ensures CeilRow(k, index) == FloorRow(k, index) <==> index % (2 * k) != 0
    ensures index % (2 * k) == 0 ==> CeilRow(k, index) == FloorRow(k, index) - 1
  {
    var d := 2 * k;
    var q, r := index / d, index % d;
    Division(index, d);
    QuotientNat(index, d);
    if index == 0 {
      QuotientOf(0, d, 0, 0);
    } else if r == 0 {
      MulDistributes(q - 1, 1, d);
      QuotientOf(q - 1, d, d - 1, index - 1);
    } else {
      QuotientOf(q, d, r - 1, index - 1);
    }
  }

  // ----- the rows of a blob -----

  /** Some share of the blob lies in this row. */
  ghost predicate Meets(k: nat, start: nat, size: nat, row: nat)
    requires k > 0
  {
    exists j :: start <= j < start + size && j / k == row
  }

  /** Between two positions there is one in every row between theirs. */
  lemma RowWitness(k: nat, start: nat, last: nat, row: nat) returns (j: nat)
    requires k > 0 && start <= last && start / k <= row <= last / k
    ensures start <= j <= last && j / k == row
  {
    if row == start / k {
      j := start;
    } else {
      Division(start, k);
      Division(last, k);
      MulDistributes(start / k, 1, k);
      MulMonotone(start / k + 1, row, k);
      MulMonotone(row, last / k, k);
      j := row * k;
      QuotientOf(row, k, 0, j);
    }
  }

  /** The rows from the first share's to the last are exactly the rows the blob's shares meet. */
  lemma RowRangeExact(k: nat, start: nat, size: nat, row: nat)
    requires k > 0 && size > 0
    ensures Meets(k, start, size, row) <==> start / k <= row <= LastRow(k, start, size)
  {
    var last := start + size - 1;
    if Meets(k, start, size, row) {
      var j :| start <= j < start + size && j / k == row;
      QuotientMonotone(start, j, k);
      QuotientMonotone(j, last, k);
    }
    if start / k <= row <= last / k {
      var j := RowWitness(k, start, last, row);
      assert start <= j < start + size && j / k == row;
    }
  }

  /** A blob that fits in the square stays in its rows. */
  lemma RowRangeInBounds(k: nat, start: nat, size: nat)
    requires k > 0 && size > 0 && start + size <= k * k
    ensures 0 <= start / k <= LastRow(k, start, size) < k
  {
    QuotientNat(start, k);
    QuotientMonotone(start, start + size - 1, k);
    OdsIndexBijective(k, 0, 0, start + size - 1);
  }

  /** The row range the row proofs compute for a blob at row and column of the extended square. */
  function ProofFirstRow(k: nat, row: nat, col: nat): int
    requires k > 0
  {
    CeilRow(k, row * (2 * k) + col)
  }

  function ProofLastRow(k: nat, row: nat, col: nat, size: nat): int
    requires k > 0 && OdsIndex(k, row * (2 * k) + col, ProofFirstRow(k, row, col)) >= 0
  {
    LastRow(k, OdsIndex(k, row * (2 * k) + col, ProofFirstRow(k, row, col)), size)
  }

  lemma ProofRows(k: nat, row: nat, col: nat)
    requires k > 0 && col < k && (row > 0 || col > 0)
    ensures ProofFirstRow(k, row, col) == if col != 0 then row else row - 1
    ensures OdsIndex(k, row * (2 * k) + col, ProofFirstRow(k, row, col)) == if col != 0 then row * k + col else (row + 1) * k
  {
    var index := row * (2 * k) + col;
    FloorFormCorrect(k, row, col, index);
    QuotientOf(row, 2 * k, col, index);
    FormsAgree(k, index);
    MulDistributes(row, 1, k);
    MulDistributes(row, -1, k);
  }

  /** A blob that does not start a row: the row proofs cover the rows its shares meet. */
  lemma RowProofsInside(k: nat, row: nat, col: nat, size: nat, r: nat)
    requires k > 0 && 0 < col < k && size > 0
    ensures OdsIndex(k, row * (2 * k) + col, ProofFirstRow(k, row, col)) >= 0
    ensures ProofFirstRow(k, row, col) <= r <= ProofLastRow(k, row, col, size) <==> Meets(k, row * k + col, size, r)
  {
    ProofRows(k, row, col);
    QuotientOf(row, k, col, row * k + col);
    RowRangeExact(k, row * k + col, size, r);
  }

  /** A blob that starts a row: they also cover the row before, which holds no share of it. */
  lemma RowProofsAtRowStart(k: nat, row: nat, size: nat)
    requires k > 0 && size > 0 && row > 0
    ensures OdsIndex(k, row * (2 * k) + 0, ProofFirstRow(k, row, 0)) >= 0
    ensures ProofFirstRow(k, row, 0) <= row - 1 <= ProofLastRow(k, row, 0, size) && !Meets(k, row * k, size, row - 1)
  {
    ProofRows(k, row, 0);
    var ods := (row + 1) * k;
    QuotientOf(row + 1, k, 0, ods);
    QuotientMonotone(ods, ods + size - 1, k);
    RowRangeExact(k, row * k, size, row - 1);
    QuotientOf(row, k, 0, row * k);
  }

  /** The rows the row proofs cover are the rows met by `size` shares from `start` on. */
  ghost predicate RowProofsMatch(k: nat, row: nat, col: nat, size: nat, start: nat)
    requires k > 0 && OdsIndex(k, row * (2 * k) + col, ProofFirstRow(k, row, col)) >= 0
  {
    forall r: nat :: Meets(k, start, size, r) <==> ProofFirstRow(k, row, col) <= r <= ProofLastRow(k, row, col, size)
  }

  /** The row proofs cover exactly the rows the blob's shares meet if and only if the blob does not
      start at column 0. At index 0 there is no range at all: the subtraction underflows. */
  lemma RowProofsExact(k: nat, row: nat, col: nat, size: nat)
    requires k > 0 && col < k && size > 0 && (row > 0 || col > 0)
    ensures OdsIndex(k, row * (2 * k) + col, ProofFirstRow(k, row, col)) >= 0
    ensures RowProofsMatch(k, row, col, size, row * k + col) <==> col != 0
  {
    if col != 0 {
      RowProofsInside(k, row, col, size, row);
      var start := row * k + col;
      forall r: nat ensures Meets(k, start, size, r) <==> ProofFirstRow(k, row, col) <= r <= ProofLastRow(k, row, col, size) {
        RowProofsInside(k, row, col, size, r);
      }
    } else {
      RowProofsAtRowStart(k, row, size);
      assert row * k + col == row * k;
    }
  }
}
