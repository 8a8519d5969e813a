/** The (N+2) x (N+2) simulation grid: an N x N interior surrounded by a
    one-cell ghost ring, stored as one flat array indexed by the `ind` macro. */
module Grid {

  /** Number of cells of the grid, ghost ring included. */
  function Size(N: nat): nat
  {
    (N + 2) * (N + 2)
  }

  /** Flat offset of cell (i, j): column i, row j. It is written as a recursion
      on the row so that proofs about individual cells stay linear;
      IndFormula gives the closed form i + (N+2)*j. */
  function Ind(N: nat, i: int, j: int): int
    decreases if j >= 0 then j else -j
  {
    if j == 0 then i
    else if j > 0 then Ind(N, i, j - 1) + (N + 2)
    else Ind(N, i, j + 1) - (N + 2)
  }

  /** Column and row of a flat offset (the inverses of Ind). */
  function Col(N: nat, k: int): int
  {
    k % (N + 2)
  }

  function Row(N: nat, k: int): int
  {
    k / (N + 2)
  }

  /** (i, j) names a cell of the grid, ghost ring included. */
  predicate InGrid(N: nat, i: int, j: int)
  {
    0 <= i <= N + 1 && 0 <= j <= N + 1
  }

  /** (i, j) names an interior (non-ghost) cell. */
  predicate IsInterior(N: nat, i: int, j: int)
  {
    1 <= i <= N && 1 <= j <= N
  }

  lemma {:induction false} IndFormula(N: nat, i: int, j: int)
    decreases if j >= 0 then j else -j
    ensures Ind(N, i, j) == i + (N + 2) * j
  {
    if j > 0 {
      IndFormula(N, i, j - 1);
    } else if j < 0 {
      IndFormula(N, i, j + 1);
    }
  }

  lemma MulMono(a: int, b: int, c: int)
    requires 0 <= a && b <= c
    ensures a * b <= a * c
  {
    assert a * c - a * b == a * (c - b);
  }

  /** Every cell of the grid has an offset in [0, size). */
  lemma IndInRange(N: nat, i: int, j: int)
    requires InGrid(N, i, j)
    ensures 0 <= Ind(N, i, j) < Size(N)
  {
    IndFormula(N, i, j);
    MulMono(N + 2, 0, j);
    MulMono(N + 2, j, N + 1);
    assert (N + 2) * (N + 1) + (N + 2) == (N + 2) * (N + 2);
  }

  /** Offsets decompose back into their column and row. */
  lemma IndCoordinates(N: nat, i: int, j: int)
    requires 0 <= i <= N + 1
    ensures Col(N, Ind(N, i, j)) == i && Row(N, Ind(N, i, j)) == j
  {
    IndFormula(N, i, j);
    var m := N + 2;
    var k := i + m * j;
    var q, r := k / m, k % m;
    assert k == m * q + r && 0 <= r < m;
    assert m * (q - j) == i - r by {
      assert m * q + r == m * j + i;
    }
    if q > j {
      MulMono(m, 1, q - j);
      assert false;
    } else if q < j {
      MulMono(m, 1, j - q);
      assert false;
    }
  }

  /** The index map is injective on the grid. */
  lemma IndInjective(N: nat, i: int, j: int, i': int, j': int)
    requires InGrid(N, i, j) && InGrid(N, i', j')
    requires Ind(N, i, j) == Ind(N, i', j')
    ensures i == i' && j == j'
  {
    IndCoordinates(N, i, j);
    IndCoordinates(N, i', j');
  }

  /** The index map reaches every offset in [0, size). */
  lemma CoordinatesInGrid(N: nat, k: int)
    requires 0 <= k < Size(N)
    ensures InGrid(N, Col(N, k), Row(N, k))
    ensures Ind(N, Col(N, k), Row(N, k)) == k
  {
    var m := N + 2;
    var q, r := k / m, k % m;
    assert k == m * q + r;
    IndFormula(N, r, q);
    if q > N + 1 {
      MulMono(m, m, q);
      assert false;
    }
    if q < 0 {
      MulMono(m, q, -1);
      assert false;
    }
  }

  /** Range and injectivity facts for every cell at once, for use inside quantified proofs. */
  lemma AllCoordinates(N: nat)
    ensures forall i, j {:trigger Ind(N, i, j)} :: InGrid(N, i, j) ==>
      0 <= Ind(N, i, j) < Size(N) && Col(N, Ind(N, i, j)) == i && Row(N, Ind(N, i, j)) == j
  {
    forall i, j | InGrid(N, i, j)
      ensures 0 <= Ind(N, i, j) < Size(N) && Col(N, Ind(N, i, j)) == i && Row(N, Ind(N, i, j)) == j
    {
      IndInRange(N, i, j);
      IndCoordinates(N, i, j);
    }
  }

  /** Value of cell (i, j) of a field (a read of `x[ind(i,j)]`). */
  function At(N: nat, x: seq<real>, i: int, j: int): real
    requires |x| == Size(N) && InGrid(N, i, j)
  {
    IndInRange(N, i, j);
    x[Ind(N, i, j)]
  }

  /** The field after the write `x[ind(i,j)] = v`. */
  function Put(N: nat, x: seq<real>, i: int, j: int, v: real): (r: seq<real>)
    requires |x| == Size(N) && InGrid(N, i, j)
    ensures |r| == |x|
    ensures forall i', j' {:trigger At(N, r, i', j')} :: InGrid(N, i', j') ==>
      At(N, r, i', j') == if i' == i && j' == j then v else At(N, x, i', j')
  {
    AllCoordinates(N);
    x[Ind(N, i, j) := v]
  }

  /** Two fields of the grid are equal when they agree on every cell. */
  lemma FieldExtensionality(N: nat, x: seq<real>, y: seq<real>)
    requires |x| == Size(N) && |y| == Size(N)
    requires forall i, j {:trigger At(N, x, i, j)} :: InGrid(N, i, j) ==> At(N, x, i, j) == At(N, y, i, j)
    ensures x == y
  {
    forall k | 0 <= k < Size(N)
      ensures x[k] == y[k]
    {
      CoordinatesInGrid(N, k);
      assert At(N, x, Col(N, k), Row(N, k)) == At(N, y, Col(N, k), Row(N, k));
    }
  }
}
