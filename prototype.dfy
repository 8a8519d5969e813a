/** The helpers of the early prototype: addSource, and displayGrid, which
    draws a grid of N as text, one line per column index i (a line runs
    over the row index j of the cells (i, j)), an 'x' for every cell above
    0.5. The printed lines are returned instead of written. */
module Prototype {
  import opened Grid
  import opened Pointwise

  /** addSource: x += dt * s over the (N+2)^2 cells (s may be x itself). */
  method AddSource(N: nat, x: array<real>, s: array<real>, dt: real)
    requires x.Length == Size(N) && s.Length == Size(N)
    modifies x
    ensures x[..] == Added(old(x[..]), old(s[..]), dt)
  {
    var size := (N + 2) * (N + 2);
    ghost var r := Added(old(x[..]), old(s[..]), dt);
    var i := 0;
    while i < size
      invariant 0 <= i <= size
      invariant forall k :: 0 <= k < i ==> x[k] == r[k]
      invariant forall k :: i <= k < size ==> x[k] == old(x[k]) && s[k] == old(s[k])
    {
      x[i] := x[i] + dt * s[i];
      i := i + 1;
    }
  }

  /** The mark a cell gets. */
  function Mark(v: real): char
  {
    if v > 0.5 then 'x' else ' '
  }

  /** Cells j = 1 .. c-1 of line i, each a mark and a space. */
  function Cells(N: nat, x: seq<real>, i: nat, c: nat): string
    requires |x| == Size(N) && i <= N + 1 && c <= N + 2
  {
    if c <= 1 then ""
    else Cells(N, x, i, c - 1) + [Mark(At(N, x, i, c - 1))] + " "
  }

  /** Line i: the cells j = 1 .. N-1 between "| " and "|". */
  function Line(N: nat, x: seq<real>, i: nat): string
    requires |x| == Size(N) && 1 <= i < N
  {
    "| " + Cells(N, x, i, N) + "|"
  }

  /** Lines 1 .. l-1. */
  function Lines(N: nat, x: seq<real>, l: nat): seq<string>
    requires |x| == Size(N) && (l <= 1 || l <= N)
  {
    if l <= 1 then [] else Lines(N, x, l - 1) + [Line(N, x, l - 1)]
  }

  /** displayGrid: the lines i = 1 .. N-1, each built cell by cell. */
  method DisplayGrid(N: nat, x: array<real>) returns (lines: seq<string>)
    requires x.Length == Size(N)
    ensures lines == Lines(N, x[..], N)
  {
    lines := [];
    var i := 1;
    while i < N
      invariant i == 1 || 1 <= i <= N
      invariant lines == Lines(N, x[..], i)
    {
      var str := "| ";
      var j := 1;
      while j < N
        invariant 1 <= j <= N
        invariant str == "| " + Cells(N, x[..], i, j)
      {
        IndInRange(N, i, j);
        if x[Ind(N, i, j)] > 0.5 {
          str := str + "x";
        } else {
          str := str + " ";
        }
        str := str + " ";
        j := j + 1;
      }
      str := str + "|";
      lines := lines + [str];
      i := i + 1;
    }
  }

  /** Cells(.., c) has two characters per cell: the mark of cell j at
      2(j-1) and a space after it. */
  lemma {:induction false} CellsAt(N: nat, x: seq<real>, i: nat, c: nat)
    requires |x| == Size(N) && i <= N + 1 && 1 <= c <= N + 2
    ensures |Cells(N, x, i, c)| == 2 * (c - 1)
    ensures forall j :: 1 <= j < c ==>
      Cells(N, x, i, c)[2 * (j - 1)] == Mark(At(N, x, i, j)) && Cells(N, x, i, c)[2 * j - 1] == ' '
  {
    if c > 1 {
      CellsAt(N, x, i, c - 1);
    }
  }

  /** displayGrid prints N-1 lines (none for N = 0): the columns 1 .. N-1,
      so column N is never shown as a line. */
  lemma {:induction false} LinesCount(N: nat, x: seq<real>, l: nat)
    requires |x| == Size(N) && l <= N
    ensures |Lines(N, x, l)| == if l >= 1 then l - 1 else 0
    ensures forall i :: 1 <= i < l ==> Lines(N, x, l)[i - 1] == Line(N, x, i)
  {
    if l > 1 {
      LinesCount(N, x, l - 1);
    }
  }

  /** Every line of the grid of N has 2N+1 characters: "| ", a mark and a
      space for each row index 1 .. N-1 (row N is never shown), then
      "|". */
  lemma LineShape(N: nat, x: seq<real>, i: nat)
    requires |x| == Size(N) && 1 <= i < N
    ensures var line := Line(N, x, i);
      && |line| == 2 * N + 1
      && line[0] == '|' && line[1] == ' ' && line[2 * N] == '|'
      && forall j :: 1 <= j < N ==> line[2 * j] == Mark(At(N, x, i, j)) && line[2 * j + 1] == ' '
  {
    var cells, line := Cells(N, x, i, N), Line(N, x, i);
    CellsAt(N, x, i, N);
    assert line == "| " + cells + "|";
    forall j | 1 <= j < N
      ensures line[2 * j] == Mark(At(N, x, i, j)) && line[2 * j + 1] == ' '
    {
      assert line[2 * j] == cells[2 * (j - 1)];
      assert line[2 * j + 1] == cells[2 * j - 1];
    }
  }

  /** The drawing depends only on the cells (i, j) with 1 <= i, j <= N-1. */
  lemma {:induction false} LinesIgnoreBorder(N: nat, x: seq<real>, y: seq<real>, l: nat)
    requires |x| == Size(N) && |y| == Size(N) && l <= N
    requires forall i, j :: 1 <= i < N && 1 <= j < N ==> At(N, x, i, j) == At(N, y, i, j)
    ensures Lines(N, x, l) == Lines(N, y, l)
  {
    if l > 1 {
      LinesIgnoreBorder(N, x, y, l - 1);
      CellsIgnoreBorder(N, x, y, l - 1, N);
    }
  }

  lemma {:induction false} CellsIgnoreBorder(N: nat, x: seq<real>, y: seq<real>, i: nat, c: nat)
    requires |x| == Size(N) && |y| == Size(N) && 1 <= i < N && c <= N
    requires forall i, j :: 1 <= i < N && 1 <= j < N ==> At(N, x, i, j) == At(N, y, i, j)
    ensures Cells(N, x, i, c) == Cells(N, y, i, c)
  {
    if c > 1 {
      CellsIgnoreBorder(N, x, y, i, c - 1);
    }
  }
}
