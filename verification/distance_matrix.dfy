/**
 * The distance callback of traveling_salesman.py: an object that, when
 * created, fills a dictionary of dictionaries with the distance between
 * every ordered pair of hubs, and whose `Distance` accessor hands the
 * routing solver that distance truncated to an integer.
 */
module DistanceMatrix {
  import opened Hubs

  /** A matrix as the source builds it: row index to (column index to miles). */
  type Matrix = map<int, map<int, real>>

  /** Python's `int()` on a float: truncation toward zero. */
  function Trunc(x: real): (r: int)
    ensures 0.0 <= x ==> 0 <= r && r as real <= x < r as real + 1.0
    ensures x < 0.0 ==> r <= 0 && r as real - 1.0 < x <= r as real
  {
    if 0.0 <= x then x.Floor else -((-x).Floor)
  }

  /** The entry the source stores for (i, j): 0 on the diagonal, the distance elsewhere. */
  function Cell(dist: DistanceFn, hubs: seq<Hub>, i: int, j: int): real
    requires 0 <= i < |hubs| && 0 <= j < |hubs|
  {
    if i == j then 0.0 else Leg(dist, hubs[i], hubs[j])
  }

  /** Row `i` filled up to, not including, column `n`. */
  ghost predicate RowPrefix(row: map<int, real>, dist: DistanceFn, hubs: seq<Hub>, i: int, n: int)
    requires 0 <= i < |hubs| && n <= |hubs|
  {
    && (forall j :: j in row <==> 0 <= j < n)
    && (forall j :: 0 <= j < n ==> row[j] == Cell(dist, hubs, i, j))
  }

  /** One row of the matrix: exactly the columns 0..|hubs|-1, each holding its cell. */
  ghost predicate IsRow(row: map<int, real>, dist: DistanceFn, hubs: seq<Hub>, i: int)
    requires 0 <= i < |hubs|
  {
    RowPrefix(row, dist, hubs, i, |hubs|)
  }

  /** Exactly the rows 0..n-1, each one a full row. */
  ghost predicate MatrixPrefix(m: Matrix, dist: DistanceFn, hubs: seq<Hub>, n: int)
    requires n <= |hubs|
  {
    && (forall i :: i in m <==> 0 <= i < n)
    && (forall i :: 0 <= i < n ==> IsRow(m[i], dist, hubs, i))
  }

  /** Exactly the rows 0..|hubs|-1, each one a full row. */
  ghost predicate IsDistanceMatrix(m: Matrix, dist: DistanceFn, hubs: seq<Hub>)
  {
    MatrixPrefix(m, dist, hubs, |hubs|)
  }

  /** Rows 0..i-1 are full and row i is filled up to column n. */
  ghost predicate Filling(m: Matrix, dist: DistanceFn, hubs: seq<Hub>, i: int, n: int)
    requires 0 <= i < |hubs| && n <= |hubs|
  {
    && (forall r :: r in m <==> 0 <= r <= i)
    && (forall r :: 0 <= r < i ==> IsRow(m[r], dist, hubs, r))
    && RowPrefix(m[i], dist, hubs, i, n)
  }

  lemma FillStart(m: Matrix, dist: DistanceFn, hubs: seq<Hub>, i: int)
    requires 0 <= i < |hubs| && MatrixPrefix(m, dist, hubs, i)
    ensures Filling(m[i := map[]], dist, hubs, i, 0)
  {
    var m' := m[i := map[]];
    forall r | 0 <= r < i
      ensures IsRow(m'[r], dist, hubs, r)
    {
      assert m'[r] == m[r];
    }
  }

  lemma FillCell(m: Matrix, dist: DistanceFn, hubs: seq<Hub>, i: int, j: int)
    requires 0 <= i < |hubs| && 0 <= j < |hubs| && Filling(m, dist, hubs, i, j)
    ensures Filling(m[i := m[i][j := Cell(dist, hubs, i, j)]], dist, hubs, i, j + 1)
  {
    var m' := m[i := m[i][j := Cell(dist, hubs, i, j)]];
    forall r | 0 <= r < i
      ensures IsRow(m'[r], dist, hubs, r)
    {
      assert m'[r] == m[r];
    }
  }

  lemma FillRowDone(m: Matrix, dist: DistanceFn, hubs: seq<Hub>, i: int)
    requires 0 <= i < |hubs| && Filling(m, dist, hubs, i, |hubs|)
    ensures MatrixPrefix(m, dist, hubs, i + 1)
  {
  }

  /** The description above leaves no freedom: two matrices that meet it are equal. */
  lemma DistanceMatrixUnique(m1: Matrix, m2: Matrix, dist: DistanceFn, hubs: seq<Hub>)
    requires IsDistanceMatrix(m1, dist, hubs) && IsDistanceMatrix(m2, dist, hubs)
    ensures m1 == m2
  {
    forall i | i in m1
      ensures i in m2 && m1[i] == m2[i]
    {
      RowUnique(m1[i], m2[i], dist, hubs, i);
    }
    assert forall i :: i in m1.Keys <==> i in m2.Keys;
    assert m1.Keys == m2.Keys;
  }

  lemma RowUnique(r1: map<int, real>, r2: map<int, real>, dist: DistanceFn, hubs: seq<Hub>, i: int)
    requires 0 <= i < |hubs|
    requires IsRow(r1, dist, hubs, i) && IsRow(r2, dist, hubs, i)
    ensures r1 == r2
  {
    assert forall j :: j in r1.Keys <==> j in r2.Keys;
    assert r1.Keys == r2.Keys;
    assert forall j :: j in r1 ==> r1[j] == r2[j];
  }

  /** With a distance that is symmetric in its two points, the matrix is symmetric. */
  lemma DistanceMatrixSymmetric(m: Matrix, dist: DistanceFn, hubs: seq<Hub>, i: int, j: int)
    requires IsDistanceMatrix(m, dist, hubs)
    requires forall a: Hub, b: Hub :: Leg(dist, a, b) == Leg(dist, b, a)
    requires 0 <= i < |hubs| && 0 <= j < |hubs|
    ensures m[i][j] == m[j][i]
  {
    assert IsRow(m[i], dist, hubs, i) && IsRow(m[j], dist, hubs, j);
    if i != j {
      assert Leg(dist, hubs[i], hubs[j]) == Leg(dist, hubs[j], hubs[i]);
    }
  }

  class DistanceCallback {
    /** The hubs the matrix was built from; construction does not change them. */
    const hubs: seq<Hub>
    /** The distance function the matrix was built with (the module-level `distance`). */
    ghost const dist: DistanceFn
    var matrix: Matrix

    ghost predicate Valid()
      reads this
    {
      NonNegative(dist) && IsDistanceMatrix(matrix, dist, hubs)
    }

    /** Fills `matrix` row by row, cell by cell, as the nested loops of `__init__` do. */
    constructor (hubs: seq<Hub>, dist: DistanceFn)
      requires NonNegative(dist)
      ensures this.hubs == hubs && this.dist == dist
      ensures Valid()
    {
      this.hubs := hubs;
      this.dist := dist;
      matrix := map[];
      new;
      var size := |hubs|;
      var fromNode := 0;
      while fromNode < size
        invariant 0 <= fromNode <= size
        invariant MatrixPrefix(matrix, dist, hubs, fromNode)
      {
        FillStart(matrix, dist, hubs, fromNode);
        matrix := matrix[fromNode := map[]];
        var toNode := 0;
        while toNode < size
          invariant 0 <= toNode <= size
          invariant Filling(matrix, dist, hubs, fromNode, toNode)
        {
          FillCell(matrix, dist, hubs, fromNode, toNode);
          if fromNode == toNode {
            matrix := matrix[fromNode := matrix[fromNode][toNode := 0.0]];
          } else {
            var x1 := hubs[fromNode].lat;
            var y1 := hubs[fromNode].lon;
            var x2 := hubs[toNode].lat;
            var y2 := hubs[toNode].lon;
            matrix := matrix[fromNode := matrix[fromNode][toNode := dist(x1, y1, x2, y2)]];
          }
          toNode := toNode + 1;
        }
        FillRowDone(matrix, dist, hubs, fromNode);
        fromNode := fromNode + 1;
      }
    }

    /** The arc cost handed to the solver: the stored miles, truncated to an integer. */
    function Distance(fromNode: int, toNode: int): (r: int)
      reads this
      requires Valid()
      requires 0 <= fromNode < |hubs| && 0 <= toNode < |hubs|
      ensures 0 <= r
      ensures fromNode == toNode ==> r == 0
      ensures fromNode != toNode ==>
                r as real <= Leg(dist, hubs[fromNode], hubs[toNode]) < r as real + 1.0
    {
      assert IsRow(matrix[fromNode], dist, hubs, fromNode);
      Trunc(matrix[fromNode][toNode])
    }
  }
}
