/** The grid topology: node `i` of a `length` x `width` grid sits at row
    `i / width`, column `i % width`, and is linked to the nodes above, to
    the left, to the right and below it that exist. */
module Grid {

  /** The elements of `v` that are valid node ids below `n`, in order. */
  function InRange(v: seq<int>, n: int): (r: seq<int>)
    ensures forall x :: x in r <==> x in v && 0 <= x < n
    ensures |r| <= |v|
  {
    if v == [] then [] else (if 0 <= v[0] < n then [v[0]] else []) + InRange(v[1..], n)
  }

  predicate StrictlyIncreasing(s: seq<int>)
  {
    forall a, b :: 0 <= a < b < |s| ==> s[a] < s[b]
  }

  /** Filtering keeps a strictly increasing sequence strictly increasing. */
  lemma {:induction false} InRangeKeepsIncreasing(v: seq<int>, n: int)
    requires StrictlyIncreasing(v)
    ensures StrictlyIncreasing(InRange(v, n))
  {
    if v != [] {
      InRangeKeepsIncreasing(v[1..], n);
      var rest := InRange(v[1..], n);
      forall x | x in rest ensures v[0] < x {
        var j :| 0 <= j < |v[1..]| && v[1..][j] == x;
        assert v[j + 1] == x;
      }
      if 0 <= v[0] < n {
        var r := InRange(v, n);
        forall a, b | 0 <= a < b < |r| ensures r[a] < r[b] {
          assert r[b] == rest[b - 1] && rest[b - 1] in rest;
          if a > 0 { assert r[a] == rest[a - 1]; }
        }
      }
    }
  }

  /** The in-place erase loop: walk the vector and erase every element
      outside [0, n); the survivors keep their order. */
  method EraseOutOfRange(v: seq<int>, n: int) returns (w: seq<int>)
    ensures w == InRange(v, n)
  {
    w := v;
    var iter := 0;
    while iter < |w|
      invariant 0 <= iter <= |w|
      invariant w[..iter] + InRange(w[iter..], n) == InRange(v, n)
      decreases |w| - iter
    {
      assert w[iter..][1..] == w[iter + 1..];
      if w[iter] < 0 || w[iter] >= n {
        ghost var before := w;
        w := w[..iter] + w[iter + 1..];
        assert w[..iter] == before[..iter] && w[iter..] == before[iter + 1..];
      } else {
        assert w[..iter + 1] == w[..iter] + [w[iter]];
        iter := iter + 1;
      }
    }
  }

  function Row(i: int, width: int): int
    requires width > 0
  {
    i / width
  }

  function Col(i: int, width: int): int
    requires width > 0
  {
    i % width
  }

  /** Grid adjacency in coordinates: same row and neighbouring columns, or
      same column and neighbouring rows. */
  predicate Adjacent(i: int, j: int, width: int)
    requires width > 0
  {
    OneStep(Row(i, width), Col(i, width), Row(j, width), Col(j, width))
  }

  /** Positions (r1, c1) and (r2, c2) are at Manhattan distance one. */
  predicate OneStep(r1: int, c1: int, r2: int, c2: int)
  {
    || (r1 == r2 && (c2 == c1 + 1 || c1 == c2 + 1))
    || (c1 == c2 && (r2 == r1 + 1 || r1 == r2 + 1))
  }

  /** Candidate neighbours of node `i` before range filtering, in the order
      up, left (unless in the first column), right (unless in the last
      column), down. */
  function Candidates(i: int, width: int): seq<int>
    requires width > 0
  {
    [i - width]
    + (if i % width != 0 then [i - 1] else [])
    + (if i % width != width - 1 then [i + 1] else [])
    + [i + width]
  }

  /** The neighbour list node `i` ends up with. */
  function GridNeighbors(i: int, length: int, width: int): seq<int>
    requires width > 0
  {
    InRange(Candidates(i, width), length * width)
  }

  /** The event area around `creator`: the candidates with the creator
      itself placed between left and right. */
  function AreaCandidates(creator: int, width: int): (r: seq<int>)
    requires width > 0
    ensures forall x :: x in r <==> x == creator || x in Candidates(creator, width)
  {
    [creator - width]
    + (if creator % width != 0 then [creator - 1] else [])
    + [creator]
    + (if creator % width != width - 1 then [creator + 1] else [])
    + [creator + width]
  }

  lemma MulAtLeast(a: int, w: int)
    requires a >= 1 && w > 0
    ensures a * w >= w
  {
  }

  /** Euclidean division has exactly one quotient/remainder pair. */
  lemma DivModUnique(x: int, w: int, q: int, r: int)
    requires w > 0 && 0 <= r < w && x == q * w + r
    ensures x / w == q && x % w == r
  {
    var q0, r0 := x / w, x % w;
    assert x == q0 * w + r0;
    if q0 < q {
      MulAtLeast(q - q0, w);
    } else if q < q0 {
      MulAtLeast(q0 - q, w);
    }
  }

  /** A node below length * width lies in a row below length. */
  lemma RowBelowLength(i: int, length: int, width: int)
    requires width > 0 && 0 <= i < length * width
    ensures 0 <= Row(i, width) < length
  {
    var q := i / width;
    if q >= length {
      MulAtLeast(q - length + 1, width);
    }
  }

  /** A candidate is a grid neighbour exactly when it lies one step away in
      row/column coordinates: no link crosses a row boundary. */
  lemma {:induction false} CandidatesAreAdjacent(i: int, j: int, width: int)
    requires width > 0
    ensures j in Candidates(i, width) <==> Adjacent(i, j, width)
  {
    var q, r := i / width, i % width;
    var qj, rj := j / width, j % width;
    assert i == q * width + r;
    assert j == qj * width + rj;
    if j == i - width {
      DivModUnique(j, width, q - 1, r);
    } else if j == i - 1 && r != 0 {
      DivModUnique(j, width, q, r - 1);
    } else if j == i + 1 && r != width - 1 {
      DivModUnique(j, width, q, r + 1);
    } else if j == i + width {
      DivModUnique(j, width, q + 1, r);
    }
    if Adjacent(i, j, width) {
      if qj == q {
        assert j == i + 1 || j == i - 1;
      } else {
        assert j == i + width || j == i - width by {
          assert qj == q + 1 || qj == q - 1;
          assert (q + 1) * width == q * width + width;
          assert (q - 1) * width == q * width - width;
        }
      }
    }
  }

  /** Node `j` is a neighbour of node `i` exactly when it is a valid node id
      one step away in row/column coordinates. */
  lemma GridNeighborsAreAdjacent(i: int, j: int, length: int, width: int)
    requires width > 0
    ensures j in GridNeighbors(i, length, width) <==> 0 <= j < length * width && Adjacent(i, j, width)
  {
    CandidatesAreAdjacent(i, j, width);
  }

  /** The neighbour relation is symmetric. */
  lemma GridNeighborsSymmetric(i: int, j: int, length: int, width: int)
    requires width > 0 && 0 <= i < length * width && 0 <= j < length * width
    ensures j in GridNeighbors(i, length, width) <==> i in GridNeighbors(j, length, width)
  {
    GridNeighborsAreAdjacent(i, j, length, width);
    GridNeighborsAreAdjacent(j, i, length, width);
    assert Adjacent(i, j, width) <==> Adjacent(j, i, width);
  }

  /** Neighbour lists come in increasing id order, which is the order up,
      left, right, down. */
  lemma GridNeighborsIncreasing(i: int, length: int, width: int)
    requires width > 0
    ensures StrictlyIncreasing(GridNeighbors(i, length, width))
  {
    InRangeKeepsIncreasing(Candidates(i, width), length * width);
  }

  /** On a grid of at least two nodes every node has one to four neighbours,
      so a walk can always draw a next hop. */
  lemma GridNeighborsNonEmpty(i: int, length: int, width: int)
    requires width > 0 && length * width >= 2 && 0 <= i < length * width
    ensures 1 <= |GridNeighbors(i, length, width)| <= 4
  {
    var n := length * width;
    var q, r := i / width, i % width;
    RowBelowLength(i, length, width);
    var j: int;
    if width == 1 {
      j := if i > 0 then i - 1 else i + 1;
      assert r == 0;
      if i == 0 { assert length >= 2; }
    } else if r != width - 1 {
      j := i + 1;
      MulAtLeast(length - q, width);
      assert n == q * width + (length - q) * width;
    } else {
      j := i - 1;
    }
    assert j in Candidates(i, width);
    assert j in GridNeighbors(i, length, width);
  }

  /** The event area is the creator together with its neighbours, in
      increasing id order. */
  lemma EventAreaIsClosedNeighborhood(creator: int, length: int, width: int)
    requires width > 0 && 0 <= creator < length * width
    ensures var area := InRange(AreaCandidates(creator, width), length * width);
      && StrictlyIncreasing(area)
      && forall x :: x in area <==> x == creator || x in GridNeighbors(creator, length, width)
  {
    InRangeKeepsIncreasing(AreaCandidates(creator, width), length * width);
    assert forall x :: x in AreaCandidates(creator, width) <==> x == creator || x in Candidates(creator, width);
  }
}
