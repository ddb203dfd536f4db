/**
 * PQ.java: a rectangular grid of cell costs, a priority-queue sweep that gives
 * every cell a distance from a start cell (the cost of the cheapest path
 * found, or the largest bottleneck), and the reconstruction of the path from
 * the predecessor links the sweep leaves behind.
 */
module GridPaths {
  import opened Wrappers

  /** Integer.MAX_VALUE / 3, the "not reached yet" distance. */
  const INFINITY: int := 2147483647 / 3

  datatype Cell = Cell(row: int, col: int)

  /** Two different cells at most one row and one column apart. */
  predicate Near(a: Cell, b: Cell) {
    a != b && -1 <= a.row - b.row <= 1 && -1 <= a.col - b.col <= 1
  }

  /** Row-major order, the order in which getAdjacents lists the neighbours. */
  predicate Before(a: Cell, b: Cell) {
    a.row < b.row || (a.row == b.row && a.col < b.col)
  }

  predicate Distinct(s: seq<Cell>) {
    forall i, j :: 0 <= i < j < |s| ==> s[i] != s[j]
  }

  /** The two sweeps over the grid: computeShortestPath and computeBottleNeckPath. */
  datatype Sweep = Cheapest | Widest

  /** The distance of a square the sweep has not reached yet. */
  function Unset(sw: Sweep): int {
    if sw.Cheapest? then INFINITY else 0
  }

  /** The distance the sweep gives its start square. */
  function Start(sw: Sweep): int {
    if sw.Cheapest? then 0 else INFINITY
  }

  /** The distance a square of the given cost gets when reached from a square at distance d. */
  function Step(sw: Sweep, d: int, cost: int): int {
    if sw.Cheapest? then d + cost else if d <= cost then d else cost
  }

  /** Distance a is at least as good as b: no larger for the cheapest path, no smaller for the widest. */
  predicate Better(sw: Sweep, a: int, b: int) {
    if sw.Cheapest? then a <= b else b <= a
  }

  /** The queue holds reached squares, each at most once. */
  predicate Queued(order: seq<Cell>, pq: seq<Cell>) {
    Distinct(pq) && forall j :: 0 <= j < |pq| ==> pq[j] in order
  }

  /** What a queue of cells holds after an extraction: everything but v. */
  lemma WithoutFacts(pq: seq<Cell>, i: nat)
    requires i < |pq| && Distinct(pq)
    ensures Distinct(Without(pq, i)) && pq[i] !in Without(pq, i)
    ensures forall x :: x in pq <==> x == pq[i] || x in Without(pq, i)
  {
    var r := Without(pq, i);
    assert forall j :: 0 <= j < |r| ==> r[j] == if j < i then pq[j] else pq[j + 1];
  }

  /** s without its i-th element. */
  function Without(s: seq<Cell>, i: nat): (r: seq<Cell>)
    requires i < |s|
    ensures |r| == |s| - 1
    ensures multiset(r) == multiset(s) - multiset{s[i]}
  {
    assert s == s[..i] + [s[i]] + s[i + 1..];
    s[..i] + s[i + 1..]
  }

  /** A distance within b per step after j steps, plus one cost within b, fits m > j steps, which fit the n cells. */
  lemma SumFits(b: int, j: int, m: int, n: int, x: int, y: int)
    requires 0 <= b && 0 <= j < m < n && b * n < INFINITY
    requires -b * j <= x <= b * j && -b <= y <= b
    ensures -b * m <= x + y <= b * m
    ensures -INFINITY < x + y < INFINITY
  {
    assert b * (j + 1) == b * j + b;
    MulMono(j + 1, m, b);
    MulMono(m, n, b);
  }

  /** A better distance stays better, or as good, one step further along. */
  lemma StepKeepsBetter(sw: Sweep, a: int, b: int, cost: int)
    requires Better(sw, a, b)
    ensures Better(sw, Step(sw, a, cost), Step(sw, b, cost))
  {
  }

  /** s back to front. */
  function Reverse(s: seq<Cell>): (r: seq<Cell>)
    ensures |r| == |s| && forall i :: 0 <= i < |s| ==> r[i] == s[|s| - 1 - i]
  {
    if s == [] then [] else Reverse(s[1..]) + [s[0]]
  }

  /** Reversing a sequence with x appended puts x first. */
  lemma ReverseSnoc(s: seq<Cell>, x: Cell)
    ensures Reverse(s + [x]) == [x] + Reverse(s)
  {
    assert forall i :: 0 <= i < |s| + 1 ==> Reverse(s + [x])[i] == ([x] + Reverse(s))[i];
  }

  /** A position of c in s. */
  function IndexOf(s: seq<Cell>, c: Cell): (r: nat)
    requires c in s
    ensures r < |s| && s[r] == c
  {
    if s[0] == c then 0 else 1 + IndexOf(s[1..], c)
  }

  /** Multiplying by a nonnegative number keeps the order. */
  lemma MulMono(a: int, b: int, k: int)
    requires a <= b && 0 <= k
    ensures a * k <= b * k
  {
    var d := b - a;
    assert b * k == a * k + d * k;
  }

  /** A set of naturals below n has at most n elements. */
  lemma {:induction false} BoundedSetSize(s: set<int>, n: nat)
    requires forall x :: x in s ==> 0 <= x < n
    ensures |s| <= n
  {
    if n > 0 {
      BoundedSetSize(s - {n - 1}, n - 1);
    } else {
      assert forall x :: x !in s;
      assert s == {};
    }
  }

  /** The row-major index of a cell in a grid of the given width. */
  function Key(c: Cell, width: int): int {
    c.row * width + c.col
  }

  lemma KeyInjective(a: Cell, b: Cell, width: int)
    requires 0 <= a.col < width && 0 <= b.col < width && Key(a, width) == Key(b, width)
    ensures a == b
  {
    if a.row < b.row {
      MulMono(a.row + 1, b.row, width);
    } else if b.row < a.row {
      MulMono(b.row + 1, a.row, width);
    }
  }

  lemma KeyRange(c: Cell, height: int, width: int)
    requires 0 <= c.row < height && 0 <= c.col < width
    ensures 0 <= Key(c, width) < height * width
  {
    MulMono(0, c.row, width);
    MulMono(c.row + 1, height, width);
  }

  /** A set of cells has as many row-major indices as it has cells. */
  lemma {:induction false} ImageSize(cells: set<Cell>, width: int)
    requires forall c :: c in cells ==> 0 <= c.col < width
    ensures |set c | c in cells :: Key(c, width)| == |cells|
  {
    if cells != {} {
      var x :| x in cells;
      var rest := cells - {x};
      ImageSize(rest, width);
      var image := set c | c in cells :: Key(c, width);
      var restImage := set c | c in rest :: Key(c, width);
      assert image == restImage + {Key(x, width)};
      assert Key(x, width) !in restImage by {
        forall c | c in rest
          ensures Key(c, width) != Key(x, width)
        {
          if Key(c, width) == Key(x, width) {
            KeyInjective(c, x, width);
          }
        }
      }
    }
  }

  /** A repetition-free sequence has as many elements as its set. */
  lemma {:induction false} DistinctSize(cells: seq<Cell>)
    requires Distinct(cells)
    ensures |set c | c in cells| == |cells|
  {
    if cells != [] {
      var front := cells[..|cells| - 1];
      var last := cells[|cells| - 1];
      assert Distinct(front);
      DistinctSize(front);
      assert cells == front + [last];
      assert (set c | c in cells) == (set c | c in front) + {last};
      assert last !in front;
    }
  }

  class Grid {
    const numRows: int
    const numCols: int
    /** The cost of each cell. */
    const matrix: array2<int>
    /** The dist field of each Square. */
    const dist: array2<int>
    /** The prev field of each Square: None is the null reference. */
    const prev: array2<Option<Cell>>

    ghost predicate Valid() {
      && 1 <= numRows && 1 <= numCols
      && matrix.Length0 == numRows && matrix.Length1 == numCols
      && dist.Length0 == numRows && dist.Length1 == numCols
      && prev.Length0 == numRows && prev.Length1 == numCols
      && matrix != dist
    }

    predicate InBounds(c: Cell) {
      0 <= c.row < numRows && 0 <= c.col < numCols
    }

    /** The lower right corner, LOWER_RIGHT. */
    function LowerRight(): Cell {
      Cell(numRows - 1, numCols - 1)
    }

    /** A cell's distance. */
    function D(c: Cell): int
      requires Valid() && InBounds(c)
      reads dist
    {
      dist[c.row, c.col]
    }

    /** A cell's predecessor. */
    function P(c: Cell): Option<Cell>
      requires Valid() && InBounds(c)
      reads prev
    {
      prev[c.row, c.col]
    }

    /** getCost. */
    function Cost(c: Cell): int
      requires Valid() && InBounds(c)
      reads matrix
    {
      matrix[c.row, c.col]
    }

    /** Distinct cells of the grid are at most as many as the grid has cells. */
    lemma CellsFit(cells: seq<Cell>)
      requires Valid() && Distinct(cells) && forall i :: 0 <= i < |cells| ==> InBounds(cells[i])
      ensures |cells| <= numRows * numCols
    {
      DistinctSize(cells);
      var cs := set c | c in cells;
      ImageSize(cs, numCols);
      var keys := set c | c in cs :: Key(c, numCols);
      forall x | x in keys
        ensures 0 <= x < numRows * numCols
      {
        var c :| c in cs && x == Key(c, numCols);
        KeyRange(c, numRows, numCols);
      }
      BoundedSetSize(keys, numRows * numCols);
    }

    /**
     * The constructor of PQ once the file is read: the costs, and a Square for
     * every cell with distance INFINITY and no predecessor.
     */
    constructor(costs: seq<seq<int>>)
      requires |costs| >= 1 && |costs[0]| >= 1
      requires forall i :: 0 <= i < |costs| ==> |costs[i]| == |costs[0]|
      ensures Valid() && numRows == |costs| && numCols == |costs[0]|
      ensures forall r, c :: 0 <= r < numRows && 0 <= c < numCols ==> matrix[r, c] == costs[r][c]
      ensures forall r, c :: 0 <= r < numRows && 0 <= c < numCols ==> dist[r, c] == INFINITY && prev[r, c] == None
    {
      numRows := |costs|;
      numCols := |costs[0]|;
      matrix := new int[|costs|, |costs[0]|]((r, c) requires 0 <= r < |costs| && 0 <= c < |costs[0]| => costs[r][c]);
      dist := new int[|costs|, |costs[0]|]((r, c) => INFINITY);
      prev := new Option<Cell>[|costs|, |costs[0]|]((r, c) => None);
    }

    /**
     * getAdjacents: the cells in the 3-by-3 block around c that lie on the
     * grid, in row-major order, c itself left out.
     */
    method Adjacents(c: Cell) returns (neighbors: seq<Cell>)
      requires Valid() && InBounds(c)
      ensures forall w {:trigger Near(c, w)} {:trigger w in neighbors} :: w in neighbors <==> InBounds(w) && Near(c, w)
      ensures forall i, j :: 0 <= i < j < |neighbors| ==> Before(neighbors[i], neighbors[j])
    {
      var lowRow := if c.row == 0 then 0 else c.row - 1;
      var lowCol := if c.col == 0 then 0 else c.col - 1;
      var highRow := if c.row == numRows - 1 then c.row else c.row + 1;
      var highCol := if c.col == numCols - 1 then c.col else c.col + 1;
      neighbors := [];
      for r := lowRow to highRow + 1
        invariant forall w :: w in neighbors <==> InBounds(w) && Near(c, w) && w.row < r
        invariant forall i, j :: 0 <= i < j < |neighbors| ==> Before(neighbors[i], neighbors[j])
        invariant forall i :: 0 <= i < |neighbors| ==> neighbors[i].row < r
      {
        for col := lowCol to highCol + 1
          invariant forall w :: w in neighbors <==> InBounds(w) && Near(c, w) && (w.row < r || (w.row == r && w.col < col))
          invariant forall i, j :: 0 <= i < j < |neighbors| ==> Before(neighbors[i], neighbors[j])
          invariant forall i :: 0 <= i < |neighbors| ==> Before(neighbors[i], Cell(r, col))
        {
          if col != c.col || r != c.row {
            neighbors := neighbors + [Cell(r, col)];
          }
        }
      }
    }

    /** The nested loops at the head of both sweeps: every square gets distance d and no predecessor. */
    method ResetDistances(d: int)
      requires Valid()
      modifies dist, prev
      ensures forall r, c :: 0 <= r < numRows && 0 <= c < numCols ==> dist[r, c] == d && prev[r, c] == None
    {
      for r := 0 to numRows
        invariant forall i, j :: 0 <= i < r && 0 <= j < numCols ==> dist[i, j] == d && prev[i, j] == None
      {
        for c := 0 to numCols
          invariant forall i, j :: 0 <= i < r && 0 <= j < numCols ==> dist[i, j] == d && prev[i, j] == None
          invariant forall j :: 0 <= j < c ==> dist[r, j] == d && prev[r, j] == None
        {
          dist[r, c] := d;
          prev[r, c] := None;
        }
      }
    }

    /**
     * PriorityQueue.remove with the comparator of the sweep: a cell of least
     * distance, or of greatest distance when largest is set, taken out of the
     * queue. Among equal distances the one queued first is taken.
     */
    method ExtractBest(pq: seq<Cell>, largest: bool) returns (v: Cell, rest: seq<Cell>, ghost at: nat)
      requires Valid() && pq != [] && forall i :: 0 <= i < |pq| ==> InBounds(pq[i])
      ensures InBounds(v)
      ensures at < |pq| && pq[at] == v && rest == Without(pq, at)
      ensures forall w :: w in pq ==> if largest then D(w) <= D(v) else D(v) <= D(w)
    {
      var best := 0;
      for i := 1 to |pq|
        invariant 0 <= best < |pq|
        invariant forall j :: 0 <= j < i ==> if largest then D(pq[j]) <= D(pq[best]) else D(pq[best]) <= D(pq[j])
      {
        if (largest && D(pq[best]) < D(pq[i])) || (!largest && D(pq[i]) < D(pq[best])) {
          best := i;
        }
      }
      v := pq[best];
      rest := Without(pq, best);
      at := best;
    }

    /** setDistance: the square at c gets distance d and predecessor p; no other square changes. */
    method SetDistance(c: Cell, d: int, p: Option<Cell>)
      requires Valid() && InBounds(c)
      modifies dist, prev
      ensures D(c) == d && P(c) == p
      ensures forall x {:trigger D(x)} {:trigger P(x)} :: InBounds(x) && x != c ==> D(x) == old(D(x)) && P(x) == old(P(x))
    {
      dist[c.row, c.col] := d;
      prev[c.row, c.col] := p;
    }

    /** The cost a sweep works with: computeBottleNeckPath sets the lower right corner's to INFINITY. */
    function EffCost(sw: Sweep, c: Cell): int
      requires Valid() && InBounds(c)
      reads matrix
    {
      if sw.Widest? && c == LowerRight() then INFINITY else Cost(c)
    }

    /**
     * The costs under which a sweep stops and stays within 32-bit arithmetic:
     * for path sums, costs bounded so that no sum over the grid reaches
     * INFINITY; for bottlenecks, no zero cost off the start square while the
     * lower right corner's is INFINITY.
     */
    ghost predicate Sound(sw: Sweep, s: Cell, bound: int)
      requires Valid()
      reads matrix
    {
      if sw.Cheapest? then
        && 0 <= bound && bound * (numRows * numCols) < INFINITY
        && forall c {:trigger Cost(c)} :: InBounds(c) ==> -bound <= Cost(c) <= bound
      else
        && Cost(LowerRight()) == INFINITY
        && forall c {:trigger Cost(c)} :: InBounds(c) && c != s ==> Cost(c) != 0
    }

    /** A square is never better than the square it is reached from: always so for bottlenecks, and for sums when no cost is negative. */
    ghost predicate Monotone(sw: Sweep)
      requires Valid()
      reads matrix
    {
      sw.Widest? || forall c {:trigger Cost(c)} :: InBounds(c) ==> 0 <= Cost(c)
    }

    /** The i-th reached square got its distance from its predecessor, an earlier reached neighbour. */
    ghost predicate LinkedAt(sw: Sweep, order: seq<Cell>, i: int)
      requires Valid() && 0 <= i < |order| && InBounds(order[i])
      reads dist, prev, matrix
    {
      var c := order[i];
      && P(c).Some? && InBounds(P(c).value) && P(c).value in order[..i] && Near(P(c).value, c)
      && D(c) == Step(sw, D(P(c).value), EffCost(sw, c))
    }

    /**
     * The squares a sweep from s has reached, in the order it reached them:
     * exactly the squares whose distance is no longer Unset, s first with the
     * start distance and no predecessor, every other one linked to an earlier one.
     */
    ghost predicate Swept(sw: Sweep, s: Cell, order: seq<Cell>)
      requires Valid()
      reads dist, prev, matrix
    {
      && InBounds(s) && order != [] && order[0] == s && Distinct(order)
      && (forall i :: 0 <= i < |order| ==> InBounds(order[i]) && D(order[i]) != Unset(sw))
      && (forall c {:trigger D(c)} :: InBounds(c) && D(c) != Unset(sw) ==> c in order)
      && (forall c {:trigger P(c)} :: InBounds(c) && D(c) == Unset(sw) ==> P(c) == None)
      && D(s) == Start(sw) && P(s) == None
      && (forall i :: 0 < i < |order| ==> LinkedAt(sw, order, i))
    }

    /** Every neighbour of c has been reached. */
    ghost predicate Closed(sw: Sweep, c: Cell)
      requires Valid() && InBounds(c)
      reads dist
    {
      forall w {:trigger Near(c, w)} :: InBounds(w) && Near(c, w) ==> D(w) != Unset(sw)
    }

    /** No neighbour of c would be better off reached from c. */
    ghost predicate Relaxed(sw: Sweep, c: Cell)
      requires Valid() && InBounds(c)
      reads dist, matrix
    {
      forall w {:trigger Near(c, w)} :: InBounds(w) && Near(c, w) ==> Better(sw, D(w), Step(sw, D(c), EffCost(sw, w)))
    }

    /** Every reached square no longer queued (nor in hand) has had its neighbours visited. */
    ghost predicate Done(sw: Sweep, order: seq<Cell>, pending: seq<Cell>)
      requires Valid()
      reads dist, matrix
    {
      forall i :: 0 <= i < |order| && InBounds(order[i]) && order[i] !in pending ==>
        Closed(sw, order[i]) && (Monotone(sw) ==> Relaxed(sw, order[i]))
    }

    /** The squares taken off the queue are no worse than last, the queued ones no better. */
    ghost predicate PopOrder(sw: Sweep, order: seq<Cell>, pq: seq<Cell>, last: int)
      requires Valid()
      reads dist
    {
      && (forall i :: 0 <= i < |order| && InBounds(order[i]) && order[i] !in pq ==> Better(sw, D(order[i]), last))
      && (forall j :: 0 <= j < |pq| && InBounds(pq[j]) ==> Better(sw, last, D(pq[j])))
    }

    /** No reached square is better than the start distance. */
    ghost predicate Rooted(sw: Sweep, order: seq<Cell>)
      requires Valid()
      reads dist
    {
      forall i :: 0 <= i < |order| && InBounds(order[i]) ==> Better(sw, Start(sw), D(order[i]))
    }

    /** Every predecessor has been taken off the queue. */
    ghost predicate PrevPopped(order: seq<Cell>, pq: seq<Cell>)
      requires Valid()
      reads prev
    {
      forall i :: 0 <= i < |order| && InBounds(order[i]) && P(order[i]).Some? ==> P(order[i]).value !in pq
    }

    /** The i-th reached square's path sum is at most i times the cost bound in size. */
    ghost predicate Bounded(order: seq<Cell>, bound: int)
      requires Valid()
      reads dist
    {
      forall i :: 0 <= i < |order| && InBounds(order[i]) ==> -bound * i <= D(order[i]) <= bound * i
    }

    /** The distance a sweep gives a newly reached square is not Unset, and fits the bound. */
    lemma NewDistanceFits(sw: Sweep, s: Cell, order: seq<Cell>, bound: int, j: int, w: Cell)
      requires Valid() && Swept(sw, s, order) && Sound(sw, s, bound) && (sw.Cheapest? ==> Bounded(order, bound))
      requires 0 <= j < |order| && InBounds(w) && D(w) == Unset(sw)
      ensures Step(sw, D(order[j]), Cost(w)) != Unset(sw)
      ensures sw.Cheapest? ==> -bound * |order| <= Step(sw, D(order[j]), Cost(w)) <= bound * |order|
    {
      assert w !in order;
      if sw.Cheapest? {
        var o := order + [w];
        assert Distinct(o) && forall i :: 0 <= i < |o| ==> InBounds(o[i]);
        CellsFit(o);
        assert -bound <= Cost(w) <= bound;
        assert -bound * j <= D(order[j]) <= bound * j;
        SumFits(bound, j, |order|, numRows * numCols, D(order[j]), Cost(w));
      } else {
        assert w != s && InBounds(order[j]);
        assert Cost(w) != 0 && D(order[j]) != 0;
      }
    }

    /** Reaching w from v keeps the reached squares a sweep. */
    twostate lemma SweptGrows(sw: Sweep, new s: Cell, new order: seq<Cell>, new v: Cell, new w: Cell)
      requires Valid() && old(Swept(sw, s, order)) && unchanged(matrix)
      requires InBounds(w) && old(D(w)) == Unset(sw) && v in order && Near(v, w)
      requires D(w) == Step(sw, old(D(v)), EffCost(sw, w)) && D(w) != Unset(sw) && P(w) == Some(v)
      requires forall x {:trigger D(x)} {:trigger P(x)} :: InBounds(x) && x != w ==> D(x) == old(D(x)) && P(x) == old(P(x))
      ensures Swept(sw, s, order + [w])
    {
      var o := order + [w];
      assert forall i :: 0 <= i < |order| ==> order[i] != w && old(D(order[i])) != Unset(sw);
      forall i | 0 < i < |order|
        ensures LinkedAt(sw, o, i)
      {
        assert old(LinkedAt(sw, order, i));
        assert o[..i] == order[..i];
      }
      assert o[..|order|] == order;
    }

    /** Squares whose neighbours were all reached keep that, and stay relaxed, when an unreached square is reached. */
    twostate lemma ClosedStays(sw: Sweep, new c: Cell, new w: Cell)
      requires Valid() && InBounds(c) && InBounds(w) && unchanged(matrix) && c != w
      requires old(D(w)) == Unset(sw) && old(Closed(sw, c))
      requires forall x {:trigger D(x)} :: InBounds(x) && x != w ==> D(x) == old(D(x))
      ensures Closed(sw, c) && (old(Relaxed(sw, c)) ==> Relaxed(sw, c))
    {
    }

    /** Reaching w, queued behind everything else, keeps the visited squares visited. */
    twostate lemma DoneGrows(sw: Sweep, new order: seq<Cell>, new pq: seq<Cell>, new v: Cell, new w: Cell)
      requires Valid() && unchanged(matrix) && InBounds(w) && old(D(w)) == Unset(sw)
      requires old(Done(sw, order, pq + [v]))
      requires forall x {:trigger D(x)} :: InBounds(x) && x != w ==> D(x) == old(D(x))
      ensures Done(sw, order + [w], pq + [w] + [v])
    {
      var o := order + [w];
      forall i | 0 <= i < |o| && InBounds(o[i]) && o[i] !in pq + [w] + [v]
        ensures Closed(sw, o[i]) && (Monotone(sw) ==> Relaxed(sw, o[i]))
      {
        assert o[i] == order[i] && order[i] !in pq + [v];
        ClosedStays(sw, o[i], w);
      }
    }

    /** Reaching w from v, the square in hand, keeps every predecessor off the queue. */
    twostate lemma PrevGrows(sw: Sweep, new s: Cell, new order: seq<Cell>, new pq: seq<Cell>, new v: Cell, new w: Cell)
      requires Valid() && unchanged(matrix) && old(Swept(sw, s, order))
      requires v in order && v !in pq && InBounds(w) && old(D(w)) == Unset(sw) && P(w) == Some(v)
      requires forall x {:trigger P(x)} :: InBounds(x) && x != w ==> P(x) == old(P(x))
      requires old(PrevPopped(order, pq))
      ensures PrevPopped(order + [w], pq + [w])
    {
      var o := order + [w];
      assert v != w;
      forall i | 0 <= i < |o| && InBounds(o[i]) && P(o[i]).Some?
        ensures P(o[i]).value !in pq + [w]
      {
        if i < |order| {
          assert o[i] == order[i] && order[i] != w;
          if i > 0 {
            assert old(LinkedAt(sw, order, i));
          }
        }
      }
    }

    /** Reaching w from v, the square in hand, keeps the queue ordered around D(v). */
    twostate lemma PopOrderGrows(sw: Sweep, new order: seq<Cell>, new pq: seq<Cell>, new v: Cell, new w: Cell)
      requires Valid() && unchanged(matrix) && Monotone(sw) && Queued(order, pq)
      requires v in order && InBounds(v) && InBounds(w) && old(D(w)) == Unset(sw) && w !in order
      requires D(w) == Step(sw, old(D(v)), EffCost(sw, w))
      requires forall x {:trigger D(x)} :: InBounds(x) && x != w ==> D(x) == old(D(x))
      requires old(PopOrder(sw, order, pq, D(v)) && Rooted(sw, order))
      ensures PopOrder(sw, order + [w], pq + [w], D(v)) && Rooted(sw, order + [w])
    {
      var o := order + [w];
      assert forall i :: 0 <= i < |order| ==> o[i] == order[i] && order[i] != w;
      assert v != w;
      assert Better(sw, D(v), D(w));
      assert Better(sw, Start(sw), D(v)) by {
        var k :| 0 <= k < |order| && order[k] == v;
      }
    }

    /** Reaching w within the bound keeps path sums within their bounds. */
    twostate lemma BoundedGrows(new order: seq<Cell>, new w: Cell, new bound: int)
      requires Valid() && InBounds(w) && w !in order
      requires old(Bounded(order, bound)) && -bound * |order| <= D(w) <= bound * |order|
      requires forall x {:trigger D(x)} :: InBounds(x) && x != w ==> D(x) == old(D(x))
      ensures Bounded(order + [w], bound)
    {
      var o := order + [w];
      assert forall i :: 0 <= i < |order| ==> o[i] == order[i] && order[i] != w;
    }

    /**
     * The body of the sweep's test for an unreached neighbour w of v: w gets
     * its distance and predecessor from v and joins the queue.
     */
    method Reach(sw: Sweep, s: Cell, v: Cell, w: Cell, pq: seq<Cell>, ghost order: seq<Cell>, ghost bound: int)
      returns (pq': seq<Cell>, ghost order': seq<Cell>)
      requires Valid() && Swept(sw, s, order) && Queued(order, pq) && Sound(sw, s, bound)
      requires v in order && v !in pq && InBounds(w) && Near(v, w) && D(w) == Unset(sw)
      requires sw.Cheapest? ==> Bounded(order, bound)
      requires Done(sw, order, pq + [v]) && PrevPopped(order, pq)
      requires Monotone(sw) ==> PopOrder(sw, order, pq, D(v)) && Rooted(sw, order)
      modifies dist, prev
      ensures pq' == pq + [w] && order' == order + [w]
      ensures D(w) == Step(sw, D(v), Cost(w)) && P(w) == Some(v)
      ensures forall x {:trigger D(x)} {:trigger P(x)} :: InBounds(x) && x != w ==> D(x) == old(D(x)) && P(x) == old(P(x))
      ensures Swept(sw, s, order') && Queued(order', pq')
      ensures sw.Cheapest? ==> Bounded(order', bound)
      ensures Done(sw, order', pq' + [v]) && PrevPopped(order', pq')
      ensures Monotone(sw) ==> PopOrder(sw, order', pq', D(v)) && Rooted(sw, order')
    {
      ghost var j :| 0 <= j < |order| && order[j] == v;
      NewDistanceFits(sw, s, order, bound, j, w);
      var d := Step(sw, dist[v.row, v.col], matrix[w.row, w.col]);
      SetDistance(w, d, Some(v));
      pq' := pq + [w];
      order' := order + [w];
      assert w !in order;
      SweptGrows(sw, s, order, v, w);
      DoneGrows(sw, order, pq, v, w);
      PrevGrows(sw, s, order, pq, v, w);
      if Monotone(sw) {
        PopOrderGrows(sw, order, pq, v, w);
      }
      if sw.Cheapest? {
        BoundedGrows(order, w, bound);
      }
    }

    /** A neighbour reached before v was visited is already no worse than what v would give it. */
    lemma ReachedEarlier(sw: Sweep, s: Cell, order: seq<Cell>, pq: seq<Cell>, v: Cell, w: Cell)
      requires Valid() && Swept(sw, s, order) && Monotone(sw)
      requires v in order && InBounds(w) && D(w) != Unset(sw)
      requires PopOrder(sw, order, pq, D(v)) && Rooted(sw, order) && PrevPopped(order, pq)
      ensures Better(sw, D(w), Step(sw, D(v), EffCost(sw, w)))
    {
      var k :| 0 <= k < |order| && order[k] == v;
      assert Better(sw, Start(sw), D(v));
      var i :| 0 <= i < |order| && order[i] == w;
      if i > 0 {
        assert LinkedAt(sw, order, i);
        var u := P(w).value;
        var m :| 0 <= m < i && order[m] == u;
        assert Better(sw, D(u), D(v));
      }
    }

    /** The state while v's neighbours are being visited: v is in hand, neither queued nor done. */
    ghost predicate Visiting(sw: Sweep, s: Cell, order: seq<Cell>, pq: seq<Cell>, v: Cell, bound: int)
      requires Valid()
      reads dist, prev, matrix
    {
      && Swept(sw, s, order) && Queued(order, pq) && Sound(sw, s, bound)
      && v in order && v !in pq
      && (sw.Cheapest? ==> Bounded(order, bound))
      && Done(sw, order, pq + [v]) && PrevPopped(order, pq)
      && (Monotone(sw) ==> PopOrder(sw, order, pq, D(v)) && Rooted(sw, order))
    }

    /** The first k cells of seen have been reached and, when that order holds, are no worse than v would make them. */
    ghost predicate AllVisited(sw: Sweep, v: Cell, seen: seq<Cell>, k: int)
      requires Valid() && InBounds(v)
      reads dist, matrix
    {
      forall j :: 0 <= j < k && j < |seen| && InBounds(seen[j]) ==>
        D(seen[j]) != Unset(sw) && (Monotone(sw) ==> Better(sw, D(seen[j]), Step(sw, D(v), EffCost(sw, seen[j]))))
    }

    /** Reached squares only ever keep their distance, so what was visited stays visited. */
    twostate lemma VisitedStays(sw: Sweep, new v: Cell, new seen: seq<Cell>, new k: int)
      requires Valid() && InBounds(v) && unchanged(matrix) && old(AllVisited(sw, v, seen, k)) && old(D(v)) != Unset(sw)
      requires forall x {:trigger D(x)} :: InBounds(x) && old(D(x)) != Unset(sw) ==> D(x) == old(D(x))
      ensures AllVisited(sw, v, seen, k)
    {
    }

    /** One neighbour w of v: reached from v and queued when still Unset, left alone otherwise. */
    method VisitOne(sw: Sweep, s: Cell, v: Cell, pq: seq<Cell>, ghost order: seq<Cell>, ghost bound: int, seen: seq<Cell>, k: int)
      returns (pq': seq<Cell>, ghost order': seq<Cell>)
      requires Valid() && Visiting(sw, s, order, pq, v, bound) && 0 <= k < |seen|
      requires InBounds(seen[k]) && Near(v, seen[k]) && AllVisited(sw, v, seen, k)
      modifies dist, prev
      ensures (pq', order') == if old(D(seen[k])) == Unset(sw) then (pq + [seen[k]], order + [seen[k]]) else (pq, order)
      ensures D(v) == old(D(v))
      ensures Visiting(sw, s, order', pq', v, bound)
      ensures AllVisited(sw, v, seen, k + 1)
    {
      var w := seen[k];
      if dist[w.row, w.col] == Unset(sw) {
        pq', order' := Reach(sw, s, v, w, pq, order, bound);
        VisitedStays(sw, v, seen, k);
      } else {
        pq', order' := pq, order;
        if Monotone(sw) {
          ReachedEarlier(sw, s, order, pq, v, w);
        }
      }
      VisitedOneMore(sw, v, seen, k);
    }

    /** Once seen[k] is reached, and no worse than v would make it, the first k + 1 cells are visited. */
    lemma VisitedOneMore(sw: Sweep, v: Cell, seen: seq<Cell>, k: int)
      requires Valid() && InBounds(v) && 0 <= k < |seen| && InBounds(seen[k]) && AllVisited(sw, v, seen, k)
      requires D(seen[k]) != Unset(sw)
      requires Monotone(sw) ==> Better(sw, D(seen[k]), Step(sw, D(v), EffCost(sw, seen[k])))
      ensures AllVisited(sw, v, seen, k + 1)
    {
    }

    /**
     * The loop over v.getAdjacents(): every neighbour still Unset is reached
     * from v and queued; afterwards v's neighbours are all reached.
     */
    method VisitNeighbors(sw: Sweep, s: Cell, v: Cell, pq0: seq<Cell>, ghost order0: seq<Cell>, ghost bound: int)
      returns (pq: seq<Cell>, ghost order: seq<Cell>)
      requires Valid() && Visiting(sw, s, order0, pq0, v, bound)
      modifies dist, prev
      ensures Sweeping(sw, s, order, pq, old(D(v)), bound)
      ensures |order0| <= |order| && |pq| - |pq0| == |order| - |order0|
    {
      var neighbors := Adjacents(v);
      pq, order := pq0, order0;
      for k := 0 to |neighbors|
        invariant Visiting(sw, s, order, pq, v, bound) && D(v) == old(D(v))
        invariant |order0| <= |order| && |pq| - |pq0| == |order| - |order0|
        invariant AllVisited(sw, v, neighbors, k)
      {
        assert neighbors[k] in neighbors;
        pq, order := VisitOne(sw, s, v, pq, order, bound, neighbors, k);
      }
      FinishVisit(sw, s, order, pq, v, bound, neighbors);
    }

    /** Once all of v's neighbours are visited, v is done too. */
    lemma FinishVisit(sw: Sweep, s: Cell, order: seq<Cell>, pq: seq<Cell>, v: Cell, bound: int, neighbors: seq<Cell>)
      requires Valid() && Visiting(sw, s, order, pq, v, bound) && AllVisited(sw, v, neighbors, |neighbors|)
      requires forall w {:trigger Near(v, w)} {:trigger w in neighbors} :: w in neighbors <==> InBounds(w) && Near(v, w)
      ensures Sweeping(sw, s, order, pq, D(v), bound)
    {
      assert Closed(sw, v) && (Monotone(sw) ==> Relaxed(sw, v)) by {
        forall w | InBounds(w) && Near(v, w)
          ensures D(w) != Unset(sw) && (Monotone(sw) ==> Better(sw, D(w), Step(sw, D(v), EffCost(sw, w))))
        {
          var j :| 0 <= j < |neighbors| && neighbors[j] == w;
        }
      }
    }

    /** The state at the head of the sweep's loop, last being the distance of the square taken off the queue last. */
    ghost predicate Sweeping(sw: Sweep, s: Cell, order: seq<Cell>, pq: seq<Cell>, last: int, bound: int)
      requires Valid()
      reads dist, prev, matrix
    {
      && Swept(sw, s, order) && Queued(order, pq) && Sound(sw, s, bound)
      && (sw.Cheapest? ==> Bounded(order, bound))
      && Done(sw, order, pq) && PrevPopped(order, pq)
      && (Monotone(sw) ==> PopOrder(sw, order, pq, last) && Rooted(sw, order))
    }

    /** Right after the reset and the start square's setDistance, the sweep's loop may begin. */
    lemma StartSweep(sw: Sweep, s: Cell, bound: int)
      requires Valid() && InBounds(s) && Sound(sw, s, bound)
      requires D(s) == Start(sw) && P(s) == None
      requires forall x {:trigger D(x)} {:trigger P(x)} :: InBounds(x) && x != s ==> D(x) == Unset(sw) && P(x) == None
      ensures Sweeping(sw, s, [s], [s], Start(sw), bound)
    {
      assert Start(sw) != Unset(sw);
    }

    /** Taking the best square v off the queue puts it in hand. */
    lemma PopStep(sw: Sweep, s: Cell, order: seq<Cell>, pq: seq<Cell>, last: int, bound: int, i: nat, v: Cell, rest: seq<Cell>)
      requires Valid() && Sweeping(sw, s, order, pq, last, bound)
      requires i < |pq| && pq[i] == v && rest == Without(pq, i) && InBounds(v)
      requires forall w :: w in pq ==> if sw.Widest? then D(w) <= D(v) else D(v) <= D(w)
      ensures Visiting(sw, s, order, rest, v, bound)
    {
      WithoutFacts(pq, i);
      assert forall x :: x in rest ==> x in pq;
      assert Done(sw, order, rest + [v]) by {
        assert forall x :: x !in rest + [v] ==> x !in pq;
      }
      if Monotone(sw) {
        forall k | 0 <= k < |order| && InBounds(order[k]) && order[k] !in rest
          ensures Better(sw, D(order[k]), D(v))
        {
          if order[k] != v {
            assert order[k] !in pq;
          }
        }
        forall j | 0 <= j < |rest| && InBounds(rest[j])
          ensures Better(sw, D(v), D(rest[j]))
        {
          assert rest[j] in pq;
        }
      }
    }

    /** One step from c towards s: the cell as far as possible on the way. */
    function Toward(a: int, b: int): int {
      if a < b then a + 1 else if b < a then a - 1 else a
    }

    /** A sweep whose every reached square is done has reached the whole grid: any cell can be walked to from s. */
    lemma {:induction false} ReachedFrom(sw: Sweep, s: Cell, order: seq<Cell>, c: Cell)
      requires Valid() && Swept(sw, s, order) && Done(sw, order, []) && InBounds(c)
      ensures D(c) != Unset(sw)
      decreases (if c.row < s.row then s.row - c.row else c.row - s.row) + (if c.col < s.col then s.col - c.col else c.col - s.col)
    {
      if c != s {
        var t := Cell(Toward(c.row, s.row), Toward(c.col, s.col));
        ReachedFrom(sw, s, order, t);
        var i :| 0 <= i < |order| && order[i] == t;
        assert Closed(sw, t);
        assert Near(t, c);
      }
    }

    /** When the queue runs empty every square has been reached, and relaxed where the order is monotone. */
    lemma EndSweep(sw: Sweep, s: Cell, order: seq<Cell>, last: int, bound: int)
      requires Valid() && Sweeping(sw, s, order, [], last, bound)
      ensures forall c :: InBounds(c) ==> D(c) != Unset(sw)
      ensures Monotone(sw) ==> forall c :: InBounds(c) ==> Relaxed(sw, c)
    {
      forall c | InBounds(c)
        ensures D(c) != Unset(sw) && (Monotone(sw) ==> Relaxed(sw, c))
      {
        ReachedFrom(sw, s, order, c);
        var i :| 0 <= i < |order| && order[i] == c;
      }
    }

    /**
     * The loop both sweeps share: take the best queued square off the queue
     * and visit its neighbours, until the queue is empty.
     */
    method RunSweep(sw: Sweep, s: Cell, ghost bound: int) returns (ghost order: seq<Cell>)
      requires Valid() && Sweeping(sw, s, [s], [s], Start(sw), bound)
      modifies dist, prev
      ensures Swept(sw, s, order)
      ensures forall c :: InBounds(c) ==> D(c) != Unset(sw)
      ensures Monotone(sw) ==> forall c :: InBounds(c) ==> Relaxed(sw, c)
    {
      var pq := [s];
      order := [s];
      ghost var last := Start(sw);
      while pq != []
        invariant Sweeping(sw, s, order, pq, last, bound)
        decreases numRows * numCols - |order|, |pq|
      {
        pq, order, last := SweepStep(sw, s, pq, order, last, bound);
      }
      EndSweep(sw, s, order, last, bound);
    }

    /** One turn of the sweep: the best queued square is taken off the queue and its neighbours are visited. */
    method SweepStep(sw: Sweep, s: Cell, pq0: seq<Cell>, ghost order0: seq<Cell>, ghost last0: int, ghost bound: int)
      returns (pq: seq<Cell>, ghost order: seq<Cell>, ghost last: int)
      requires Valid() && pq0 != [] && Sweeping(sw, s, order0, pq0, last0, bound)
      modifies dist, prev
      ensures Sweeping(sw, s, order, pq, last, bound)
      ensures |order0| <= |order| <= numRows * numCols
      ensures |order| == |order0| ==> |pq| < |pq0|
    {
      var v, rest, i := ExtractBest(pq0, sw.Widest?);
      PopStep(sw, s, order0, pq0, last0, bound, i, v, rest);
      last := dist[v.row, v.col];
      pq, order := VisitNeighbors(sw, s, v, rest, order0, bound);
      CellsFit(order);
    }

    /**
     * computeShortestPath: every square gets the sum of the costs along the
     * path the sweep found from s, INFINITY meaning not reached yet; the
     * queue takes squares in order of distance and each square is queued at
     * most once, when first reached.
     */
    method ComputeShortestPath(s: Cell, ghost bound: int) returns (ghost order: seq<Cell>)
      requires Valid() && InBounds(s) && Sound(Cheapest, s, bound)
      modifies dist, prev
      ensures Swept(Cheapest, s, order)
      ensures forall c :: InBounds(c) ==> D(c) != INFINITY
      ensures Monotone(Cheapest) ==> forall c :: InBounds(c) ==> Relaxed(Cheapest, c)
    {
      ResetDistances(INFINITY);
      SetDistance(s, 0, None);
      StartSweep(Cheapest, s, bound);
      order := RunSweep(Cheapest, s, bound);
    }

    /** setCost: the cell c gets cost x; no other cost changes. */
    method SetCost(c: Cell, x: int)
      requires Valid() && InBounds(c)
      modifies matrix
      ensures Cost(c) == x
      ensures forall y {:trigger Cost(y)} :: InBounds(y) && y != c ==> Cost(y) == old(Cost(y))
    {
      matrix[c.row, c.col] := x;
    }

    /** Restoring the lower right corner's cost changes nothing the bottleneck sweep established. */
    twostate lemma RestoreKeepsSweep(s: Cell, new order: seq<Cell>)
      requires Valid() && unchanged(dist) && unchanged(prev)
      requires forall y {:trigger Cost(y)} :: InBounds(y) && y != LowerRight() ==> Cost(y) == old(Cost(y))
      requires old(Swept(Widest, s, order))
      requires old(forall c :: InBounds(c) ==> Relaxed(Widest, c))
      ensures Swept(Widest, s, order)
      ensures forall c :: InBounds(c) ==> Relaxed(Widest, c)
    {
      assert forall c :: InBounds(c) ==> EffCost(Widest, c) == old(EffCost(Widest, c));
      forall i | 0 < i < |order|
        ensures LinkedAt(Widest, order, i)
      {
        assert old(LinkedAt(Widest, order, i));
      }
      forall c | InBounds(c)
        ensures Relaxed(Widest, c)
      {
        assert old(Relaxed(Widest, c));
      }
    }

    /**
     * computeBottleNeckPath: every square gets the least cost along the path
     * the sweep found from s, the lower right corner counting as INFINITY and
     * 0 meaning not reached yet; the queue takes squares in order of
     * decreasing distance, and the lower right corner's cost is restored.
     */
    method ComputeBottleNeckPath(s: Cell) returns (ghost order: seq<Cell>)
      requires Valid() && InBounds(s)
      requires forall c :: InBounds(c) && c != s && c != LowerRight() ==> Cost(c) != 0
      modifies matrix, dist, prev
      ensures forall c :: InBounds(c) ==> Cost(c) == old(Cost(c))
      ensures Swept(Widest, s, order)
      ensures forall c :: InBounds(c) ==> D(c) != 0
      ensures forall c :: InBounds(c) ==> Relaxed(Widest, c)
    {
      ResetDistances(0);
      SetDistance(s, INFINITY, None);
      var oldLowerCost := matrix[numRows - 1, numCols - 1];
      SetCost(LowerRight(), INFINITY);
      StartSweep(Widest, s, 0);
      order := RunSweep(Widest, s, 0);
      label Swept:
      SetCost(LowerRight(), oldLowerCost);
      RestoreKeepsSweep@Swept(s, order);
    }

    /**
     * The predecessor links lead back, without cycles, to a cell that has
     * none: every cell with a predecessor is among the ranked cells, and its
     * predecessor is ranked before it.
     */
    ghost predicate Ranked(order: seq<Cell>)
      requires Valid()
      reads prev
    {
      && Distinct(order)
      && (forall i :: 0 <= i < |order| ==> InBounds(order[i]))
      && (forall c {:trigger P(c)} :: InBounds(c) && P(c).Some? ==> c in order)
      && (forall i :: 0 <= i < |order| && InBounds(order[i]) && P(order[i]).Some? ==>
            InBounds(P(order[i]).value) && P(order[i]).value in order[..i])
    }

    /** The links a sweep leaves behind can be followed back. */
    lemma SweptRanked(sw: Sweep, s: Cell, order: seq<Cell>)
      requires Valid() && Swept(sw, s, order)
      ensures Ranked(order)
    {
      forall i | 0 <= i < |order| && InBounds(order[i]) && P(order[i]).Some?
        ensures InBounds(P(order[i]).value) && P(order[i]).value in order[..i]
      {
        assert i != 0;
        assert LinkedAt(sw, order, i);
      }
    }

    /** A cell's predecessor is ranked before it. */
    lemma RankFalls(order: seq<Cell>, c: Cell)
      requires Valid() && Ranked(order) && InBounds(c) && P(c).Some?
      ensures c in order && P(c).value in order && IndexOf(order, P(c).value) < IndexOf(order, c)
    {
      var i := IndexOf(order, c);
      assert P(order[i]).value in order[..i];
      var k :| 0 <= k < i && order[k] == P(c).value;
      var j := IndexOf(order, P(c).value);
      assert order[j] == order[k];
    }

    /** The cells createPath lists for c: the predecessor links followed back from c, met in reverse. */
    ghost function PathTo(order: seq<Cell>, c: Cell): seq<Cell>
      requires Valid() && Ranked(order) && InBounds(c)
      reads prev
      decreases if c in order then IndexOf(order, c) + 1 else 0
    {
      if P(c).None? then [c]
      else
        RankFalls(order, c);
        PathTo(order, P(c).value) + [c]
    }

    /** The listed cells start at one without a predecessor, end at c, and each is the predecessor of the next. */
    lemma {:induction false} PathLinks(order: seq<Cell>, c: Cell)
      requires Valid() && Ranked(order) && InBounds(c)
      ensures var p := PathTo(order, c);
        && p != [] && p[|p| - 1] == c
        && (forall k :: 0 <= k < |p| ==> InBounds(p[k]))
        && P(p[0]) == None
        && forall k :: 0 < k < |p| ==> P(p[k]) == Some(p[k - 1])
      decreases if c in order then IndexOf(order, c) + 1 else 0
    {
      if P(c).Some? {
        var b := P(c).value;
        RankFalls(order, c);
        PathLinks(order, b);
        var q := PathTo(order, b);
        var p := q + [c];
        assert PathTo(order, c) == p;
        assert forall k :: 0 <= k < |q| ==> p[k] == q[k];
      }
    }

    /**
     * createPath: follows the predecessor links back from c, collecting the
     * cells, then lists them in reverse, from the first cell to c.
     */
    method CreatePath(c: Cell, ghost order: seq<Cell>) returns (path: seq<Cell>)
      requires Valid() && InBounds(c) && Ranked(order)
      ensures path == PathTo(order, c)
    {
      var trail: seq<Cell> := [];
      var cur := Some(c);
      while cur.Some?
        invariant cur.Some? ==> InBounds(cur.value)
        invariant (if cur.Some? then PathTo(order, cur.value) else []) + Reverse(trail) == PathTo(order, c)
        decreases if cur.None? then 0 else if cur.value in order then IndexOf(order, cur.value) + 2 else 1
      {
        var x := cur.value;
        ghost var rest := if P(x).Some? then PathTo(order, P(x).value) else [];
        assert PathTo(order, x) == rest + [x];
        ReverseSnoc(trail, x);
        assert rest + [x] + Reverse(trail) == rest + Reverse(trail + [x]);
        if P(x).Some? {
          RankFalls(order, x);
        }
        trail := trail + [x];
        cur := prev[x.row, x.col];
      }
      var temp: seq<Cell> := [];
      var i := |trail| - 1;
      while i >= 0
        invariant -1 <= i < |trail|
        invariant |temp| == |trail| - 1 - i
        invariant forall k :: 0 <= k < |temp| ==> temp[k] == trail[|trail| - 1 - k]
      {
        temp := temp + [trail[i]];
        i := i - 1;
      }
      path := temp;
      assert path == Reverse(trail);
    }

    /** A path from a to b: neighbouring grid cells one after the other. */
    ghost predicate IsPath(p: seq<Cell>, a: Cell, b: Cell)
      requires Valid()
    {
      && p != [] && p[0] == a && p[|p| - 1] == b
      && (forall k :: 0 <= k < |p| ==> InBounds(p[k]))
      && forall k :: 0 < k < |p| ==> Near(p[k - 1], p[k])
    }

    /**
     * What a path earns under a sweep: the start distance at its first cell,
     * then a Step for each further cell, that is its sum of costs after the
     * first cell, or the least of them.
     */
    ghost function PathValue(sw: Sweep, p: seq<Cell>): int
      requires Valid() && p != [] && forall k :: 0 <= k < |p| ==> InBounds(p[k])
      reads matrix
      decreases |p|
    {
      if |p| == 1 then Start(sw) else Step(sw, PathValue(sw, p[..|p| - 1]), EffCost(sw, p[|p| - 1]))
    }

    /** Where every square is relaxed, no path from s to c earns better than c's distance. */
    lemma {:induction false} NoPathIsBetter(sw: Sweep, s: Cell, p: seq<Cell>, c: Cell)
      requires Valid() && InBounds(s) && D(s) == Start(sw) && IsPath(p, s, c)
      requires forall x :: InBounds(x) ==> Relaxed(sw, x)
      ensures Better(sw, D(c), PathValue(sw, p))
      decreases |p|
    {
      if |p| > 1 {
        var q := p[..|p| - 1];
        var b := q[|q| - 1];
        assert IsPath(q, s, b);
        NoPathIsBetter(sw, s, q, b);
        assert Relaxed(sw, b) && Near(b, c);
        StepKeepsBetter(sw, D(b), PathValue(sw, q), EffCost(sw, c));
      }
    }

    /** After a sweep, the path createPath lists for a reached c runs from s to c and earns exactly c's distance. */
    lemma {:induction false} PathEarnsDistance(sw: Sweep, s: Cell, order: seq<Cell>, c: Cell)
      requires Valid() && Swept(sw, s, order) && InBounds(c) && D(c) != Unset(sw)
      ensures Ranked(order)
      ensures IsPath(PathTo(order, c), s, c)
      ensures PathValue(sw, PathTo(order, c)) == D(c)
      decreases if c in order then IndexOf(order, c) else 0
    {
      SweptRanked(sw, s, order);
      var i := IndexOf(order, c);
      if i == 0 {
        assert PathTo(order, c) == [s];
      } else {
        assert LinkedAt(sw, order, i);
        var b := P(c).value;
        var k :| 0 <= k < i && order[k] == b;
        assert IndexOf(order, b) == k by { assert order[IndexOf(order, b)] == order[k]; }
        PathEarnsDistance(sw, s, order, b);
        var q := PathTo(order, b);
        assert PathTo(order, c) == q + [c];
        PathExtends(sw, q, s, b, c);
      }
    }

    /** A path from a to b followed by a neighbour c of b is a path from a to c, one Step further. */
    lemma PathExtends(sw: Sweep, q: seq<Cell>, a: Cell, b: Cell, c: Cell)
      requires Valid() && IsPath(q, a, b) && InBounds(c) && Near(b, c)
      ensures IsPath(q + [c], a, c)
      ensures PathValue(sw, q + [c]) == Step(sw, PathValue(sw, q), EffCost(sw, c))
    {
      var p := q + [c];
      assert p[..|p| - 1] == q;
      assert forall j :: 0 <= j < |q| ==> p[j] == q[j];
    }

    /**
     * What the two sweeps are for: when every square is relaxed (by
     * computeBottleNeckPath always, by computeShortestPath when no cost is
     * negative), the path createPath lists for c earns c's distance, and no
     * path from s to c earns better: the cheapest path, or the widest.
     */
    lemma BestPath(sw: Sweep, s: Cell, order: seq<Cell>, c: Cell)
      requires Valid() && Swept(sw, s, order) && InBounds(c) && D(c) != Unset(sw)
      requires forall x :: InBounds(x) ==> Relaxed(sw, x)
      ensures Ranked(order)
      ensures IsPath(PathTo(order, c), s, c) && PathValue(sw, PathTo(order, c)) == D(c)
      ensures forall p :: IsPath(p, s, c) ==> Better(sw, PathValue(sw, PathTo(order, c)), PathValue(sw, p))
    {
      PathEarnsDistance(sw, s, order, c);
      forall p | IsPath(p, s, c)
        ensures Better(sw, D(c), PathValue(sw, p))
      {
        NoPathIsBetter(sw, s, p, c);
      }
    }
  }
}
