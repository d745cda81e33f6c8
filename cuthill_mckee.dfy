/**
 * Cuthill–McKee ordering of a sparse symmetric matrix held as a graph.
 *
 * Each `Vertex` keeps its row as a dictionary `adj` from column to value.
 * A Python dictionary remembers the order in which keys were inserted, so
 * the model keeps that order next to the map as the sequence `keys`.
 *
 * The ordering first sorts the vertex list stably by degree. Then a
 * breadth-first search runs from each vertex that is not yet visited.
 * A search takes neighbours through `self.vertices[i]`, where `i` is a key
 * of the popped vertex. That is position `i` of the list as it stands
 * after the sort, not the vertex whose id is `i`. The search is therefore
 * specified on positions: position `p` of the sorted list has successors
 * `keys` of the vertex at `p` and degree `len(adj)` of that vertex.
 */
module CuthillMckee {
  import opened StableSort

  /** The constant `EPSILON` below which `from_dense_format` drops a cell. */
  const EPSILON: real := 0.00000000000001

  function Abs(x: real): real
  {
    if x < 0.0 then -x else x
  }

  /** `dict.get(key, 0.0)`. */
  function Lookup(adj: map<int, real>, key: int): real
  {
    if key in adj then adj[key] else 0.0
  }

  predicate Distinct(s: seq<int>)
  {
    forall i, j :: 0 <= i < j < |s| ==> s[i] != s[j]
  }

  function Elements(s: seq<int>): set<int>
  {
    set x | x in s
  }

  /** The positions `0 .. n-1` in order. */
  function Indices(n: int): (r: seq<int>)
    ensures |r| == (if n < 0 then 0 else n) && forall i :: 0 <= i < |r| ==> r[i] == i
  {
    seq(if n < 0 then 0 else n, i => i)
  }

  /** The positions `0 .. n-1`. */
  function Range(n: int): (r: set<int>)
    ensures forall p :: p in r <==> 0 <= p < n
  {
    IndicesElements(n);
    Elements(Indices(n))
  }

  lemma IndicesElements(n: int)
    ensures forall p :: p in Elements(Indices(n)) <==> 0 <= p < n
  {
    var s := Indices(n);
    forall p
      ensures p in Elements(s) <==> 0 <= p < n
    {
      if 0 <= p < n {
        assert s[p] == p;
      }
    }
  }

  /** Every element of `s` is a position below `n`. */
  predicate Below(s: set<int>, n: int)
  {
    forall x :: x in s ==> 0 <= x < n
  }

  /** `keys` without `x`. */
  function Without(keys: seq<int>, x: int): (r: seq<int>)
    ensures forall y :: y in r <==> y in keys && y != x
  {
    if keys == [] then []
    else (if keys[0] == x then [] else [keys[0]]) + Without(keys[1..], x)
  }

  // ---------------------------------------------------------------------------
  // One dictionary

  /**
   * A dictionary and its key order agree: every key appears once in
   * `keys`, exactly the keys of `adj` appear, and no stored value is zero.
   */
  ghost predicate DictState(adj: map<int, real>, keys: seq<int>)
  {
    Distinct(keys) && (forall k :: k in adj <==> k in keys) && (forall k :: k in adj ==> adj[k] != 0.0)
  }

  /**
   * `Vertex.__setitem__` on the dictionary: store `value` under `key`, then
   * delete `key` again when `abs(value) <= 0`. Reading any key back gives
   * the value just written there and the old value elsewhere.
   */
  function StoreValue(adj: map<int, real>, key: int, value: real): (r: map<int, real>)
    ensures key in r <==> value != 0.0
    ensures forall k :: Lookup(r, k) == if k == key then value else Lookup(adj, k)
  {
    if Abs(value) <= 0.0 then adj - {key} else adj[key := value]
  }

  /**
   * `Vertex.__setitem__` on the key order: a new key goes last, an old key
   * keeps its place, and a deleted key leaves the order.
   */
  function StoreKey(keys: seq<int>, adj: map<int, real>, key: int, value: real): (r: seq<int>)
    ensures forall y :: y in r ==> y in keys || y == key
  {
    if Abs(value) <= 0.0 then Without(keys, key)
    else if key in adj then keys
    else keys + [key]
  }

  lemma {:induction false} WithoutDistinct(keys: seq<int>, x: int)
    requires Distinct(keys)
    ensures Distinct(Without(keys, x))
  {
    if keys != [] {
      WithoutDistinct(keys[1..], x);
      assert keys[0] !in keys[1..];
    }
  }

  /** `__setitem__` keeps the dictionary and its key order in agreement. */
  lemma StorePreserves(adj: map<int, real>, keys: seq<int>, key: int, value: real)
    requires DictState(adj, keys)
    ensures DictState(StoreValue(adj, key, value), StoreKey(keys, adj, key, value))
  {
    if Abs(value) <= 0.0 {
      WithoutDistinct(keys, key);
    }
  }

  /** A sequence without repetitions has as many elements as it has positions. */
  lemma {:induction false} DistinctSize(s: seq<int>)
    requires Distinct(s)
    ensures |Elements(s)| == |s|
  {
    if s != [] {
      DistinctSize(s[1..]);
      assert Elements(s) == {s[0]} + Elements(s[1..]);
      assert s[0] !in Elements(s[1..]);
    }
  }

  /** A set of positions below `n` has at most `n` elements. */
  lemma {:induction false} RangeBound(a: set<int>, n: nat)
    requires Below(a, n)
    ensures |a| <= n
    decreases n
  {
    if n > 0 {
      RangeBound(a - {n - 1}, n - 1);
    } else {
      assert forall x :: x !in a;
      assert a == {};
    }
  }

  lemma Tails(o: seq<int>, m: seq<int>, e: seq<int>)
    requires o <= m <= e
    ensures e[|o|..] == m[|o|..] + e[|m|..]
  {
  }

  /** The positions added in two successive stages are those added overall. */
  lemma Layers(a: set<int>, x: set<int>, b: set<int>, c: set<int>)
    requires a + x <= b <= c && a !! x
    ensures x + (b - (a + x)) == b - a && (b - a) + (c - b) == c - a
  {
  }

  lemma DistinctConcat(a: seq<int>, b: seq<int>)
    requires Distinct(a) && Distinct(b) && Elements(a) !! Elements(b)
    ensures Distinct(a + b) && Elements(a + b) == Elements(a) + Elements(b)
  {
    forall i, j | 0 <= i < j < |a + b|
      ensures (a + b)[i] != (a + b)[j]
    {
      if i < |a| && j >= |a| {
        assert (a + b)[i] in Elements(a) && (a + b)[j] in Elements(b);
      }
    }
  }

  lemma HeadAndTail(q: seq<int>)
    requires q != []
    ensures Elements(q) == {q[0]} + Elements(q[1..])
    ensures Distinct(q) ==> Distinct(q[1..]) && q[0] !in Elements(q[1..])
  {
  }

  lemma PrefixRest(s: seq<int>, prefix: seq<int>)
    requires prefix <= s
    ensures s == prefix + s[|prefix|..]
    ensures Elements(s) == Elements(prefix) + Elements(s[|prefix|..])
  {
    assert s == prefix + s[|prefix|..];
  }

  lemma PrefixNext(s: seq<int>, prefix: seq<int>, u: int)
    requires prefix + [u] <= s
    ensures s[|prefix|..] == [u] + s[|prefix| + 1..]
  {
  }

  // ---------------------------------------------------------------------------
  // The search, on positions of the sorted vertex list

  /** Every successor is a position of the list. */
  predicate Edges(G: seq<seq<int>>)
  {
    forall p, i :: 0 <= p < |G| && 0 <= i < |G[p]| ==> 0 <= G[p][i] < |G|
  }

  /** The sort key of a position: the degree of the vertex there. */
  function DegreeKey(deg: seq<int>): int -> int
  {
    p => if 0 <= p < |deg| then deg[p] else 0
  }

  /**
   * `sorted([self.vertices[i] for i in u.adj.keys()])`, on positions: the
   * successors of `u` in key order, sorted stably by ascending degree.
   */
  function Neighbours(G: seq<seq<int>>, deg: seq<int>, u: int): (ns: seq<int>)
    requires Edges(G) && 0 <= u < |G|
    ensures forall i :: 0 <= i < |ns| ==> 0 <= ns[i] < |G|
    ensures Below(Elements(ns), |G|)
  {
    var ns := SortBy(G[u], DegreeKey(deg));
    SortByPermutes(G[u], DegreeKey(deg));
    assert forall i :: 0 <= i < |ns| ==> ns[i] in multiset(G[u]);
    ns
  }

  /**
   * The `for n in neighbours` loop: each neighbour not yet visited is
   * marked and appended to the queue, in order.
   */
  function Enqueue(ns: seq<int>, visited: set<int>, queue: seq<int>): (set<int>, seq<int>)
  {
    if ns == [] then (visited, queue)
    else if ns[0] in visited then Enqueue(ns[1..], visited, queue)
    else Enqueue(ns[1..], visited + {ns[0]}, queue + [ns[0]])
  }

  /**
   * Every neighbour ends up marked, and the queue grows by exactly the
   * newly marked positions, once each.
   */
  lemma {:induction false} EnqueueAdds(ns: seq<int>, visited: set<int>, queue: seq<int>)
    ensures var r := Enqueue(ns, visited, queue);
      r.0 == visited + Elements(ns) && queue <= r.1 &&
      Distinct(r.1[|queue|..]) && Elements(r.1[|queue|..]) == r.0 - visited
    decreases |ns|
  {
    if ns != [] {
      var x := ns[0];
      assert Elements(ns) == {x} + Elements(ns[1..]);
      if x in visited {
        EnqueueAdds(ns[1..], visited, queue);
      } else {
        EnqueueAdds(ns[1..], visited + {x}, queue + [x]);
        var r := Enqueue(ns[1..], visited + {x}, queue + [x]);
        var tail := r.1[|queue| + 1..];
        assert r.1[|queue|..] == [x] + tail;
        assert x !in Elements(tail);
        DistinctConcat([x], tail);
      }
    }
  }

  /** The entries of `ns` that are not in `visited`, in their order in `ns`. */
  function Unvisited(ns: seq<int>, visited: set<int>): seq<int>
  {
    if ns == [] then []
    else if ns[0] in visited then Unvisited(ns[1..], visited)
    else [ns[0]] + Unvisited(ns[1..], visited)
  }

  /** Marking a position that does not occur in `ns` does not change which entries of `ns` are unvisited. */
  lemma {:induction false} UnvisitedMark(ns: seq<int>, visited: set<int>, x: int)
    requires x !in ns
    ensures Unvisited(ns, visited + {x}) == Unvisited(ns, visited)
    decreases |ns|
  {
    if ns != [] {
      assert ns[0] != x;
      UnvisitedMark(ns[1..], visited, x);
    }
  }

  /**
   * For neighbours without repetitions, the loop appends exactly those not
   * visited before, in the order of `ns` (that it marks every one of them
   * is part of the contract of `Enqueue`).
   */
  lemma {:induction false} EnqueueExact(ns: seq<int>, visited: set<int>, queue: seq<int>)
    requires Distinct(ns)
    ensures Enqueue(ns, visited, queue).1 == queue + Unvisited(ns, visited)
    decreases |ns|
  {
    if ns != [] {
      var x, tail := ns[0], ns[1..];
      DistinctTail(ns);
      if x in visited {
        EnqueueExact(tail, visited, queue);
        EnqueueSkip(ns, visited, queue);
      } else {
        EnqueueExact(tail, visited + {x}, queue + [x]);
        UnvisitedMark(tail, visited, x);
        EnqueueFresh(ns, visited, queue);
      }
    }
  }

  lemma DistinctTail(ns: seq<int>)
    requires ns != [] && Distinct(ns)
    ensures Distinct(ns[1..]) && ns[0] !in ns[1..]
  {
  }

  /** One neighbour already visited: it is skipped. */
  lemma EnqueueSkip(ns: seq<int>, visited: set<int>, queue: seq<int>)
    requires ns != [] && ns[0] in visited
    requires Enqueue(ns[1..], visited, queue).1 == queue + Unvisited(ns[1..], visited)
    ensures Enqueue(ns, visited, queue).1 == queue + Unvisited(ns, visited)
  {
    assert Unvisited(ns, visited) == Unvisited(ns[1..], visited);
  }

  /** One neighbour not yet visited: it is appended before the rest. */
  lemma EnqueueFresh(ns: seq<int>, visited: set<int>, queue: seq<int>)
    requires ns != [] && ns[0] !in visited
    requires Enqueue(ns[1..], visited + {ns[0]}, queue + [ns[0]]).1 == queue + [ns[0]] + Unvisited(ns[1..], visited)
    ensures Enqueue(ns, visited, queue).1 == queue + Unvisited(ns, visited)
  {
    var later := Unvisited(ns[1..], visited);
    assert Unvisited(ns, visited) == [ns[0]] + later;
    Regroup(queue, [ns[0]], later);
  }

  lemma Regroup(a: seq<int>, b: seq<int>, c: seq<int>)
    ensures a + b + c == a + (b + c)
  {
  }

  /** Enqueueing positions below `n` keeps the visited positions below `n`. */
  lemma EnqueueBelow(ns: seq<int>, visited: set<int>, queue: seq<int>, n: int)
    requires Below(visited, n) && Below(Elements(ns), n)
    ensures Below(Enqueue(ns, visited, queue).0, n)
  {
    EnqueueAdds(ns, visited, queue);
    var r := Enqueue(ns, visited, queue).0;
    forall x | x in r
      ensures 0 <= x < n
    {
      if x !in visited {
        assert x in Elements(ns);
      }
    }
  }

  /**
   * `_bfs` from the moment its queue is `queue`: pop the front, append it
   * to the ordering, enqueue its unvisited neighbours; stop when the queue
   * is empty. The result is the final visited set and ordering.
   */
  function BfsFrom(G: seq<seq<int>>, deg: seq<int>, queue: seq<int>, visited: set<int>, ordering: seq<int>): (r: (set<int>, seq<int>))
    requires Edges(G) && Below(visited, |G|) && Elements(queue) <= visited
    ensures visited <= r.0 && Below(r.0, |G|)
    ensures ordering <= r.1
    decreases |G| - |visited|, |queue|
  {
    if queue == [] then (visited, ordering)
    else
      var u := queue[0];
      assert u in Elements(queue);
      var ns, rest := Neighbours(G, deg, u), queue[1..];
      var e := Enqueue(ns, visited, rest);
      EnqueueAdds(ns, visited, rest);
      EnqueueBelow(ns, visited, rest, |G|);
      RangeBound(e.0, |G|);
      PrefixRest(e.1, rest);
      PopMeasure(visited, e.0, e.1[|rest|..]);
      BfsFrom(G, deg, e.1, e.0, ordering + [u])
  }

  /**
   * The loop of `cuthil_mckee_ordering` from position `p` on: every
   * position not yet visited starts a search with itself as the queue.
   * Afterwards every position from `p` on is visited.
   */
  function Scan(G: seq<seq<int>>, deg: seq<int>, p: int, visited: set<int>, ordering: seq<int>): (r: (set<int>, seq<int>))
    requires Edges(G) && Below(visited, |G|) && 0 <= p <= |G|
    ensures visited <= r.0 && Below(r.0, |G|)
    ensures forall q :: p <= q < |G| ==> q in r.0
    ensures ordering <= r.1
    decreases |G| - p
  {
    if p == |G| then (visited, ordering)
    else if p in visited then Scan(G, deg, p + 1, visited, ordering)
    else
      assert Elements([p]) == {p};
      var b := BfsFrom(G, deg, [p], visited + {p}, ordering);
      Scan(G, deg, p + 1, b.0, b.1)
  }

  // ---------------------------------------------------------------------------
  // What the search produces

  /**
   * A search appends each position of its queue and each position it
   * newly visits, once each, and nothing else.
   */
  lemma {:induction false} BfsFromOrders(G: seq<seq<int>>, deg: seq<int>, queue: seq<int>, visited: set<int>, ordering: seq<int>)
    requires Edges(G) && Below(visited, |G|) && Elements(queue) <= visited && Distinct(queue)
    ensures var r := BfsFrom(G, deg, queue, visited, ordering);
      Distinct(r.1[|ordering|..]) && Elements(r.1[|ordering|..]) == Elements(queue) + (r.0 - visited)
    decreases |G| - |visited|, |queue|
  {
    var r := BfsFrom(G, deg, queue, visited, ordering);
    if queue != [] {
      var u := queue[0];
      assert u in Elements(queue);
      var e := Enqueue(Neighbours(G, deg, u), visited, queue[1..]);
      PopStep(G, deg, queue, visited, u);
      assert r == BfsFrom(G, deg, e.1, e.0, ordering + [u]);
      BfsFromOrders(G, deg, e.1, e.0, ordering + [u]);
      AppendVisit(ordering, u, r.1, Elements(e.1) + (r.0 - e.0));
    }
  }

  /** One pass of the search loop: what popping the front and enqueueing its neighbours does to the queue. */
  lemma PopStep(G: seq<seq<int>>, deg: seq<int>, queue: seq<int>, visited: set<int>, u: int)
    requires Edges(G) && Below(visited, |G|) && Elements(queue) <= visited && Distinct(queue)
    requires queue != [] && u == queue[0] && 0 <= u < |G|
    ensures var e := Enqueue(Neighbours(G, deg, u), visited, queue[1..]);
      visited <= e.0 && Below(e.0, |G|) && Distinct(e.1) && u !in Elements(e.1) &&
      Elements(e.1) == Elements(queue[1..]) + (e.0 - visited) && Elements(e.1) <= e.0 &&
      Elements(queue) == {u} + Elements(queue[1..]) &&
      (|G| - |e.0| < |G| - |visited| || (e.0 == visited && |e.1| < |queue|)) && |e.0| <= |G|
  {
    var ns, rest := Neighbours(G, deg, u), queue[1..];
    var e := Enqueue(ns, visited, rest);
    EnqueueAdds(ns, visited, rest);
    EnqueueBelow(ns, visited, rest, |G|);
    RangeBound(e.0, |G|);
    var added := e.1[|rest|..];
    PrefixRest(e.1, rest);
    PopMeasure(visited, e.0, added);
    HeadAndTail(queue);
    DistinctConcat(rest, added);
  }

  /** Enqueueing either marks a new position or adds nothing to the queue. */
  lemma PopMeasure(visited: set<int>, grown: set<int>, added: seq<int>)
    requires visited <= grown && Distinct(added) && Elements(added) == grown - visited
    ensures |visited| < |grown| || (grown == visited && added == [])
  {
    DistinctSize(added);
    if grown != visited {
      assert visited < grown;
    }
  }

  lemma AppendVisit(o: seq<int>, u: int, out: seq<int>, later: set<int>)
    requires o + [u] <= out && Distinct(out[|o| + 1..]) && Elements(out[|o| + 1..]) == later && u !in later
    ensures Distinct(out[|o|..]) && Elements(out[|o|..]) == {u} + later
  {
    PrefixNext(out, o, u);
    DistinctConcat([u], out[|o| + 1..]);
  }

  /**
   * The scan appends each position it newly visits, once each, and
   * nothing else.
   */
  lemma {:induction false} ScanOrders(G: seq<seq<int>>, deg: seq<int>, p: int, visited: set<int>, ordering: seq<int>)
    requires Edges(G) && Below(visited, |G|) && 0 <= p <= |G|
    ensures var r := Scan(G, deg, p, visited, ordering);
      Distinct(r.1[|ordering|..]) && Elements(r.1[|ordering|..]) == r.0 - visited
    decreases |G| - p
  {
    var r := Scan(G, deg, p, visited, ordering);
    if p < |G| {
      if p in visited {
        assert r == Scan(G, deg, p + 1, visited, ordering);
        ScanOrders(G, deg, p + 1, visited, ordering);
      } else {
        assert Elements([p]) == {p};
        var b := BfsFrom(G, deg, [p], visited + {p}, ordering);
        assert r == Scan(G, deg, p + 1, b.0, b.1);
        BfsFromOrders(G, deg, [p], visited + {p}, ordering);
        ScanOrders(G, deg, p + 1, b.0, b.1);
        Combine(ordering, visited, {p}, b, r);
      }
    } else {
      assert r == (visited, ordering);
      assert r.1[|ordering|..] == [];
    }
  }

  /** A search followed by the rest of the scan: their appended positions add up. */
  lemma Combine(ordering: seq<int>, visited: set<int>, x: set<int>, b: (set<int>, seq<int>), r: (set<int>, seq<int>))
    requires ordering <= b.1 <= r.1 && visited + x <= b.0 <= r.0 && visited !! x
    requires Distinct(b.1[|ordering|..]) && Elements(b.1[|ordering|..]) == x + (b.0 - (visited + x))
    requires Distinct(r.1[|b.1|..]) && Elements(r.1[|b.1|..]) == r.0 - b.0
    ensures Distinct(r.1[|ordering|..]) && Elements(r.1[|ordering|..]) == r.0 - visited
  {
    var first, second := b.1[|ordering|..], r.1[|b.1|..];
    Tails(ordering, b.1, r.1);
    Layers(visited, x, b.0, r.0);
    DistinctConcat(first, second);
  }

  /**
   * `cuthil_mckee_ordering` on positions: afterwards every position is
   * visited, and the ordering lists the positions that were not visited
   * before, each exactly once.
   */
  lemma CuthillMckeeVisitsAll(G: seq<seq<int>>, deg: seq<int>, visited: set<int>)
    requires Edges(G) && Below(visited, |G|)
    ensures var r := Scan(G, deg, 0, visited, []);
      r.0 == Range(|G|) && Distinct(r.1) && Elements(r.1) == Range(|G|) - visited
  {
    ScanOrders(G, deg, 0, visited, []);
  }

  /** With no position visited beforehand, the ordering is a permutation of all positions. */
  lemma CuthillMckeePermutes(G: seq<seq<int>>, deg: seq<int>)
    requires Edges(G)
    ensures var o := Scan(G, deg, 0, {}, []).1;
      |o| == |G| && Distinct(o) && Elements(o) == Range(|G|)
  {
    var o := Scan(G, deg, 0, {}, []).1;
    CuthillMckeeVisitsAll(G, deg, {});
    DistinctSize(o);
    RangeSize(|G|);
  }

  /** With every position visited beforehand (a second call), the ordering is empty. */
  lemma CuthillMckeeSecondCall(G: seq<seq<int>>, deg: seq<int>)
    requires Edges(G)
    ensures Scan(G, deg, 0, Range(|G|), []).1 == []
  {
    var o := Scan(G, deg, 0, Range(|G|), []).1;
    CuthillMckeeVisitsAll(G, deg, Range(|G|));
    DistinctSize(o);
  }

  lemma RangeSize(n: nat)
    ensures |Range(n)| == n
  {
    DistinctSize(Indices(n));
  }

  // ---------------------------------------------------------------------------
  // Building the graph from triples

  /** One dictionary as a value: the map and its key order. */
  datatype Dict = Dict(adj: map<int, real>, keys: seq<int>)

  /** One element of the `initializer` list: `(row_idx, column_idx, value)`. */
  datatype Triple = Triple(row: int, column: int, value: real)

  /** `d[key] = value` on a dictionary value. */
  function Store(d: Dict, key: int, value: real): Dict
  {
    Dict(StoreValue(d.adj, key, value), StoreKey(d.keys, d.adj, key, value))
  }

  /** Every triple names two vertices below `size`. */
  predicate InRange(init: seq<Triple>, size: int)
  {
    forall k :: 0 <= k < |init| ==> 0 <= init[k].row < size && 0 <= init[k].column < size
  }

  /**
   * One pass of the `__init__` loop: `vertices[row][column] = value`, then
   * `vertices[column][row] = value`.
   */
  function Mirror(rows: seq<Dict>, t: Triple): (r: seq<Dict>)
    requires 0 <= t.row < |rows| && 0 <= t.column < |rows|
    ensures |r| == |rows|
  {
    var once := rows[t.row := Store(rows[t.row], t.column, t.value)];
    once[t.column := Store(once[t.column], t.row, t.value)]
  }

  /** The dictionaries `__init__` leaves behind after the triples `init`, in order. */
  function Rows(size: int, init: seq<Triple>): (r: seq<Dict>)
    requires InRange(init, size)
    ensures |r| == if size < 0 then 0 else size
  {
    if init == [] then seq(if size < 0 then 0 else size, _ => Dict(map[], []))
    else Mirror(Rows(size, init[..|init| - 1]), init[|init| - 1])
  }

  /** One more triple of the list: one more `Mirror`. */
  lemma RowsStep(size: int, init: seq<Triple>, k: int)
    requires InRange(init, size) && 0 <= k < |init|
    ensures InRange(init[..k], size) && InRange(init[..k + 1], size)
    ensures 0 <= init[k].row < size && 0 <= init[k].column < size
    ensures Rows(size, init[..k + 1]) == Mirror(Rows(size, init[..k]), init[k])
  {
    assert init[..k + 1][..k] == init[..k];
  }

  /** The triple touches the unordered pair `{p, q}`. */
  predicate Touches(t: Triple, p: int, q: int)
  {
    (t.row == p && t.column == q) || (t.row == q && t.column == p)
  }

  /** The value of the last triple touching `{p, q}`, or 0.0 when none does. */
  function Written(init: seq<Triple>, p: int, q: int): real
  {
    if init == [] then 0.0
    else if Touches(init[|init| - 1], p, q) then init[|init| - 1].value
    else Written(init[..|init| - 1], p, q)
  }

  /** What the constructor stores at `(p, q)` is the last value written to `(p, q)` or `(q, p)`. */
  lemma {:induction false} RowsLookup(size: int, init: seq<Triple>, p: int, q: int)
    requires InRange(init, size) && 0 <= p < size && 0 <= q < size
    ensures Lookup(Rows(size, init)[p].adj, q) == Written(init, p, q)
  {
    if init != [] {
      RowsLookup(size, init[..|init| - 1], p, q);
    }
  }

  /** The graph is mirrored: the value at `(p, q)` is the value at `(q, p)`. */
  lemma RowsSymmetric(size: int, init: seq<Triple>, p: int, q: int)
    requires InRange(init, size) && 0 <= p < size && 0 <= q < size
    ensures Lookup(Rows(size, init)[p].adj, q) == Lookup(Rows(size, init)[q].adj, p)
  {
    RowsLookup(size, init, p, q);
    RowsLookup(size, init, q, p);
  }

  /** Every key is a vertex index below `size`. */
  predicate KeysBelow(keys: seq<int>, size: int)
  {
    forall y :: y in keys ==> 0 <= y < size
  }

  /** Every dictionary agrees with its key order, and its keys are vertex indices. */
  ghost predicate Consistent(rows: seq<Dict>)
  {
    forall p :: 0 <= p < |rows| ==> DictState(rows[p].adj, rows[p].keys) && KeysBelow(rows[p].keys, |rows|)
  }

  lemma StoreConsistent(d: Dict, key: int, value: real, size: int)
    requires DictState(d.adj, d.keys) && KeysBelow(d.keys, size) && 0 <= key < size
    ensures DictState(Store(d, key, value).adj, Store(d, key, value).keys)
    ensures KeysBelow(Store(d, key, value).keys, size)
  {
    StorePreserves(d.adj, d.keys, key, value);
  }

  lemma MirrorConsistent(rows: seq<Dict>, t: Triple)
    requires Consistent(rows) && 0 <= t.row < |rows| && 0 <= t.column < |rows|
    ensures Consistent(Mirror(rows, t))
  {
    StoreConsistent(rows[t.row], t.column, t.value, |rows|);
    var once := rows[t.row := Store(rows[t.row], t.column, t.value)];
    StoreConsistent(once[t.column], t.row, t.value, |rows|);
  }

  /** Each dictionary the constructor builds agrees with its key order, and every key names a vertex. */
  lemma {:induction false} RowsConsistent(size: int, init: seq<Triple>)
    requires InRange(init, size)
    ensures Consistent(Rows(size, init))
  {
    if init != [] {
      RowsConsistent(size, init[..|init| - 1]);
      MirrorConsistent(Rows(size, init[..|init| - 1]), init[|init| - 1]);
    }
  }

  // ---------------------------------------------------------------------------
  // From a dense matrix

  /** The cell `(i, j)` holding `value` is kept: its magnitude exceeds EPSILON. */
  predicate Kept(dense: seq<seq<real>>, t: Triple)
  {
    0 <= t.row < |dense| && 0 <= t.column < |dense[t.row]| &&
    t.value == dense[t.row][t.column] && Abs(t.value) > EPSILON
  }

  /** The triples `from_dense_format` collects from cells `0 .. m-1` of row `i`. */
  function CellTriples(dense: seq<seq<real>>, i: int, m: int): (r: seq<Triple>)
    requires 0 <= i < |dense| && m <= |dense[i]|
    ensures forall k :: 0 <= k < |r| ==> Kept(dense, r[k]) && r[k].row == i && r[k].column < m
    decreases m
  {
    if m <= 0 then []
    else CellTriples(dense, i, m - 1) + (if Abs(dense[i][m - 1]) <= EPSILON then [] else [Triple(i, m - 1, dense[i][m - 1])])
  }

  /** The triples `from_dense_format` collects from rows `0 .. n-1`, in row-major order. */
  function DenseTriples(dense: seq<seq<real>>, n: int): (r: seq<Triple>)
    requires n <= |dense|
    ensures forall k :: 0 <= k < |r| ==> Kept(dense, r[k]) && r[k].row < n
    decreases n
  {
    if n <= 0 then []
    else DenseTriples(dense, n - 1) + CellTriples(dense, n - 1, |dense[n - 1]|)
  }

  lemma {:induction false} CellTriplesComplete(dense: seq<seq<real>>, i: int, m: int, j: int)
    requires 0 <= i < |dense| && m <= |dense[i]| && 0 <= j < m && Abs(dense[i][j]) > EPSILON
    ensures Triple(i, j, dense[i][j]) in CellTriples(dense, i, m)
    decreases m
  {
    var x := Triple(i, j, dense[i][j]);
    var prev := CellTriples(dense, i, m - 1);
    if j < m - 1 {
      CellTriplesComplete(dense, i, m - 1, j);
      assert x in prev;
    } else {
      assert CellTriples(dense, i, m) == prev + [x];
    }
  }

  /** Every cell whose magnitude exceeds EPSILON is collected. */
  lemma {:induction false} DenseTriplesComplete(dense: seq<seq<real>>, n: int, i: int, j: int)
    requires n <= |dense| && 0 <= i < n && 0 <= j < |dense[i]| && Abs(dense[i][j]) > EPSILON
    ensures Triple(i, j, dense[i][j]) in DenseTriples(dense, n)
    decreases n
  {
    var x := Triple(i, j, dense[i][j]);
    var prev, cells := DenseTriples(dense, n - 1), CellTriples(dense, n - 1, |dense[n - 1]|);
    assert DenseTriples(dense, n) == prev + cells;
    if i < n - 1 {
      DenseTriplesComplete(dense, n - 1, i, j);
      assert x in prev;
    } else {
      CellTriplesComplete(dense, i, |dense[i]|, j);
      assert x in cells;
    }
  }

  /** Either no triple touches `{p, q}` and 0.0 is read, or some triple touching it wrote the value read. */
  lemma {:induction false} WrittenBy(init: seq<Triple>, p: int, q: int)
    ensures (Written(init, p, q) == 0.0 && forall k :: 0 <= k < |init| ==> !Touches(init[k], p, q)) ||
      exists k :: 0 <= k < |init| && Touches(init[k], p, q) && init[k].value == Written(init, p, q)
  {
    if init != [] && !Touches(init[|init| - 1], p, q) {
      var prefix := init[..|init| - 1];
      WrittenBy(prefix, p, q);
      if exists k :: 0 <= k < |prefix| && Touches(prefix[k], p, q) && prefix[k].value == Written(prefix, p, q) {
        var k :| 0 <= k < |prefix| && Touches(prefix[k], p, q) && prefix[k].value == Written(prefix, p, q);
        assert init[k] == prefix[k];
      }
    }
  }

  /** A symmetric square matrix. */
  predicate SymmetricSquare(dense: seq<seq<real>>)
  {
    (forall i :: 0 <= i < |dense| ==> |dense[i]| == |dense|) &&
    forall i, j :: 0 <= i < |dense| && 0 <= j < |dense| ==> dense[i][j] == dense[j][i]
  }

  /**
   * For a symmetric square input, the graph holds exactly the cells whose
   * magnitude exceeds EPSILON, with their values, and reads 0.0 elsewhere.
   */
  lemma DenseRoundTrip(dense: seq<seq<real>>, p: int, q: int)
    requires SymmetricSquare(dense) && 0 <= p < |dense| && 0 <= q < |dense|
    ensures InRange(DenseTriples(dense, |dense|), |dense|)
    ensures Lookup(Rows(|dense|, DenseTriples(dense, |dense|))[p].adj, q) ==
      if Abs(dense[p][q]) > EPSILON then dense[p][q] else 0.0
  {
    var init := DenseTriples(dense, |dense|);
    RowsLookup(|dense|, init, p, q);
    WrittenBy(init, p, q);
    if Abs(dense[p][q]) > EPSILON {
      DenseTriplesComplete(dense, |dense|, p, q);
    }
  }

  // ---------------------------------------------------------------------------
  // Sorting the vertex list

  lemma {:induction false} InsertDistinct(x: int, s: seq<int>, key: int -> int)
    requires Distinct(s) && x !in s
    ensures Distinct(Insert(x, s, key))
    decreases |s|
  {
    if s != [] && key(s[|s| - 1]) > key(x) {
      var init, last := s[..|s| - 1], s[|s| - 1];
      assert last !in init;
      InsertDistinct(x, init, key);
      InsertElements(x, init, key);
    }
  }

  lemma InsertElements(x: int, s: seq<int>, key: int -> int)
    ensures forall y :: y in Insert(x, s, key) <==> y == x || y in s
  {
    InsertPermutes(x, s, key);
    assert forall y :: y in Insert(x, s, key) <==> y in multiset(Insert(x, s, key));
  }

  /** Sorting keeps the elements of a sequence without repetitions, and adds no repetition. */
  lemma {:induction false} SortByDistinct(s: seq<int>, key: int -> int)
    requires Distinct(s)
    ensures Distinct(SortBy(s, key)) && forall y :: y in SortBy(s, key) <==> y in s
    decreases |s|
  {
    if s != [] {
      var init := s[..|s| - 1];
      SortByDistinct(init, key);
      assert s[|s| - 1] !in init;
      InsertDistinct(s[|s| - 1], SortBy(init, key), key);
      InsertElements(s[|s| - 1], SortBy(init, key), key);
      assert s == init + [s[|s| - 1]];
    }
  }

  /**
   * `self.vertices.sort()`, on positions: the old positions in their new
   * order. Every position appears once, in ascending order of degree.
   */
  function DegreeOrder(deg: seq<int>): (perm: seq<int>)
    ensures |perm| == |deg| && Distinct(perm) && Elements(perm) == Range(|deg|)
    ensures forall i :: 0 <= i < |perm| ==> 0 <= perm[i] < |deg|
    ensures forall i, j :: 0 <= i < j < |perm| ==> deg[perm[i]] <= deg[perm[j]]
  {
    var perm := SortBy(Indices(|deg|), DegreeKey(deg));
    SortByDistinct(Indices(|deg|), DegreeKey(deg));
    SortBySorted(Indices(|deg|), DegreeKey(deg));
    forall i | 0 <= i < |perm|
      ensures 0 <= perm[i] < |deg|
    {
      assert perm[i] in perm;
    }
    forall x
      ensures x in Elements(perm) <==> x in Range(|deg|)
    {
      if 0 <= x < |deg| {
        assert Indices(|deg|)[x] == x;
      }
    }
    perm
  }

  // ---------------------------------------------------------------------------
  // The vertex

  /**
   * `Vertex`: an id, a row of the matrix as a dictionary from column to
   * value (with its key order), and the `visited` mark of the search.
   */
  class Vertex {
    const id: int
    var adj: map<int, real>
    var keys: seq<int>
    var visited: bool

    /** The dictionary and its key order agree. */
    ghost predicate Valid()
      reads this
    {
      DictState(adj, keys)
    }

    constructor (id: int)
      ensures this.id == id && adj == map[] && keys == [] && !visited && Valid()
    {
      this.id := id;
      adj := map[];
      keys := [];
      visited := false;
    }

    /** `get_degree`: the number of stored entries. */
    function Degree(): nat
      reads this
    {
      |adj|
    }

    /** The degree is the length of the key order. */
    lemma DegreeCountsKeys()
      requires Valid()
      ensures Degree() == |keys|
    {
      forall x
        ensures x in adj.Keys <==> x in Elements(keys)
      {
      }
      assert adj.Keys == Elements(keys);
      DistinctSize(keys);
    }

    /** `__gt__`: compares degrees. */
    predicate Greater(other: Vertex)
      reads this, other
    {
      Degree() > other.Degree()
    }

    /** `__getitem__`: the stored value, or 0.0 for a key that is not stored. */
    function Get(key: int): (v: real)
      reads this
      ensures Valid() ==> (v == 0.0 <==> key !in adj)
      ensures key in adj ==> v == adj[key]
    {
      Lookup(adj, key)
    }

    /**
     * `__setitem__`: reading `key` back gives `value`, every other key
     * reads as before, and a zero value leaves no entry behind.
     */
    method Set(key: int, value: real)
      requires Valid()
      modifies this
      ensures Valid() && visited == old(visited)
      ensures adj == StoreValue(old(adj), key, value) && keys == StoreKey(old(keys), old(adj), key, value)
      ensures Get(key) == value && forall k :: k != key ==> Get(k) == old(Get(k))
    {
      StorePreserves(adj, keys, key, value);
      keys := StoreKey(keys, adj, key, value);
      adj := adj[key := value];
      if Abs(value) <= 0.0 {
        adj := adj - {key};
      }
    }

    /** `__delitem__`: removes a stored key; a missing key raises KeyError in the source. */
    method Delete(key: int)
      requires Valid() && key in adj
      modifies this
      ensures Valid() && visited == old(visited)
      ensures adj == old(adj) - {key} && keys == Without(old(keys), key)
      ensures Degree() == old(Degree()) - 1
    {
      WithoutDistinct(keys, key);
      keys := Without(keys, key);
      adj := adj - {key};
    }
  }

  // ---------------------------------------------------------------------------
  // The graph

  /** No vertex object appears twice. */
  predicate Unique(vs: seq<Vertex>)
  {
    forall i, j :: 0 <= i < j < |vs| ==> vs[i] != vs[j]
  }

  /** `objs[i]` is the vertex at position `ps[i]` of `vs`. */
  predicate Tracks(objs: seq<Vertex>, ps: seq<int>, vs: seq<Vertex>)
  {
    |objs| == |ps| && forall i :: 0 <= i < |ps| ==> 0 <= ps[i] < |vs| && objs[i] == vs[ps[i]]
  }

  lemma TracksPop(objs: seq<Vertex>, ps: seq<int>, vs: seq<Vertex>)
    requires Tracks(objs, ps, vs) && ps != []
    ensures Tracks(objs[1..], ps[1..], vs) && objs[0] == vs[ps[0]]
  {
  }

  lemma TracksAppend(objs: seq<Vertex>, ps: seq<int>, vs: seq<Vertex>, x: int)
    requires Tracks(objs, ps, vs) && 0 <= x < |vs|
    ensures Tracks(objs + [vs[x]], ps + [x], vs)
  {
  }

  /** The vertices at positions `perm`, in that order. */
  function Permute(vs: seq<Vertex>, perm: seq<int>): (r: seq<Vertex>)
    requires forall i :: 0 <= i < |perm| ==> 0 <= perm[i] < |vs|
    ensures Tracks(r, perm, vs)
  {
    seq(|perm|, i requires 0 <= i < |perm| => vs[perm[i]])
  }

  /** A sequence holding exactly the positions `0 .. n-1` holds only those. */
  lemma PermutationInRange(perm: seq<int>, n: int)
    requires Elements(perm) == Range(n)
    ensures forall i :: 0 <= i < |perm| ==> 0 <= perm[i] < n
  {
    forall i | 0 <= i < |perm|
      ensures 0 <= perm[i] < n
    {
      assert perm[i] in Elements(perm);
    }
  }

  lemma PermuteCovers(vs: seq<Vertex>, perm: seq<int>, r: seq<Vertex>)
    requires Elements(perm) == Range(|vs|) && Tracks(r, perm, vs)
    ensures forall v :: v in vs ==> v in r
  {
    forall v | v in vs
      ensures v in r
    {
      var i :| 0 <= i < |vs| && vs[i] == v;
      assert i in Elements(perm);
      var k :| 0 <= k < |perm| && perm[k] == i;
      assert r[k] == v;
    }
  }

  lemma PermuteDistinct(vs: seq<Vertex>, perm: seq<int>, r: seq<Vertex>)
    requires Unique(vs) && Distinct(perm) && Tracks(r, perm, vs)
    ensures Unique(r) && forall v :: v in r ==> v in vs
  {
    forall i, j | 0 <= i < j < |r|
      ensures r[i] != r[j]
    {
      assert perm[i] != perm[j];
    }
  }

  /** Vertices taken at every position once, in any order, are the same vertices, each once. */
  lemma ReorderPermutes(objs: seq<Vertex>, ps: seq<int>, vs: seq<Vertex>)
    requires Unique(vs) && Distinct(ps) && Elements(ps) == Range(|vs|) && Tracks(objs, ps, vs)
    ensures Unique(objs) && forall v :: v in vs <==> v in objs
  {
    PermuteCovers(vs, ps, objs);
    PermuteDistinct(vs, ps, objs);
  }

  /**
   * The search's ordering as vertices: with nothing visited beforehand it
   * holds every vertex once; with everything visited beforehand it is empty.
   */
  lemma OrderingOfVertices(G: seq<seq<int>>, deg: seq<int>, V0: set<int>, ps: seq<int>, objs: seq<Vertex>, vs: seq<Vertex>)
    requires Edges(G) && |G| == |vs| && Unique(vs) && Below(V0, |G|)
    requires ps == Scan(G, deg, 0, V0, []).1 && Tracks(objs, ps, vs)
    ensures V0 == {} ==> |objs| == |vs| && Unique(objs) && forall v :: v in vs <==> v in objs
    ensures V0 == Range(|vs|) ==> objs == []
  {
    if V0 == {} {
      CuthillMckeePermutes(G, deg);
      ReorderPermutes(objs, ps, vs);
    }
    if V0 == Range(|vs|) {
      CuthillMckeeSecondCall(G, deg);
    }
  }

  /**
   * Dictionaries taken from positions of a consistent list, as many as
   * there are positions, form a consistent list.
   */
  lemma ReorderConsistent(D: seq<Dict>, ps: seq<int>, E: seq<Dict>)
    requires Consistent(D) && |E| == |D| && |ps| == |E|
    requires forall i :: 0 <= i < |E| ==> 0 <= ps[i] < |D| && E[i] == D[ps[i]]
    ensures Consistent(E)
  {
    forall i | 0 <= i < |E|
      ensures DictState(E[i].adj, E[i].keys) && KeysBelow(E[i].keys, |E|)
    {
      assert E[i] == D[ps[i]];
    }
  }

  /** Vertices taken from positions of a list whose dictionaries are consistent, as many as it has. */
  lemma ReorderedConsistent(D: seq<Dict>, ps: seq<int>, objs: seq<Vertex>, vs: seq<Vertex>)
    requires Consistent(D) && DictsOf(vs) == D && Tracks(objs, ps, vs) && |objs| == |vs|
    ensures Consistent(DictsOf(objs))
  {
    ReorderConsistent(D, ps, DictsOf(objs));
  }

  /** Holding the same vertices is transitive. */
  lemma SameMembers(a: seq<Vertex>, b: seq<Vertex>, c: seq<Vertex>)
    requires forall v :: v in a <==> v in b
    requires forall v :: v in b <==> v in c
    ensures forall v :: v in a <==> v in c
  {
  }

  /** Reordering by a permutation of the positions keeps the same vertices, each once. */
  lemma PermuteUnique(vs: seq<Vertex>, perm: seq<int>)
    requires Unique(vs) && |perm| == |vs| && Distinct(perm) && Elements(perm) == Range(|vs|)
    ensures forall i :: 0 <= i < |perm| ==> 0 <= perm[i] < |vs|
    ensures Unique(Permute(vs, perm)) && forall v :: v in vs <==> v in Permute(vs, perm)
  {
    PermutationInRange(perm, |vs|);
    var r := Permute(vs, perm);
    PermuteCovers(vs, perm, r);
    PermuteDistinct(vs, perm, r);
  }

  /** `[Vertex(id) for id in range(size)]`: distinct new vertices with ids `0 .. size-1`. */
  method NewVertices(size: int) returns (vs: seq<Vertex>)
    ensures |vs| == if size < 0 then 0 else size
    ensures forall p :: 0 <= p < |vs| ==>
      fresh(vs[p]) && vs[p].id == p && vs[p].adj == map[] && vs[p].keys == [] && !vs[p].visited
    ensures Unique(vs)
  {
    vs := [];
    while |vs| < size
      invariant |vs| <= if size < 0 then 0 else size
      invariant forall p :: 0 <= p < |vs| ==>
        fresh(vs[p]) && vs[p].id == p && vs[p].adj == map[] && vs[p].keys == [] && !vs[p].visited
      invariant Unique(vs)
    {
      var v := new Vertex(|vs|);
      vs := vs + [v];
    }
  }

  /** The dictionaries of the vertices, as values. */
  function DictsOf(vs: seq<Vertex>): (r: seq<Dict>)
    reads vs
    ensures |r| == |vs| && forall p :: 0 <= p < |vs| ==> r[p] == Dict(vs[p].adj, vs[p].keys)
  {
    if vs == [] then [] else DictsOf(vs[..|vs| - 1]) + [Dict(vs[|vs| - 1].adj, vs[|vs| - 1].keys)]
  }

  /** The key order of each vertex: the successors of each position. */
  function KeysOf(vs: seq<Vertex>): (r: seq<seq<int>>)
    reads vs
    ensures |r| == |vs| && forall p :: 0 <= p < |vs| ==> r[p] == vs[p].keys
  {
    if vs == [] then [] else KeysOf(vs[..|vs| - 1]) + [vs[|vs| - 1].keys]
  }

  /** The degree of each vertex. */
  function DegreesOf(vs: seq<Vertex>): (r: seq<int>)
    reads vs
    ensures |r| == |vs| && forall p :: 0 <= p < |vs| ==> r[p] == vs[p].Degree()
  {
    if vs == [] then [] else DegreesOf(vs[..|vs| - 1]) + [vs[|vs| - 1].Degree()]
  }

  /** The positions whose vertex is marked visited. */
  function VisitedOf(vs: seq<Vertex>): (r: set<int>)
    reads vs
    ensures forall p :: p in r <==> 0 <= p < |vs| && vs[p].visited
  {
    if vs == [] then {}
    else VisitedOf(vs[..|vs| - 1]) + (if vs[|vs| - 1].visited then {|vs| - 1} else {})
  }

  /** Reordering keeps "no position visited" and "every position visited". */
  lemma PermuteVisited(vs: seq<Vertex>, perm: seq<int>, r: seq<Vertex>)
    requires |perm| == |vs| && Elements(perm) == Range(|vs|) && Tracks(r, perm, vs)
    ensures VisitedOf(vs) == {} ==> VisitedOf(r) == {}
    ensures VisitedOf(vs) == Range(|vs|) ==> VisitedOf(r) == Range(|vs|)
  {
    if VisitedOf(vs) == {} {
      forall x
        ensures x !in VisitedOf(r)
      {
        if 0 <= x < |r| {
          assert perm[x] !in VisitedOf(vs);
        }
      }
    }
    if VisitedOf(vs) == Range(|vs|) {
      forall x
        ensures x in VisitedOf(r) <==> x in Range(|vs|)
      {
        if 0 <= x < |r| {
          assert perm[x] in VisitedOf(vs);
        }
      }
    }
  }

  /** The views of vertices whose fields did not change are the same. */
  twostate lemma {:induction false} ViewsUnchanged(vs: seq<Vertex>)
    requires forall v :: v in vs ==> unchanged(v)
    ensures KeysOf(vs) == old(KeysOf(vs)) && DegreesOf(vs) == old(DegreesOf(vs))
    ensures VisitedOf(vs) == old(VisitedOf(vs)) && DictsOf(vs) == old(DictsOf(vs))
    decreases |vs|
  {
    if vs != [] {
      var init, last := vs[..|vs| - 1], vs[|vs| - 1];
      assert forall v :: v in init ==> v in vs;
      ViewsUnchanged(init);
      assert last in vs;
    }
  }

  /** The write of one triple, on the vertex objects. */
  method WriteTriple(vs: seq<Vertex>, t: Triple, ghost rows: seq<Dict>)
    requires 0 <= t.row < |vs| && 0 <= t.column < |vs| && Consistent(rows) && DictsOf(vs) == rows
    requires Unique(vs)
    modifies vs[t.row], vs[t.column]
    ensures DictsOf(vs) == Mirror(rows, t) && Consistent(Mirror(rows, t))
    ensures forall p :: 0 <= p < |vs| ==> vs[p].visited == old(vs[p].visited)
  {
    MirrorConsistent(rows, t);
    assert vs[t.row].Valid();
    vs[t.row].Set(t.column, t.value);
    assert vs[t.column].Valid() by {
      StoreConsistent(rows[t.row], t.column, t.value, |rows|);
    }
    vs[t.column].Set(t.row, t.value);
  }

  /** The loop of `__init__`: the triples are written in order. */
  method WriteAll(vs: seq<Vertex>, size: int, initializer: seq<Triple>)
    requires InRange(initializer, size) && DictsOf(vs) == Rows(size, [])
    requires Unique(vs)
    modifies vs
    ensures DictsOf(vs) == Rows(size, initializer)
    ensures forall p :: 0 <= p < |vs| ==> vs[p].visited == old(vs[p].visited)
  {
    var k := 0;
    RowsConsistent(size, []);
    while k < |initializer|
      invariant 0 <= k <= |initializer|
      invariant forall p :: 0 <= p < |vs| ==> vs[p].visited == old(vs[p].visited)
      invariant DictsOf(vs) == Rows(size, initializer[..k]) && Consistent(DictsOf(vs))
    {
      RowsStep(size, initializer, k);
      WriteTriple(vs, initializer[k], DictsOf(vs));
      k := k + 1;
    }
    assert initializer[..k] == initializer;
  }

  /** The loops of `from_dense_format`: the kept cells as triples, in row-major order. */
  method DenseInitializer(dense: seq<seq<real>>) returns (initializer: seq<Triple>)
    ensures initializer == DenseTriples(dense, |dense|)
  {
    initializer := [];
    var i := 0;
    while i < |dense|
      invariant 0 <= i <= |dense| && initializer == DenseTriples(dense, i)
    {
      var j := 0;
      while j < |dense[i]|
        invariant 0 <= j <= |dense[i]| && initializer == DenseTriples(dense, i) + CellTriples(dense, i, j)
      {
        if Abs(dense[i][j]) > EPSILON {
          initializer := initializer + [Triple(i, j, dense[i][j])];
        }
        j := j + 1;
      }
      i := i + 1;
    }
  }

  /** Reordering the vertices keeps every key a position. */
  lemma SortedEdges(vs: seq<Vertex>, perm: seq<int>)
    requires forall p :: 0 <= p < |vs| ==> KeysBelow(vs[p].keys, |vs|)
    requires |perm| == |vs| && forall i :: 0 <= i < |perm| ==> 0 <= perm[i] < |vs|
    ensures Edges(KeysOf(Permute(vs, perm)))
  {
    var G := KeysOf(Permute(vs, perm));
    forall p, i | 0 <= p < |G| && 0 <= i < |G[p]|
      ensures 0 <= G[p][i] < |G|
    {
      assert G[p] == vs[perm[p]].keys;
      assert G[p][i] in vs[perm[p]].keys;
    }
  }

  /** The vertex list after `self.vertices.sort()`: reordered by `DegreeOrder` of the degrees. */
  function ByDegree(vs: seq<Vertex>): (r: seq<Vertex>)
    reads vs
    ensures Tracks(r, DegreeOrder(DegreesOf(vs)), vs)
  {
    Permute(vs, DegreeOrder(DegreesOf(vs)))
  }

  /** `SparseGraphFormat`: the vertex list. */
  class SparseGraphFormat {
    var vertices: seq<Vertex>

    /** The vertices are distinct, each dictionary agrees with its key order, and every key is a position. */
    ghost predicate Valid()
      reads this, vertices
    {
      Unique(vertices) &&
      Consistent(DictsOf(vertices))
    }

    /**
     * `__init__`: `size` new vertices, then for each triple in order the
     * value is set at `(row, column)` and at `(column, row)`. An index
     * outside the vertex list would raise IndexError; the precondition
     * excludes it.
     */
    constructor (size: int, initializer: seq<Triple>)
      requires InRange(initializer, size)
      ensures Valid() && DictsOf(vertices) == Rows(size, initializer)
      ensures forall p :: 0 <= p < |vertices| ==> fresh(vertices[p]) && vertices[p].id == p && !vertices[p].visited
    {
      var vs := NewVertices(size);
      WriteAll(vs, size, initializer);
      RowsConsistent(size, initializer);
      vertices := vs;
    }

    /**
     * `from_dense_format`: one vertex per row; every cell whose magnitude
     * exceeds EPSILON becomes a triple, in row-major order. A kept cell in
     * a column beyond the last row would raise IndexError; the
     * precondition excludes it.
     */
    static method FromDenseFormat(dense: seq<seq<real>>) returns (g: SparseGraphFormat)
      requires forall i, j :: 0 <= i < |dense| && 0 <= j < |dense[i]| && Abs(dense[i][j]) > EPSILON ==> j < |dense|
      ensures g.Valid() && DictsOf(g.vertices) == Rows(|dense|, DenseTriples(dense, |dense|))
      ensures forall p :: 0 <= p < |g.vertices| ==> fresh(g.vertices[p]) && g.vertices[p].id == p && !g.vertices[p].visited
    {
      var initializer := DenseInitializer(dense);
      g := new SparseGraphFormat(|dense|, initializer);
    }
  
    /** Every key of every vertex is a position of the list. */
    lemma KeysArePositions()
      requires Valid()
      ensures forall p :: 0 <= p < |vertices| ==> KeysBelow(vertices[p].keys, |vertices|)
    {
      forall p | 0 <= p < |vertices|
        ensures KeysBelow(vertices[p].keys, |vertices|)
      {
        assert DictsOf(vertices)[p].keys == vertices[p].keys;
      }
    }

    /**
     * The graph as positions: successors `G`, degrees `deg` and
     * dictionaries `D` of the vertex at each position.
     */
    ghost predicate Shape(G: seq<seq<int>>, deg: seq<int>, D: seq<Dict>)
      reads this, vertices
    {
      |G| == |vertices| && |deg| == |vertices| && |D| == |vertices| &&
      forall p :: 0 <= p < |vertices| ==>
        vertices[p].keys == G[p] && vertices[p].Degree() == deg[p] && vertices[p].adj == D[p].adj
    }

    /** The dictionaries `D` of `Shape`, with keys `G`, are those of the vertices. */
    lemma ShapeDicts(G: seq<seq<int>>, deg: seq<int>, D: seq<Dict>)
      requires Shape(G, deg, D) && forall p :: 0 <= p < |D| ==> D[p].keys == G[p]
      ensures DictsOf(vertices) == D
    {
    }

    /** Exactly the positions in `V` hold a visited vertex. */
    ghost predicate Marks(V: set<int>)
      reads this, vertices
    {
      Below(V, |vertices|) && forall p :: 0 <= p < |vertices| ==> (vertices[p].visited <==> p in V)
    }

    /** `n.visited = True` for the vertex `n` at position `x`. */
    method Mark(n: Vertex, ghost x: int, ghost V: set<int>)
      requires Unique(vertices) && Marks(V) && 0 <= x < |vertices| && n == vertices[x]
      modifies n
      ensures Marks(V + {x})
      ensures forall p :: 0 <= p < |vertices| ==>
        vertices[p].keys == old(vertices[p].keys) && vertices[p].adj == old(vertices[p].adj)
    {
      n.visited := true;
    }

    /**
     * The `for n in neighbours` loop of `_bfs`, for neighbours at positions
     * `ns`: every one not yet visited is marked and appended to the queue.
     */
    method EnqueueNeighbours(ns: seq<int>, q: seq<Vertex>, ghost V: set<int>, ghost qp: seq<int>)
      returns (q': seq<Vertex>, ghost V': set<int>, ghost qp': seq<int>)
      requires Unique(vertices) && Marks(V) && Tracks(q, qp, vertices)
      requires forall i :: 0 <= i < |ns| ==> 0 <= ns[i] < |vertices|
      modifies vertices
      ensures (V', qp') == Enqueue(ns, V, qp)
      ensures Marks(V') && Tracks(q', qp', vertices)
      ensures forall p :: 0 <= p < |vertices| ==>
        vertices[p].keys == old(vertices[p].keys) && vertices[p].adj == old(vertices[p].adj)
    {
      q', V', qp' := q, V, qp;
      var j := 0;
      while j < |ns|
        invariant 0 <= j <= |ns|
        invariant Enqueue(ns[j..], V', qp') == Enqueue(ns, V, qp)
        invariant Marks(V') && Tracks(q', qp', vertices)
        invariant forall p :: 0 <= p < |vertices| ==>
          vertices[p].keys == old(vertices[p].keys) && vertices[p].adj == old(vertices[p].adj)
      {
        var x := ns[j];
        var n := vertices[x];
        assert ns[j..][1..] == ns[j + 1..];
        if !n.visited {
          Mark(n, x, V');
          q' := q' + [n];
          V', qp' := V' + {x}, qp' + [x];
        }
        j := j + 1;
      }
      assert ns[j..] == [];
    }

    /**
     * One pass of the `while` loop of `_bfs` after the pop of `u`, the
     * vertex at position `up`: its neighbours, sorted by degree, are
     * enqueued as `Enqueue` says.
     */
    method Visit(u: Vertex, q: seq<Vertex>, ghost G: seq<seq<int>>, ghost deg: seq<int>, ghost D: seq<Dict>,
                 ghost up: int, ghost V: set<int>, ghost qp: seq<int>)
      returns (q': seq<Vertex>, ghost V': set<int>, ghost qp': seq<int>)
      requires Unique(vertices) && Shape(G, deg, D) && Edges(G) && Marks(V) && Tracks(q, qp, vertices)
      requires 0 <= up < |vertices| && u == vertices[up]
      modifies vertices
      ensures (V', qp') == Enqueue(Neighbours(G, deg, up), V, qp)
      ensures Shape(G, deg, D) && Marks(V') && Tracks(q', qp', vertices)
    {
      var degrees := DegreesOf(vertices);
      assert degrees == deg;
      var ns := SortBy(u.keys, DegreeKey(degrees));
      assert ns == Neighbours(G, deg, up);
      q', V', qp' := EnqueueNeighbours(ns, q, V, qp);
    }

    /**
     * One pass of the `while` loop of `_bfs`: pop the front `u`, append it
     * to the ordering, enqueue its unvisited neighbours. This is one
     * unfolding of `BfsFrom`.
     */
    method BfsStep(q: seq<Vertex>, ordering: seq<Vertex>, ghost G: seq<seq<int>>, ghost deg: seq<int>, ghost D: seq<Dict>,
                   ghost qp: seq<int>, ghost V: set<int>, ghost O: seq<int>)
      returns (q': seq<Vertex>, ordering': seq<Vertex>, ghost qp': seq<int>, ghost V': set<int>, ghost O': seq<int>)
      requires Unique(vertices) && Shape(G, deg, D) && Edges(G) && Marks(V)
      requires Tracks(q, qp, vertices) && Tracks(ordering, O, vertices)
      requires q != [] && Elements(qp) <= V && Distinct(qp)
      modifies vertices
      ensures Shape(G, deg, D) && Marks(V') && Tracks(q', qp', vertices) && Tracks(ordering', O', vertices)
      ensures Elements(qp') <= V' && Distinct(qp')
      ensures BfsFrom(G, deg, qp, V, O) == BfsFrom(G, deg, qp', V', O')
      ensures |V'| <= |G| && (|G| - |V'| < |G| - |V| || (V' == V && |qp'| < |qp|))
    {
      var u := q[0];
      ghost var up := qp[0];
      assert up in Elements(qp);
      PopStep(G, deg, qp, V, up);
      TracksPop(q, qp, vertices);
      TracksAppend(ordering, O, vertices, up);
      ordering', O' := ordering + [u], O + [up];
      q', V', qp' := Visit(u, q[1..], G, deg, D, up, V, qp[1..]);
    }

    /**
     * `_bfs(v, q, ordering)`, where `v` is the vertex at position `root`:
     * marks `v`, then pops the queue front, appends it to the ordering and
     * enqueues its unvisited neighbours in ascending order of degree, until
     * the queue is empty. The visited positions and the ordering are those
     * of `BfsFrom`.
     */
    method Bfs(v: Vertex, ordering: seq<Vertex>, ghost G: seq<seq<int>>, ghost deg: seq<int>, ghost D: seq<Dict>,
               ghost root: int, ghost V: set<int>, ghost O: seq<int>)
      returns (ordering': seq<Vertex>, ghost V': set<int>, ghost O': seq<int>)
      requires Unique(vertices) && Shape(G, deg, D) && Edges(G)
      requires 0 <= root < |vertices| && v == vertices[root] && root !in V
      requires Marks(V) && Tracks(ordering, O, vertices)
      modifies vertices
      ensures Shape(G, deg, D) && Marks(V') && Tracks(ordering', O', vertices)
      ensures (V', O') == BfsFrom(G, deg, [root], V + {root}, O)
    {
      Mark(v, root, V);
      var q := [v];
      ghost var qp := [root];
      V', O' := V + {root}, O;
      ordering' := ordering;
      assert Elements(qp) == {root};
      while q != []
        invariant Shape(G, deg, D) && Marks(V') && Tracks(q, qp, vertices) && Tracks(ordering', O', vertices)
        invariant Elements(qp) <= V' && Distinct(qp)
        invariant BfsFrom(G, deg, qp, V', O') == BfsFrom(G, deg, [root], V + {root}, O)
        decreases |G| - |V'|, |qp|
      {
        q, ordering', qp, V', O' := BfsStep(q, ordering', G, deg, D, qp, V', O');
      }
    }

    /**
     * One pass of the `for v in self.vertices` loop of
     * `cuthil_mckee_ordering`, at position `p`: a search from the vertex
     * there when it is not yet visited.
     */
    method ScanStep(p: int, ordering: seq<Vertex>, ghost G: seq<seq<int>>, ghost deg: seq<int>, ghost D: seq<Dict>,
                    ghost V: set<int>, ghost O: seq<int>)
      returns (ordering': seq<Vertex>, ghost V': set<int>, ghost O': seq<int>)
      requires Unique(vertices) && Shape(G, deg, D) && Edges(G) && Marks(V) && Tracks(ordering, O, vertices)
      requires 0 <= p < |vertices|
      modifies vertices
      ensures Shape(G, deg, D) && Marks(V') && Tracks(ordering', O', vertices)
      ensures Scan(G, deg, p, V, O) == Scan(G, deg, p + 1, V', O')
    {
      if !vertices[p].visited {
        assert Elements([p]) == {p};
        ordering', V', O' := Bfs(vertices[p], ordering, G, deg, D, p, V, O);
      } else {
        ordering', V', O' := ordering, V, O;
      }
    }

    /**
     * The `for v in self.vertices` loop of `cuthil_mckee_ordering`: a
     * search from every vertex not yet visited, in list order.
     */
    method ScanAll(ghost G: seq<seq<int>>, ghost deg: seq<int>, ghost D: seq<Dict>, ghost V0: set<int>)
      returns (ordering: seq<Vertex>, ghost V: set<int>, ghost O: seq<int>)
      requires Unique(vertices) && Shape(G, deg, D) && Edges(G) && Marks(V0)
      modifies vertices
      ensures (V, O) == Scan(G, deg, 0, V0, [])
      ensures Shape(G, deg, D) && Marks(V) && Tracks(ordering, O, vertices)
    {
      ordering, V, O := [], V0, [];
      var p := 0;
      while p < |vertices|
        invariant 0 <= p <= |vertices|
        invariant Shape(G, deg, D) && Marks(V) && Tracks(ordering, O, vertices)
        invariant Scan(G, deg, p, V, O) == Scan(G, deg, 0, V0, [])
      {
        ordering, V, O := ScanStep(p, ordering, G, deg, D, V, O);
        p := p + 1;
      }
    }

    /**
     * `self.vertices.sort()`: the vertex list reordered stably by ascending
     * degree; `perm` lists the old positions in their new order. The same
     * vertices stay in the list, and every key is still a position.
     */
    method SortByDegree() returns (ghost perm: seq<int>)
      requires Valid()
      modifies this
      ensures perm == DegreeOrder(old(DegreesOf(vertices))) && vertices == old(ByDegree(vertices))
      ensures KeysOf(vertices) == old(KeysOf(ByDegree(vertices)))
      ensures DegreesOf(vertices) == old(DegreesOf(ByDegree(vertices)))
      ensures VisitedOf(vertices) == old(VisitedOf(ByDegree(vertices)))
      ensures old(VisitedOf(vertices)) == {} ==> VisitedOf(vertices) == {}
      ensures old(VisitedOf(vertices)) == Range(|old(vertices)|) ==> VisitedOf(vertices) == Range(|vertices|)
      ensures Valid() && Edges(KeysOf(vertices))
      ensures forall v :: v in old(vertices) <==> v in vertices
    {
      ghost var sorted := ByDegree(vertices);
      KeysArePositions();
      var order := DegreeOrder(DegreesOf(vertices));
      perm := order;
      PermuteUnique(vertices, perm);
      SortedEdges(vertices, perm);
      PermuteVisited(vertices, perm, Permute(vertices, order));
      Adopt(Permute(vertices, order), perm);
      ViewsUnchanged(sorted);
    }

    /**
     * The searches of `cuthil_mckee_ordering` on the sorted list:
     * `positions` is what `Scan` computes and `ordering` holds the vertices
     * at those positions. Afterwards every vertex is visited, every
     * dictionary is as it was, and the list itself is unchanged.
     */
    method Search() returns (ordering: seq<Vertex>, ghost positions: seq<int>)
      requires Unique(vertices) && Edges(KeysOf(vertices))
      modifies vertices
      ensures positions == Scan(old(KeysOf(vertices)), old(DegreesOf(vertices)), 0, old(VisitedOf(vertices)), []).1
      ensures vertices == old(vertices) && Tracks(ordering, positions, vertices)
      ensures forall v :: v in vertices ==> v.visited
      ensures DictsOf(vertices) == old(DictsOf(vertices))
      ensures old(VisitedOf(vertices)) == {} ==>
        |ordering| == |vertices| && Unique(ordering) && forall v :: v in vertices <==> v in ordering
      ensures old(VisitedOf(vertices)) == Range(|vertices|) ==> ordering == []
    {
      ghost var G, deg, D, V0 := KeysOf(vertices), DegreesOf(vertices), DictsOf(vertices), VisitedOf(vertices);
      assert Shape(G, deg, D) && Marks(V0);
      assert forall p :: 0 <= p < |D| ==> D[p].keys == G[p];
      ghost var V, vs := V0, vertices;
      ordering, V, positions := ScanAll(G, deg, D, V0);
      assert vertices == vs;
      assert V == Scan(G, deg, 0, V0, []).0;
      assert forall k :: 0 <= k < |vertices| ==> k in V;
      ShapeDicts(G, deg, D);
      OrderingOfVertices(G, deg, V0, positions, ordering, vs);
    }

    /**
     * The searches of `cuthil_mckee_ordering`, and the ordering made the
     * new vertex list: the new list holds the vertices at the positions
     * `Scan` computes, and every vertex of the old list is visited with its
     * dictionary as it was.
     */
    method CollectOrdering() returns (ghost positions: seq<int>)
      requires Valid() && Edges(KeysOf(vertices))
      modifies this, vertices
      ensures positions == Scan(old(KeysOf(vertices)), old(DegreesOf(vertices)), 0, old(VisitedOf(vertices)), []).1
      ensures Tracks(vertices, positions, old(vertices))
      ensures forall v :: v in old(vertices) ==> v.visited
      ensures DictsOf(old(vertices)) == old(DictsOf(vertices))
      ensures old(VisitedOf(vertices)) == {} ==>
        |vertices| == |old(vertices)| && Valid() && forall v :: v in old(vertices) <==> v in vertices
      ensures old(VisitedOf(vertices)) == Range(|old(vertices)|) ==> vertices == []
    {
      var ordering;
      ordering, positions := Search();
      Adopt(ordering, positions);
    }

    /**
     * `self.vertices = ordering`, for vertices taken from positions of the
     * list: when they are as many as the list holds, each once, the new
     * list is again a valid graph.
     */
    method Adopt(ordering: seq<Vertex>, ghost positions: seq<int>)
      requires Valid() && Tracks(ordering, positions, vertices)
      modifies this
      ensures vertices == ordering
      ensures |ordering| == |old(vertices)| && Unique(ordering) ==> Valid()
    {
      if |ordering| == |vertices| && Unique(ordering) {
        ReorderedConsistent(DictsOf(vertices), positions, ordering, vertices);
      }
      vertices := ordering;
    }

    /**
     * `cuthil_mckee_ordering`: sorts the vertex list by degree, runs `_bfs`
     * from every vertex not yet visited, in list order, and makes the
     * ordering the new vertex list, which it returns. `perm` is the sort
     * as old positions in their new order; `positions` is the ordering as
     * positions of the sorted list, and it is what `Scan` computes.
     * Afterwards every vertex is visited and keeps its dictionary. A first
     * call leaves a valid graph holding every vertex once; a call on a
     * graph whose vertices are all visited returns the empty list.
     */
    method CuthillMckeeOrdering() returns (result: seq<Vertex>, ghost perm: seq<int>, ghost positions: seq<int>)
      requires Valid()
      modifies this, vertices
      ensures perm == DegreeOrder(old(DegreesOf(vertices)))
      ensures Edges(old(KeysOf(ByDegree(vertices))))
      ensures positions == Scan(old(KeysOf(ByDegree(vertices))), old(DegreesOf(ByDegree(vertices))), 0,
                                old(VisitedOf(ByDegree(vertices))), []).1
      ensures Tracks(result, positions, old(ByDegree(vertices)))
      ensures vertices == result
      ensures forall v :: v in old(vertices) ==> v.visited
      ensures DictsOf(old(ByDegree(vertices))) == old(DictsOf(ByDegree(vertices)))
      ensures old(VisitedOf(vertices)) == {} ==>
        |result| == |old(vertices)| && Valid() && forall v :: v in old(vertices) <==> v in result
      ensures old(VisitedOf(vertices)) == Range(|old(vertices)|) ==> result == []
    {
      ghost var none, all := VisitedOf(vertices) == {}, VisitedOf(vertices) == Range(|vertices|);
      ghost var before := vertices;
      perm := SortByDegree();
      ghost var sorted := vertices;
      ViewsUnchanged(sorted);
      assert none ==> VisitedOf(sorted) == {};
      assert all ==> VisitedOf(sorted) == Range(|sorted|);
      positions := CollectOrdering();
      result := vertices;
      if none {
        SameMembers(before, sorted, result);
      }
    }
  }
}
