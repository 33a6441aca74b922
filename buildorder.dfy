/** The build order of `sortedDeps`: a depth-first walk from the root with a visited set, children
    taken in ascending `strcmp` order, each package emitted after all of its dependencies. */
module BuildOrder {
  import opened Strings

  /** Package id to the ids its manifest depends on. */
  type Graph = map<string, set<string>>

  /** The state of the walk: the `visited` map (as the set of its true keys) and the `ids` pushed so far. */
  datatype Walk = Walk(visited: set<string>, order: seq<string>)

  /** Every dependency id names a package of the graph (`resolveDep` never returns null). */
  ghost predicate Closed(g: Graph) {
    forall k :: k in g ==> g[k] <= g.Keys
  }

  lemma PrefixElems(a: seq<string>, b: seq<string>)
    requires Prefix(a, b)
    ensures Elems(a) <= Elems(b)
  {
    forall x | x in Elems(a) ensures x in Elems(b) {
      var i :| 0 <= i < |a| && a[i] == x;
      assert b[i] == x;
    }
  }

  /** `rec(p)`: skip a visited package; otherwise mark it, walk its sorted dependencies, push it. */
  function Visit(g: Graph, x: string, w: Walk): (r: Walk)
    requires Closed(g) && x in g
    ensures w.visited <= r.visited && x in r.visited
    decreases g.Keys - w.visited, 0, 0
  {
    if x in w.visited then w
    else
      assert g.Keys - (w.visited + {x}) < g.Keys - w.visited;
      var w' := VisitAll(g, SortedSet(g[x]), Walk(w.visited + {x}, w.order));
      Walk(w'.visited, w'.order + [x])
  }

  /** `deps.forEach(id => rec(...))` over an already sorted list of ids. */
  function VisitAll(g: Graph, xs: seq<string>, w: Walk): (r: Walk)
    requires Closed(g) && forall i :: 0 <= i < |xs| ==> xs[i] in g
    ensures w.visited <= r.visited
    decreases g.Keys - w.visited, 1, |xs|
  {
    if xs == [] then w
    else
      var w' := Visit(g, xs[0], w);
      assert g.Keys - w'.visited <= g.Keys - w.visited;
      VisitAll(g, xs[1..], w')
  }

  /** The ids `sortedDeps` returns, for a walk started at `root` with nothing visited. */
  function Order(g: Graph, root: string): seq<string>
    requires Closed(g) && root in g
  {
    Visit(g, root, Walk({}, [])).order
  }

  /** `rec(p)`, with the closure's `visited` and `ids` passed in and out: a visited package is
      skipped; otherwise it is marked, its dependencies are walked in `strcmp` order, and its
      id is pushed. */
  method Rec(g: Graph, x: string, visited: set<string>, ids: seq<string>) returns (visited': set<string>, ids': seq<string>)
    requires Closed(g) && x in g
    ensures Walk(visited', ids') == Visit(g, x, Walk(visited, ids))
    decreases g.Keys - visited, 0
  {
    if x in visited {
      return visited, ids;
    }
    var xs := SortedSet(g[x]);
    ghost var w0 := Walk(visited + {x}, ids);
    var v := visited + {x};
    var o := ids;
    InGraph(g, x, xs);
    for i := 0 to |xs|
      invariant visited + {x} <= v
      invariant VisitAll(g, xs, w0) == VisitAll(g, xs[i..], Walk(v, o))
    {
      VisitAllStep(g, xs, i, Walk(v, o));
      assert x in g.Keys - visited && x !in g.Keys - v;
      v, o := Rec(g, xs[i], v, o);
    }
    assert xs[|xs|..] == [];
    visited', ids' := v, o + [x];
  }

  lemma InGraph(g: Graph, x: string, xs: seq<string>)
    requires Closed(g) && x in g && Elems(xs) == g[x]
    ensures forall i :: 0 <= i < |xs| ==> xs[i] in g
  {
    assert forall i :: 0 <= i < |xs| ==> xs[i] in Elems(xs);
  }

  lemma VisitAllStep(g: Graph, xs: seq<string>, i: nat, w: Walk)
    requires Closed(g) && (forall j :: 0 <= j < |xs| ==> xs[j] in g) && i < |xs|
    ensures VisitAll(g, xs[i..], w) == VisitAll(g, xs[i + 1..], Visit(g, xs[i], w))
  {
    assert xs[i..][1..] == xs[i + 1..];
  }

  lemma AppendFresh(o: seq<string>, x: string)
    requires NoDup(o) && x !in Elems(o)
    ensures NoDup(o + [x]) && Elems(o + [x]) == Elems(o) + {x} && Prefix(o, o + [x])
  {
    var r := o + [x];
    assert r[..|o|] == o;
    assert forall i :: 0 <= i < |o| ==> r[i] == o[i] && o[i] in Elems(o);
    forall y | y in Elems(r) ensures y in Elems(o) + {x} {
      var i :| 0 <= i < |r| && r[i] == y;
    }
  }

  /** No id pushed twice, and only visited ids pushed. */
  ghost predicate Sound(w: Walk) {
    NoDup(w.order) && Elems(w.order) <= w.visited
  }

  /** What one step of the walk guarantees: it extends the order, keeps it sound, pushes exactly the
      ids it newly visits, and every id it newly visits has all its dependencies visited. */
  ghost predicate Grows(g: Graph, w: Walk, r: Walk)
    requires Closed(g)
  {
    && Sound(r) && w.visited <= r.visited && Prefix(w.order, r.order)
    && r.visited - w.visited == Elems(r.order) - Elems(w.order)
    && forall y :: y in r.visited - w.visited ==> y in g && g[y] <= r.visited
  }

  lemma PrefixTrans(a: seq<string>, b: seq<string>, c: seq<string>)
    requires Prefix(a, b) && Prefix(b, c)
    ensures Prefix(a, c)
  {
    assert c[..|a|] == c[..|b|][..|a|];
  }

  lemma {:induction false} VisitGrows(g: Graph, x: string, w: Walk)
    requires Closed(g) && x in g && Sound(w)
    ensures Grows(g, w, Visit(g, x, w))
    decreases g.Keys - w.visited, 0, 0
  {
    if x !in w.visited {
      var xs := SortedSet(g[x]);
      var w1 := Walk(w.visited + {x}, w.order);
      assert g.Keys - w1.visited < g.Keys - w.visited;
      InGraph(g, x, xs);
      VisitAllGrows(g, xs, w1);
      var w2 := VisitAll(g, xs, w1);
      var r := Walk(w2.visited, w2.order + [x]);
      assert r == Visit(g, x, w);
      assert x !in Elems(w2.order);
      AppendFresh(w2.order, x);
      PrefixTrans(w.order, w2.order, r.order);
      PrefixElems(w.order, w2.order);
      assert w2.visited - w.visited == (w2.visited - w1.visited) + {x};
      assert Elems(r.order) - Elems(w.order) == (Elems(w2.order) - Elems(w.order)) + {x};
      assert g[x] <= r.visited by {
        forall c | c in g[x] ensures c in r.visited {
          assert c in Elems(xs);
        }
      }
    }
  }

  lemma {:induction false} VisitAllGrows(g: Graph, xs: seq<string>, w: Walk)
    requires Closed(g) && (forall i :: 0 <= i < |xs| ==> xs[i] in g) && Sound(w)
    ensures Grows(g, w, VisitAll(g, xs, w))
    ensures forall i :: 0 <= i < |xs| ==> xs[i] in VisitAll(g, xs, w).visited
    decreases g.Keys - w.visited, 1, |xs|
  {
    if xs != [] {
      var w1 := Visit(g, xs[0], w);
      VisitGrows(g, xs[0], w);
      assert g.Keys - w1.visited <= g.Keys - w.visited;
      VisitAllGrows(g, xs[1..], w1);
      var r := VisitAll(g, xs[1..], w1);
      assert r == VisitAll(g, xs, w);
      assert Prefix(w.order, r.order) by {
        assert r.order[..|w1.order|][..|w.order|] == w.order;
      }
      PrefixElems(w.order, w1.order);
      PrefixElems(w1.order, r.order);
      assert r.visited - w.visited == (r.visited - w1.visited) + (w1.visited - w.visited);
      assert Elems(r.order) - Elems(w.order) == (Elems(r.order) - Elems(w1.order)) + (Elems(w1.order) - Elems(w.order));
      forall i | 0 <= i < |xs| ensures xs[i] in r.visited {
        if i > 0 { assert xs[i] == xs[1..][i - 1]; }
      }
    }
  }

  /** The order lists every id it reaches exactly once, ends with the root, and is closed under
      dependencies: every dependency of a listed id is listed. */
  lemma OrderSound(g: Graph, root: string)
    requires Closed(g) && root in g
    ensures NoDup(Order(g, root))
    ensures |Order(g, root)| > 0 && Order(g, root)[|Order(g, root)| - 1] == root
    ensures root in Elems(Order(g, root))
    ensures forall y :: y in Elems(Order(g, root)) ==> y in g && g[y] <= Elems(Order(g, root))
  {
    var w0 := Walk({}, []);
    VisitGrows(g, root, w0);
    var r := Visit(g, root, w0);
    assert Elems(w0.order) == {};
    assert r.visited - w0.visited == r.visited;
    assert r.visited == Elems(r.order);
  }

  /** A set of ids that contains the root and all dependencies of its members. */
  ghost predicate DepClosed(g: Graph, s: set<string>) {
    s <= g.Keys && forall y :: y in s ==> g[y] <= s
  }

  lemma {:induction false} VisitWithin(g: Graph, s: set<string>, x: string, w: Walk)
    requires Closed(g) && DepClosed(g, s) && x in s
    ensures Visit(g, x, w).visited - w.visited <= s
    decreases g.Keys - w.visited, 0, 0
  {
    if x !in w.visited {
      var w1 := Walk(w.visited + {x}, w.order);
      assert g.Keys - w1.visited < g.Keys - w.visited;
      VisitAllWithin(g, s, SortedSet(g[x]), w1);
    }
  }

  lemma {:induction false} VisitAllWithin(g: Graph, s: set<string>, xs: seq<string>, w: Walk)
    requires Closed(g) && DepClosed(g, s) && forall i :: 0 <= i < |xs| ==> xs[i] in s
    ensures VisitAll(g, xs, w).visited - w.visited <= s
    decreases g.Keys - w.visited, 1, |xs|
  {
    if xs != [] {
      var w1 := Visit(g, xs[0], w);
      VisitWithin(g, s, xs[0], w);
      assert g.Keys - w1.visited <= g.Keys - w.visited;
      VisitAllWithin(g, s, xs[1..], w1);
    }
  }

  /** The order lists nothing but what the root reaches: it lies inside every dependency-closed
      set that contains the root. */
  lemma OrderReachableOnly(g: Graph, root: string, s: set<string>)
    requires Closed(g) && DepClosed(g, s) && root in s
    ensures Elems(Order(g, root)) <= s
  {
    var w0 := Walk({}, []);
    VisitGrows(g, root, w0);
    VisitWithin(g, s, root, w0);
  }

  /** Acyclicity as the existence of a rank that every dependency edge lowers. */
  ghost predicate Ranked(g: Graph, rank: string -> nat) {
    forall y, c :: y in g && c in g[y] ==> rank(c) < rank(y)
  }

  /** Every listed id has all of its dependencies listed before it. */
  ghost predicate DepsFirst(g: Graph, o: seq<string>) {
    forall i :: 0 <= i < |o| && o[i] in g ==> g[o[i]] <= Elems(o[..i])
  }

  lemma DepsFirstPrefix(g: Graph, a: seq<string>, b: seq<string>)
    requires Prefix(a, b) && DepsFirst(g, b)
    ensures DepsFirst(g, a)
  {
    forall i | 0 <= i < |a| && a[i] in g ensures g[a[i]] <= Elems(a[..i]) {
      assert a[i] == b[i] && a[..i] == b[..i];
    }
  }

  lemma DepsFirstAppend(g: Graph, o: seq<string>, x: string)
    requires DepsFirst(g, o) && x in g && g[x] <= Elems(o)
    ensures DepsFirst(g, o + [x])
  {
    var o' := o + [x];
    forall i | 0 <= i < |o'| && o'[i] in g ensures g[o'[i]] <= Elems(o'[..i]) {
      if i < |o| {
        assert o'[i] == o[i] && o'[..i] == o[..i];
      } else {
        assert o'[..i] == o;
      }
    }
  }

  lemma RankedBelow(g: Graph, rank: string -> nat, x: string, xs: seq<string>)
    requires Ranked(g, rank) && x in g && Elems(xs) == g[x]
    ensures forall i :: 0 <= i < |xs| ==> rank(xs[i]) < rank(x)
  {
    assert forall i :: 0 <= i < |xs| ==> xs[i] in Elems(xs);
  }

  lemma {:induction false} VisitDepsFirst(g: Graph, rank: string -> nat, x: string, w: Walk)
    requires Closed(g) && x in g && Sound(w) && Ranked(g, rank) && DepsFirst(g, w.order)
    requires forall v :: v in w.visited - Elems(w.order) ==> rank(v) > rank(x)
    ensures DepsFirst(g, Visit(g, x, w).order)
    decreases g.Keys - w.visited, 0, 0
  {
    if x !in w.visited {
      var xs := SortedSet(g[x]);
      var w1 := Walk(w.visited + {x}, w.order);
      assert g.Keys - w1.visited < g.Keys - w.visited;
      InGraph(g, x, xs);
      RankedBelow(g, rank, x, xs);
      VisitAllDepsFirst(g, rank, xs, w1, rank(x));
      VisitAllGrows(g, xs, w1);
      var w2 := VisitAll(g, xs, w1);
      PrefixElems(w.order, w2.order);
      assert g[x] <= Elems(w2.order) by {
        forall c | c in g[x] ensures c in Elems(w2.order) {
          assert c in Elems(xs);
          assert rank(c) < rank(x);
          if c !in Elems(w.order) {
            assert c !in w.visited;
          }
        }
      }
      DepsFirstAppend(g, w2.order, x);
    }
  }

  lemma {:induction false} VisitAllDepsFirst(g: Graph, rank: string -> nat, xs: seq<string>, w: Walk, bound: nat)
    requires Closed(g) && (forall i :: 0 <= i < |xs| ==> xs[i] in g) && Sound(w) && Ranked(g, rank)
    requires DepsFirst(g, w.order)
    requires forall i :: 0 <= i < |xs| ==> rank(xs[i]) < bound
    requires forall v :: v in w.visited - Elems(w.order) ==> rank(v) >= bound
    ensures DepsFirst(g, VisitAll(g, xs, w).order)
    decreases g.Keys - w.visited, 1, |xs|
  {
    if xs != [] {
      var w1 := Visit(g, xs[0], w);
      VisitDepsFirst(g, rank, xs[0], w);
      VisitGrows(g, xs[0], w);
      assert g.Keys - w1.visited <= g.Keys - w.visited;
      PrefixElems(w.order, w1.order);
      assert Grows(g, w, w1);
      assert w1.visited - w.visited == Elems(w1.order) - Elems(w.order);
      forall v | v in w1.visited - Elems(w1.order) ensures v in w.visited - Elems(w.order) {
        assert v !in Elems(w1.order) - Elems(w.order);
        assert v !in w1.visited - w.visited;
      }
      VisitAllDepsFirst(g, rank, xs[1..], w1, bound);
    }
  }

  /** On an acyclic graph every dependency is listed before its dependent. */
  lemma OrderDepsFirst(g: Graph, rank: string -> nat, root: string)
    requires Closed(g) && root in g && Ranked(g, rank)
    ensures DepsFirst(g, Order(g, root))
  {
    VisitDepsFirst(g, rank, root, Walk({}, []));
  }
}
