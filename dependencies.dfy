/**
 * source/data/dependency_tree.py: a graph of `DependencyNode` objects, one
 * per value, with `parents` and `children` lists, and the depth-first walk
 * `yield_values` that visits a node's parents before the node and its
 * children after it, threading one shared `seen` list through the calls.
 *
 * Node values are the texts the graph is keyed by.  `__eq__` compares
 * values, so the `in` tests on node lists compare values; since the tree
 * interns one node per value, that is node identity for the nodes it makes.
 *
 * The specifications talk about the value-level picture of the objects, a
 * `Graph` of parent and child value lists, and a generator's yields,
 * drained in full, are the sequence the walk returns.
 */
module Dependencies {

  /* ---------------------------------------------------------------------- */
  /* The value-level graph                                                    */
  /* ---------------------------------------------------------------------- */

  /** Each known value's parent values and child values, in list order. */
  datatype Graph = Graph(parents: map<string, seq<string>>, children: map<string, seq<string>>)

  /** The parent values of `v`, none for an unknown value. */
  function Parents(g: Graph, v: string): seq<string>
  {
    if v in g.parents then g.parents[v] else []
  }

  /** The child values of `v`, none for an unknown value. */
  function Children(g: Graph, v: string): seq<string>
  {
    if v in g.children then g.children[v] else []
  }

  /** Every value a list mentions is a known value. */
  predicate Closed(g: Graph)
  {
    && (forall v :: v in g.parents ==> forall p :: p in g.parents[v] ==> p in g.parents)
    && (forall v :: v in g.children ==> forall c :: c in g.children[v] ==> c in g.parents)
  }

  predicate NoDuplicates(s: seq<string>)
  {
    forall i, j :: 0 <= i < j < |s| ==> s[i] != s[j]
  }

  /** No list of the graph holds a value twice. */
  predicate Simple(g: Graph)
  {
    && (forall v :: v in g.parents ==> NoDuplicates(g.parents[v]))
    && (forall v :: v in g.children ==> NoDuplicates(g.children[v]))
  }

  /** `get_node` on values: a new value starts with no parents and no children. */
  function Intern(g: Graph, v: string): (r: Graph)
    ensures r.parents.Keys == g.parents.Keys + {v} && r.children.Keys == g.children.Keys + {v}
    ensures forall x :: x in g.parents ==> r.parents[x] == g.parents[x]
    ensures forall x :: x in g.children ==> r.children[x] == g.children[x]
    ensures Parents(r, v) == Parents(g, v) && Children(r, v) == Children(g, v)
  {
    Graph(if v in g.parents then g.parents else g.parents[v := []],
          if v in g.children then g.children else g.children[v := []])
  }

  /**
   * `add_dependency` as written, on values: intern both; append the parent
   * to the child's parents unless it is there; append the child to the
   * parent's children unless the child is among the CHILD's own children.
   */
  function AddEdge(g: Graph, parent: string, child: string): (r: Graph)
    ensures r.parents.Keys == g.parents.Keys + {parent, child}
    ensures r.children.Keys == g.children.Keys + {parent, child}
  {
    Connect(Intern(Intern(g, parent), child), parent, child)
  }

  /** The two guarded appends of `add_dependency`, on a graph that knows both values. */
  function Connect(h: Graph, parent: string, child: string): (r: Graph)
    requires parent in h.parents && child in h.parents && parent in h.children && child in h.children
    ensures r.parents.Keys == h.parents.Keys && r.children.Keys == h.children.Keys
  {
    Graph(if parent in h.parents[child] then h.parents else h.parents[child := h.parents[child] + [parent]],
          if child in h.children[child] then h.children else h.children[parent := h.children[parent] + [child]])
  }

  /**
   * The evidently intended `add_dependency`: the second guard tests the
   * PARENT's children, mirroring the first.
   */
  function AddEdgeIntended(g: Graph, parent: string, child: string): (r: Graph)
    ensures r.parents.Keys == g.parents.Keys + {parent, child}
    ensures r.children.Keys == g.children.Keys + {parent, child}
  {
    ConnectIntended(Intern(Intern(g, parent), child), parent, child)
  }

  /** The two guarded appends of the intended `add_dependency`, on a graph that knows both values. */
  function ConnectIntended(h: Graph, parent: string, child: string): (r: Graph)
    requires parent in h.parents && child in h.parents && parent in h.children && child in h.children
    ensures r.parents.Keys == h.parents.Keys && r.children.Keys == h.children.Keys
  {
    Graph(if parent in h.parents[child] then h.parents else h.parents[child := h.parents[child] + [parent]],
          if child in h.children[parent] then h.children else h.children[parent := h.children[parent] + [child]])
  }

  /** Appending a value a list lacks keeps the list free of duplicates. */
  lemma AppendNew(s: seq<string>, x: string)
    requires NoDuplicates(s) && x !in s
    ensures NoDuplicates(s + [x])
  {
  }

  /** As written, the edge always lands in the child's parents, once. */
  lemma AddEdgeRecordsParent(g: Graph, parent: string, child: string)
    ensures parent in Parents(AddEdge(g, parent, child), child)
    ensures Simple(g) ==> forall v :: v in AddEdge(g, parent, child).parents ==> NoDuplicates(AddEdge(g, parent, child).parents[v])
  {
    var h := Intern(Intern(g, parent), child);
    if Simple(g) && parent !in h.parents[child] {
      AppendNew(h.parents[child], parent);
    }
  }

  /**
   * As written, registering the same edge twice lists the child twice among
   * the parent's children: the second guard looks at the wrong list.
   */
  lemma AddEdgeTwiceDuplicatesChild()
    ensures var g := AddEdge(AddEdge(Graph(map[], map[]), "A", "B"), "A", "B");
            g.children["A"] == ["B", "B"] && g.parents["B"] == ["A"]
  {
    var g0 := Graph(map[], map[]);
    var g1 := AddEdge(g0, "A", "B");
    assert g1.parents["B"] == ["A"] && g1.children["A"] == ["B"] && g1.children["B"] == [];
  }

  /**
   * With the intended guard the edge lands in both lists and the lists stay
   * free of duplicates.
   */
  lemma AddEdgeIntendedRecords(g: Graph, parent: string, child: string)
    ensures parent in Parents(AddEdgeIntended(g, parent, child), child)
    ensures child in Children(AddEdgeIntended(g, parent, child), parent)
    ensures Simple(g) ==> Simple(AddEdgeIntended(g, parent, child))
  {
    var h := Intern(Intern(g, parent), child);
    if Simple(g) {
      InternSimple(g, parent);
      InternSimple(Intern(g, parent), child);
      ConnectIntendedSimple(h, parent, child);
    }
  }

  /** A new value's empty lists keep the graph free of duplicates. */
  lemma InternSimple(g: Graph, v: string)
    requires Simple(g)
    ensures Simple(Intern(g, v))
  {
    var r := Intern(g, v);
    assert forall x :: x in r.parents ==> r.parents[x] == [] || r.parents[x] == g.parents[x];
    assert forall x :: x in r.children ==> r.children[x] == [] || r.children[x] == g.children[x];
  }

  /** The intended guarded appends keep the lists free of duplicates. */
  lemma ConnectIntendedSimple(h: Graph, parent: string, child: string)
    requires parent in h.parents && child in h.parents && parent in h.children && child in h.children
    requires Simple(h)
    ensures Simple(ConnectIntended(h, parent, child))
  {
    var r := ConnectIntended(h, parent, child);
    forall v | v in r.parents ensures NoDuplicates(r.parents[v]) {
      if v == child && parent !in h.parents[child] {
        AppendNew(h.parents[child], parent);
      } else {
        assert r.parents[v] == h.parents[v];
      }
    }
    forall v | v in r.children ensures NoDuplicates(r.children[v]) {
      if v == parent && child !in h.children[parent] {
        AppendNew(h.children[parent], child);
      } else {
        assert r.children[v] == h.children[v];
      }
    }
  }

  /** With the intended guard, registering an edge again changes nothing. */
  lemma AddEdgeIntendedIdempotent(g: Graph, parent: string, child: string)
    ensures AddEdgeIntended(AddEdgeIntended(g, parent, child), parent, child) == AddEdgeIntended(g, parent, child)
  {
    AddEdgeIntendedRecords(g, parent, child);
  }

  /**
   * `part` is a set of known values closed under parent and child links, in
   * which every parent ranks below its child: the parent links inside
   * `part` have no cycle.  Values outside `part` are free, so a cycle that
   * no value of `part` links to is allowed.
   */
  ghost predicate Ranked(g: Graph, part: set<string>, height: map<string, nat>)
  {
    forall v :: RankedAt(g, part, height, v)
  }

  /** The rank of `v`, 0 for a value without one. */
  function Rank(height: map<string, nat>, v: string): nat
  {
    if v in height then height[v] else 0
  }

  /** The condition of `Ranked` at one value. */
  predicate RankedAt(g: Graph, part: set<string>, height: map<string, nat>, v: string)
  {
    v in part ==>
      && v in g.parents && v in height
      && (forall p :: p in Parents(g, v) ==> p in part && p in height && height[p] < height[v])
      && (forall c :: c in Children(g, v) ==> c in part)
  }

  /** Every seen value whose walk is over (it is not in `open`) has all its children seen. */
  predicate ClosedExcept(g: Graph, seen: seq<string>, open: set<string>)
  {
    forall x :: x in seen && x !in open ==> forall c :: c in Children(g, x) ==> c in seen
  }

  /** Every entry of `seen` comes after all the parents of its value. */
  predicate ParentsFirst(g: Graph, seen: seq<string>)
  {
    forall i :: 0 <= i < |seen| ==> forall p :: p in Parents(g, seen[i]) ==> p in seen[..i]
  }

  /** The values of `part` still to see, and `v`. */
  function Pending(part: set<string>, seen: seq<string>, v: string): set<string>
  {
    (part - set x | x in seen) + {v}
  }

  /** A subset is no larger, and a proper subset is smaller. */
  lemma SubsetCard(a: set<string>, b: set<string>)
    requires a <= b
    ensures |a| <= |b|
    ensures a < b ==> |a| < |b|
    decreases |b|
  {
    if a != b {
      var x :| x in b && x !in a;
      SubsetCard(a, b - {x});
    }
  }

  /** Concatenation is associative. */
  lemma Assoc(a: seq<string>, b: seq<string>, c: seq<string>)
    ensures (a + b) + c == a + (b + c)
  {
  }

  /** The empty sequence is a unit of concatenation. */
  lemma EmptyUnit(a: seq<string>)
    ensures [] + a == a && a + [] == a
  {
  }

  /** A prefix one longer is the prefix and the next entry. */
  lemma PrefixStep(s: seq<string>, i: nat)
    requires i < |s|
    ensures s[..i + 1] == s[..i] + [s[i]]
    ensures s[..i + 1][..i] == s[..i] && s[..i + 1][i] == s[i]
  {
  }

  /** Marking `v` as open weakens the closure. */
  lemma ClosedWiden(g: Graph, s: seq<string>, open: set<string>, v: string)
    requires ClosedExcept(g, s, open)
    ensures ClosedExcept(g, s, open + {v})
  {
  }

  /** A parent walk sees no more values than the walk that makes it, and starts lower. */
  lemma ParentStep(g: Graph, part: set<string>, height: map<string, nat>, v: string, p: string, seen: seq<string>, s: seq<string>)
    requires Ranked(g, part, height) && v in part && p in Parents(g, v)
    requires forall x :: x in seen ==> x in s
    requires p !in s
    ensures p in part && Rank(height, p) < Rank(height, v)
    ensures |Pending(part, s, p)| <= |Pending(part, seen, v)|
  {
    assert RankedAt(g, part, height, v);
    SubsetCard(Pending(part, s, p), Pending(part, seen, v));
  }

  /** A child walk, made after `v` was seen, has fewer values left to see. */
  lemma ChildStep(g: Graph, part: set<string>, height: map<string, nat>, v: string, c: string, seen: seq<string>, s: seq<string>)
    requires Ranked(g, part, height) && v in part && c in Children(g, v)
    requires forall x :: x in seen ==> x in s
    requires v in s && c !in s
    ensures c in part
    ensures |Pending(part, s, c)| < |Pending(part, seen, v)|
  {
    assert RankedAt(g, part, height, v);
    assert v in Pending(part, seen, v) && v !in Pending(part, s, c);
    SubsetCard(Pending(part, s, c), Pending(part, seen, v));
  }

  /** Yielding `v` after its parents keeps every entry after its parents. */
  lemma AppendSeen(g: Graph, s: seq<string>, v: string, open: set<string>)
    requires ParentsFirst(g, s) && ClosedExcept(g, s, open + {v})
    requires forall p :: p in Parents(g, v) ==> p in s
    ensures ParentsFirst(g, s + [v]) && ClosedExcept(g, s + [v], open + {v})
  {
    var t := s + [v];
    forall i | 0 <= i < |t| ensures forall p :: p in Parents(g, t[i]) ==> p in t[..i] {
      if i < |s| {
        assert t[..i] == s[..i] && t[i] == s[i];
      } else {
        assert t[..i] == s;
      }
    }
  }

  /** Once all of `v`'s children are seen, the walk of `v` is closed. */
  lemma CloseWalk(g: Graph, v: string, s: seq<string>, open: set<string>)
    requires ClosedExcept(g, s, open + {v})
    requires forall c :: c in Children(g, v) ==> c in s
    ensures ClosedExcept(g, s, open)
  {
  }

  /** A chain of values, each a child of the one before. */
  predicate ChildPath(g: Graph, path: seq<string>)
  {
    forall i :: 0 <= i < |path| - 1 ==> path[i + 1] in Children(g, path[i])
  }

  /** A seen list closed under children holds every value reachable from a seen value. */
  lemma {:induction false} ClosedHoldsPath(g: Graph, seen: seq<string>, path: seq<string>)
    requires ClosedExcept(g, seen, {}) && ChildPath(g, path) && |path| > 0 && path[0] in seen
    ensures path[|path| - 1] in seen
    decreases |path|
  {
    if |path| > 1 {
      var init := path[..|path| - 1];
      assert ChildPath(g, init) by {
        forall i | 0 <= i < |init| - 1 ensures init[i + 1] in Children(g, init[i]) {
          assert init[i] == path[i] && init[i + 1] == path[i + 1];
        }
      }
      ClosedHoldsPath(g, seen, init);
      assert path[|path| - 1] in Children(g, path[|path| - 2]);
    }
  }

  /** The values among `keys` that have no parents, in order. */
  function RootsIn(g: Graph, keys: seq<string>): (r: seq<string>)
    ensures forall x :: x in r ==> x in keys
  {
    if keys == [] then []
    else RootsIn(g, keys[..|keys| - 1]) + (if Parents(g, keys[|keys| - 1]) == [] then [keys[|keys| - 1]] else [])
  }

  /** One more key adds it to the roots exactly when it has no parents. */
  lemma RootsInStep(g: Graph, keys: seq<string>, i: nat)
    requires i < |keys|
    ensures RootsIn(g, keys[..i + 1]) == RootsIn(g, keys[..i]) + (if Parents(g, keys[i]) == [] then [keys[i]] else [])
  {
    PrefixStep(keys, i);
  }

  /** `RootsIn` keeps exactly the listed values with no parents. */
  lemma {:induction false} RootsInExactly(g: Graph, keys: seq<string>)
    ensures forall v :: v in RootsIn(g, keys) <==> v in keys && Parents(g, v) == []
  {
    if keys != [] {
      RootsInExactly(g, keys[..|keys| - 1]);
      assert keys == keys[..|keys| - 1] + [keys[|keys| - 1]];
    }
  }


  /* ---------------------------------------------------------------------- */
  /* The walk on values                                                       */
  /* ---------------------------------------------------------------------- */

  /**
   * `DependencyNode.yield_values(seen)` on the value `v`: the parent walks,
   * then `v` itself, then the child walks.  The result is the values yielded
   * and the `seen` list afterwards; the walk appends to `seen` exactly what
   * it yields, and it always yields `v`.
   */
  ghost function WalkFrom(g: Graph, part: set<string>, height: map<string, nat>, v: string, seen: seq<string>): (r: (seq<string>, seq<string>))
    requires Ranked(g, part, height) && v in part
    requires forall x :: x in seen ==> x in part
    ensures r.1 == seen + r.0 && v in r.0
    ensures forall x :: x in r.1 ==> x in part
    decreases |Pending(part, seen, v)|, Rank(height, v), 2, 0
  {
    var before := ParentWalks(g, part, height, v, seen, 0, seen);
    var after := ChildWalks(g, part, height, v, seen, 0, before.1 + [v]);
    Assoc(seen, before.0, [v]);
    Assoc(seen, before.0 + [v], after.0);
    (before.0 + [v] + after.0, after.1)
  }

  /**
   * The parent loop from the `i`-th parent of `v` on, with `seen` at `s`:
   * each parent not yet seen is walked.
   */
  ghost function ParentWalks(g: Graph, part: set<string>, height: map<string, nat>, v: string, seen0: seq<string>, i: nat, s: seq<string>)
    : (r: (seq<string>, seq<string>))
    requires Ranked(g, part, height) && v in part && i <= |Parents(g, v)|
    requires forall x :: x in seen0 ==> x in s
    requires forall x :: x in s ==> x in part
    ensures r.1 == s + r.0
    ensures forall x :: x in r.1 ==> x in part
    decreases |Pending(part, seen0, v)|, Rank(height, v), 1, |Parents(g, v)| - i
  {
    if i == |Parents(g, v)| then ([], s)
    else
      var p := Parents(g, v)[i];
      if p in s then ParentWalks(g, part, height, v, seen0, i + 1, s)
      else
        ParentStep(g, part, height, v, p, seen0, s);
        var w := WalkFrom(g, part, height, p, s);
        var rest := ParentWalks(g, part, height, v, seen0, i + 1, w.1);
        Assoc(s, w.0, rest.0);
        (w.0 + rest.0, rest.1)
  }

  /**
   * The child loop from the `i`-th child of `v` on, with `seen` at `s`
   * (which holds `v`): each child not yet seen is walked.
   */
  ghost function ChildWalks(g: Graph, part: set<string>, height: map<string, nat>, v: string, seen0: seq<string>, i: nat, s: seq<string>)
    : (r: (seq<string>, seq<string>))
    requires Ranked(g, part, height) && v in part && i <= |Children(g, v)|
    requires forall x :: x in seen0 ==> x in s
    requires v in s && forall x :: x in s ==> x in part
    ensures r.1 == s + r.0
    ensures forall x :: x in r.1 ==> x in part
    decreases |Pending(part, seen0, v)|, Rank(height, v), 1, |Children(g, v)| - i
  {
    if i == |Children(g, v)| then ([], s)
    else
      var c := Children(g, v)[i];
      if c in s then ChildWalks(g, part, height, v, seen0, i + 1, s)
      else
        ChildStep(g, part, height, v, c, seen0, s);
        var w := WalkFrom(g, part, height, c, s);
        var rest := ChildWalks(g, part, height, v, seen0, i + 1, w.1);
        Assoc(s, w.0, rest.0);
        (w.0 + rest.0, rest.1)
  }

  /**
   * After a walk every value of `seen` still comes after its parents, and
   * every value whose walk is over has its children seen.
   */
  lemma {:induction false} WalkFromKeeps(g: Graph, part: set<string>, height: map<string, nat>, v: string, seen: seq<string>, open: set<string>)
    requires Ranked(g, part, height) && v in part
    requires forall x :: x in seen ==> x in part
    requires ClosedExcept(g, seen, open) && ParentsFirst(g, seen)
    ensures ClosedExcept(g, WalkFrom(g, part, height, v, seen).1, open)
    ensures ParentsFirst(g, WalkFrom(g, part, height, v, seen).1)
    decreases |Pending(part, seen, v)|, Rank(height, v), 2, 0
  {
    ClosedWiden(g, seen, open, v);
    ParentWalksKeep(g, part, height, v, seen, 0, seen, open);
    var before := ParentWalks(g, part, height, v, seen, 0, seen);
    AppendSeen(g, before.1, v, open);
    ChildWalksKeep(g, part, height, v, seen, 0, before.1 + [v], open);
    var after := ChildWalks(g, part, height, v, seen, 0, before.1 + [v]);
    CloseWalk(g, v, after.1, open);
  }

  /** The parent loop keeps both properties and ends with every parent seen. */
  lemma {:induction false} ParentWalksKeep(g: Graph, part: set<string>, height: map<string, nat>, v: string, seen0: seq<string>, i: nat,
                                           s: seq<string>, open: set<string>)
    requires Ranked(g, part, height) && v in part && i <= |Parents(g, v)|
    requires forall x :: x in seen0 ==> x in s
    requires forall x :: x in s ==> x in part
    requires ClosedExcept(g, s, open + {v}) && ParentsFirst(g, s)
    requires forall j :: 0 <= j < i ==> Parents(g, v)[j] in s
    ensures var r := ParentWalks(g, part, height, v, seen0, i, s);
            ClosedExcept(g, r.1, open + {v}) && ParentsFirst(g, r.1) && forall p :: p in Parents(g, v) ==> p in r.1
    decreases |Pending(part, seen0, v)|, Rank(height, v), 1, |Parents(g, v)| - i, 1
  {
    var ps := Parents(g, v);
    if i == |ps| {
      assert ParentWalks(g, part, height, v, seen0, i, s).1 == s;
    } else {
      var p := ps[i];
      if p in s {
        assert ParentWalks(g, part, height, v, seen0, i, s).1 == ParentWalks(g, part, height, v, seen0, i + 1, s).1;
        ParentWalksKeep(g, part, height, v, seen0, i + 1, s, open);
      } else {
        ParentWalksKeepWalked(g, part, height, v, seen0, i, s, open);
      }
    }
  }

  /** The step of `ParentWalksKeep` that walks the `i`-th parent, not yet seen. */
  lemma {:induction false} ParentWalksKeepWalked(g: Graph, part: set<string>, height: map<string, nat>, v: string, seen0: seq<string>, i: nat,
                                          s: seq<string>, open: set<string>)
    requires Ranked(g, part, height) && v in part && i < |Parents(g, v)|
    requires forall x :: x in seen0 ==> x in s
    requires forall x :: x in s ==> x in part
    requires ClosedExcept(g, s, open + {v}) && ParentsFirst(g, s)
    requires forall j :: 0 <= j < i ==> Parents(g, v)[j] in s
    requires Parents(g, v)[i] !in s
    ensures var r := ParentWalks(g, part, height, v, seen0, i, s);
            ClosedExcept(g, r.1, open + {v}) && ParentsFirst(g, r.1) && forall p :: p in Parents(g, v) ==> p in r.1
    decreases |Pending(part, seen0, v)|, Rank(height, v), 1, |Parents(g, v)| - i, 0
  {
    var ps := Parents(g, v);
    var p := ps[i];
    ParentStep(g, part, height, v, p, seen0, s);
    WalkFromKeeps(g, part, height, p, s, open + {v});
    var w := WalkFrom(g, part, height, p, s);
    assert forall j :: 0 <= j < i + 1 ==> ps[j] in w.1 by {
      assert forall x :: x in s ==> x in w.1;
    }
    assert ParentWalks(g, part, height, v, seen0, i, s).1 == ParentWalks(g, part, height, v, seen0, i + 1, w.1).1;
    ParentWalksKeep(g, part, height, v, seen0, i + 1, w.1, open);
  }

  /** The child loop keeps both properties and ends with every child seen. */
  lemma {:induction false} ChildWalksKeep(g: Graph, part: set<string>, height: map<string, nat>, v: string, seen0: seq<string>, i: nat,
                                          s: seq<string>, open: set<string>)
    requires Ranked(g, part, height) && v in part && i <= |Children(g, v)|
    requires forall x :: x in seen0 ==> x in s
    requires v in s && forall x :: x in s ==> x in part
    requires ClosedExcept(g, s, open + {v}) && ParentsFirst(g, s)
    requires forall j :: 0 <= j < i ==> Children(g, v)[j] in s
    ensures var r := ChildWalks(g, part, height, v, seen0, i, s);
            ClosedExcept(g, r.1, open + {v}) && ParentsFirst(g, r.1) && forall c :: c in Children(g, v) ==> c in r.1
    decreases |Pending(part, seen0, v)|, Rank(height, v), 1, |Children(g, v)| - i, 1
  {
    var cs := Children(g, v);
    if i == |cs| {
      assert ChildWalks(g, part, height, v, seen0, i, s).1 == s;
    } else {
      var c := cs[i];
      if c in s {
        assert ChildWalks(g, part, height, v, seen0, i, s).1 == ChildWalks(g, part, height, v, seen0, i + 1, s).1;
        ChildWalksKeep(g, part, height, v, seen0, i + 1, s, open);
      } else {
        ChildWalksKeepWalked(g, part, height, v, seen0, i, s, open);
      }
    }
  }

  /** The step of `ChildWalksKeep` that walks the `i`-th child, not yet seen. */
  lemma {:induction false} ChildWalksKeepWalked(g: Graph, part: set<string>, height: map<string, nat>, v: string, seen0: seq<string>, i: nat,
                                          s: seq<string>, open: set<string>)
    requires Ranked(g, part, height) && v in part && i < |Children(g, v)|
    requires forall x :: x in seen0 ==> x in s
    requires v in s && forall x :: x in s ==> x in part
    requires ClosedExcept(g, s, open + {v}) && ParentsFirst(g, s)
    requires forall j :: 0 <= j < i ==> Children(g, v)[j] in s
    requires Children(g, v)[i] !in s
    ensures var r := ChildWalks(g, part, height, v, seen0, i, s);
            ClosedExcept(g, r.1, open + {v}) && ParentsFirst(g, r.1) && forall c :: c in Children(g, v) ==> c in r.1
    decreases |Pending(part, seen0, v)|, Rank(height, v), 1, |Children(g, v)| - i, 0
  {
    var cs := Children(g, v);
    var c := cs[i];
    ChildStep(g, part, height, v, c, seen0, s);
    WalkFromKeeps(g, part, height, c, s, open + {v});
    var w := WalkFrom(g, part, height, c, s);
    assert forall j :: 0 <= j < i + 1 ==> cs[j] in w.1 by {
      assert forall x :: x in s ==> x in w.1;
    }
    assert ChildWalks(g, part, height, v, seen0, i, s).1 == ChildWalks(g, part, height, v, seen0, i + 1, w.1).1;
    ChildWalksKeep(g, part, height, v, seen0, i + 1, w.1, open);
  }

  /**
   * `DependencyTree.yield_values` on values: walk from each root in turn,
   * threading one `seen` list; the result is that list at the end, which is
   * also everything yielded.
   */
  ghost function RootWalks(g: Graph, part: set<string>, height: map<string, nat>, roots: seq<string>, seen: seq<string>): (r: seq<string>)
    requires Ranked(g, part, height)
    requires forall x :: x in roots ==> x in part
    requires forall x :: x in seen ==> x in part
    ensures forall x :: x in seen ==> x in r
    ensures forall x :: x in r ==> x in part
  {
    if roots == [] then seen
    else RootWalks(g, part, height, roots[1..], WalkFrom(g, part, height, roots[0], seen).1)
  }

  /**
   * Walking from every root yields every root and, each occurrence after
   * all its parents, every value whose children the walk reached.
   */
  lemma {:induction false} RootWalksKeep(g: Graph, part: set<string>, height: map<string, nat>, roots: seq<string>, seen: seq<string>)
    requires Ranked(g, part, height)
    requires forall x :: x in roots ==> x in part
    requires forall x :: x in seen ==> x in part
    requires ClosedExcept(g, seen, {}) && ParentsFirst(g, seen)
    ensures var r := RootWalks(g, part, height, roots, seen);
            ClosedExcept(g, r, {}) && ParentsFirst(g, r) && forall x :: x in roots ==> x in r
  {
    if roots != [] {
      WalkFromKeeps(g, part, height, roots[0], seen, {});
      RootWalksKeep(g, part, height, roots[1..], WalkFrom(g, part, height, roots[0], seen).1);
    }
  }

  /**
   * From an empty `seen`, the walk over the roots yields every root, every
   * value reachable from a root by child links, and each occurrence of a
   * value after all of its parents; it yields nothing outside the part
   * that holds the roots.
   */
  lemma YieldedValues(g: Graph, part: set<string>, height: map<string, nat>, roots: seq<string>)
    requires Ranked(g, part, height)
    requires forall x :: x in roots ==> x in part
    ensures var r := RootWalks(g, part, height, roots, []);
            && (forall x :: x in roots ==> x in r)
            && (forall path :: ChildPath(g, path) && |path| > 0 && path[0] in roots ==> path[|path| - 1] in r)
            && ParentsFirst(g, r)
            && (forall x :: x !in part ==> x !in r)
  {
    var r := RootWalks(g, part, height, roots, []);
    RootWalksKeep(g, part, height, roots, []);
    forall path | ChildPath(g, path) && |path| > 0 && path[0] in roots
      ensures path[|path| - 1] in r
    {
      ClosedHoldsPath(g, r, path);
    }
  }

  /** The graph of `add_dependency(r, s)`, `add_dependency(x, y)`, `add_dependency(y, x)`. */
  function CycleAside(r: string, s: string, x: string, y: string): Graph
  {
    AddEdge(AddEdge(AddEdge(Graph(map[], map[]), r, s), x, y), y, x)
  }

  /** The lists of `CycleAside`: `r` is the only value without parents. */
  lemma CycleAsideLists(r: string, s: string, x: string, y: string)
    requires r != s && r != x && r != y && s != x && s != y && x != y
    ensures var g := CycleAside(r, s, x, y);
            && r in g.parents && s in g.parents
            && Parents(g, r) == [] && Parents(g, s) == [r] && Parents(g, x) == [y] && Parents(g, y) == [x]
            && Children(g, r) == [s] && Children(g, s) == []
  {
    TwoEdgesLists(r, s, x, y);
    CycleEdgeLists(AddEdge(AddEdge(Graph(map[], map[]), r, s), x, y), r, s, x, y);
  }

  /** Adding `y`→`x` after `x`→`y` closes the cycle and leaves `r` and `s` alone. */
  lemma CycleEdgeLists(g: Graph, r: string, s: string, x: string, y: string)
    requires r != s && r != x && r != y && s != x && s != y && x != y
    requires r in g.parents && s in g.parents
    requires Parents(g, r) == [] && Parents(g, s) == [r] && Parents(g, x) == [] && Parents(g, y) == [x]
    requires Children(g, r) == [s] && Children(g, s) == [] && Children(g, y) == []
    ensures var h := AddEdge(g, y, x);
            && r in h.parents && s in h.parents
            && Parents(h, r) == [] && Parents(h, s) == [r] && Parents(h, x) == [y] && Parents(h, y) == [x]
            && Children(h, r) == [s] && Children(h, s) == []
  {
    AddEdgeParents(g, y, x);
    AddEdgeChildren(g, y, x);
  }

  /** The lists after `add_dependency(r, s)` and `add_dependency(x, y)`. */
  lemma TwoEdgesLists(r: string, s: string, x: string, y: string)
    requires r != s && r != x && r != y && s != x && s != y && x != y
    ensures var g := AddEdge(AddEdge(Graph(map[], map[]), r, s), x, y);
            && r in g.parents && s in g.parents
            && Parents(g, r) == [] && Parents(g, s) == [r] && Parents(g, x) == [] && Parents(g, y) == [x]
            && Children(g, r) == [s] && Children(g, s) == [] && Children(g, y) == []
  {
    var g0 := Graph(map[], map[]);
    AddEdgeParents(g0, r, s);
    AddEdgeChildren(g0, r, s);
    SecondEdgeLists(AddEdge(g0, r, s), r, s, x, y);
  }

  /** Adding `x`→`y` beside `r`→`s` leaves `r` and `s` alone. */
  lemma SecondEdgeLists(g: Graph, r: string, s: string, x: string, y: string)
    requires r != s && r != x && r != y && s != x && s != y && x != y
    requires r in g.parents && s in g.parents
    requires Parents(g, r) == [] && Parents(g, s) == [r] && Parents(g, x) == [] && Parents(g, y) == []
    requires Children(g, r) == [s] && Children(g, s) == [] && Children(g, y) == []
    ensures var h := AddEdge(g, x, y);
            && r in h.parents && s in h.parents
            && Parents(h, r) == [] && Parents(h, s) == [r] && Parents(h, x) == [] && Parents(h, y) == [x]
            && Children(h, r) == [s] && Children(h, s) == [] && Children(h, y) == []
  {
    AddEdgeParents(g, x, y);
    AddEdgeChildren(g, x, y);
  }

  /** What `add_dependency` as written does to the parent lists: only the child's changes, gaining the parent unless it has it. */
  lemma AddEdgeParents(g: Graph, parent: string, child: string)
    ensures Parents(AddEdge(g, parent, child), child) == Parents(g, child) + (if parent in Parents(g, child) then [] else [parent])
    ensures forall v :: v != child ==> Parents(AddEdge(g, parent, child), v) == Parents(g, v)
  {
  }

  /**
   * What `add_dependency` as written does to the child lists: only the
   * parent's changes, gaining the child unless the child lists ITSELF.
   */
  lemma AddEdgeChildren(g: Graph, parent: string, child: string)
    requires parent != child
    ensures Children(AddEdge(g, parent, child), parent) == Children(g, parent) + (if child in Children(g, child) then [] else [child])
    ensures forall v :: v != parent ==> Children(AddEdge(g, parent, child), v) == Children(g, v)
  {
  }

  /** On a graph where `r` is the only parent of `s` and `s` the only child of `r`, the walk from `r` yields `r`, `s`. */
  lemma PairWalk(g: Graph, r: string, s: string)
    requires r != s && r in g.parents && s in g.parents
    requires Parents(g, r) == [] && Parents(g, s) == [r] && Children(g, r) == [s] && Children(g, s) == []
    ensures Ranked(g, {r, s}, map[r := 0, s := 1])
    ensures RootWalks(g, {r, s}, map[r := 0, s := 1], [r], []) == [r, s]
  {
    var part, h := {r, s}, map[r := 0, s := 1];
    assert Ranked(g, part, h);
    assert ParentWalks(g, part, h, s, [r], 1, [r]) == ([], [r]);
    assert ParentWalks(g, part, h, s, [r], 0, [r]) == ([], [r]);
    assert [r] + [s] == [r, s] && [] + [s] + [] == [s] && [s] + [] == [s] && [] + [r] == [r];
    assert ChildWalks(g, part, h, s, [r], 0, [r, s]) == ([], [r, s]);
    assert WalkFrom(g, part, h, s, [r]) == ([s], [r, s]);
    assert ChildWalks(g, part, h, r, [], 1, [r, s]) == ([], [r, s]);
    assert ChildWalks(g, part, h, r, [], 0, [r]) == ([s], [r, s]);
    assert ParentWalks(g, part, h, r, [], 0, []) == ([], []);
    assert WalkFrom(g, part, h, r, []).1 == [r, s];
    assert [r][1..] == [];
  }

  /**
   * A cycle that no root reaches is never walked.  After `r`→`s`, `x`→`y`
   * and `y`→`x`, only `r` is a root; the part {r, s} is ranked, so the walk
   * ends, and it yields `r` and `s` alone.  No part that holds `x` is ranked.
   */
  lemma CycleAsideSkipped(r: string, s: string, x: string, y: string, part: set<string>, height: map<string, nat>)
    requires r != s && r != x && r != y && s != x && s != y && x != y
    ensures RootsIn(CycleAside(r, s, x, y), [r, s, x, y]) == [r]
    ensures Ranked(CycleAside(r, s, x, y), {r, s}, map[r := 0, s := 1])
    ensures RootWalks(CycleAside(r, s, x, y), {r, s}, map[r := 0, s := 1], [r], []) == [r, s]
    ensures x in part ==> !Ranked(CycleAside(r, s, x, y), part, height)
  {
    CycleAsideLists(r, s, x, y);
    CycleApartSkipped(CycleAside(r, s, x, y), r, s, x, y, part, height);
  }

  /** `CycleAsideSkipped` on any graph with those lists. */
  lemma CycleApartSkipped(g: Graph, r: string, s: string, x: string, y: string, part: set<string>, height: map<string, nat>)
    requires r != s && r in g.parents && s in g.parents
    requires Parents(g, r) == [] && Parents(g, s) == [r] && Parents(g, x) == [y] && Parents(g, y) == [x]
    requires Children(g, r) == [s] && Children(g, s) == []
    ensures RootsIn(g, [r, s, x, y]) == [r]
    ensures Ranked(g, {r, s}, map[r := 0, s := 1])
    ensures RootWalks(g, {r, s}, map[r := 0, s := 1], [r], []) == [r, s]
    ensures x in part ==> !Ranked(g, part, height)
  {
    CycleAsideRoots(g, r, s, x, y);
    PairWalk(g, r, s);
    if x in part {
      assert !RankedAt(g, part, height, x) || !RankedAt(g, part, height, y);
    }
  }

  /** Of `r`, `s`, `x`, `y`, only the one without parents is a root. */
  lemma CycleAsideRoots(g: Graph, r: string, s: string, x: string, y: string)
    requires Parents(g, r) == [] && Parents(g, s) == [r] && Parents(g, x) == [y] && Parents(g, y) == [x]
    ensures RootsIn(g, [r, s, x, y]) == [r]
  {
    var keys := [r, s, x, y];
    assert keys[..1] == [r] && keys[..2] == [r, s] && keys[..3] == [r, s, x] && keys[..4] == keys;
    assert RootsIn(g, keys[..0]) == [];
    RootsInStep(g, keys, 0);
    RootsInStep(g, keys, 1);
    RootsInStep(g, keys, 2);
    RootsInStep(g, keys, 3);
  }

  /* ---------------------------------------------------------------------- */
  /* The objects                                                              */
  /* ---------------------------------------------------------------------- */

  class DependencyNode {
    const value: string
    var children: seq<DependencyNode>
    var parents: seq<DependencyNode>

    /** `__init__`: a node with its value and no edges. */
    constructor(value: string)
      ensures this.value == value && children == [] && parents == []
    {
      this.value := value;
      children := [];
      parents := [];
    }

    /** `add_parent`. */
    method AddParent(parent: DependencyNode)
      modifies this
      ensures parents == old(parents) + [parent] && children == old(children)
    {
      parents := parents + [parent];
    }

    /** `add_child`. */
    method AddChild(child: DependencyNode)
      modifies this
      ensures children == old(children) + [child] && parents == old(parents)
    {
      children := children + [child];
    }
  }

  /** `__eq__`: nodes are equal when their values are. */
  predicate SameNode(a: DependencyNode, b: DependencyNode)
  {
    a.value == b.value
  }

  /** The values of a list of nodes: what `in` on that list compares. */
  function Values(ns: seq<DependencyNode>): (r: seq<string>)
    ensures |r| == |ns| && forall i :: 0 <= i < |ns| ==> r[i] == ns[i].value
  {
    seq(|ns|, i requires 0 <= i < |ns| => ns[i].value)
  }

  /** The values of a list with one more node. */
  lemma ValuesAppend(ns: seq<DependencyNode>, n: DependencyNode)
    ensures Values(ns + [n]) == Values(ns) + [n.value]
  {
  }

  /** `x in ns` for a node `x`, under `__eq__`, is membership of its value. */
  lemma InNodesIsInValues(x: DependencyNode, ns: seq<DependencyNode>)
    ensures (exists i :: 0 <= i < |ns| && SameNode(ns[i], x)) <==> x.value in Values(ns)
  {
    if x.value in Values(ns) {
      var i :| 0 <= i < |ns| && Values(ns)[i] == x.value;
      assert SameNode(ns[i], x);
    }
  }

  class DependencyTree {
    /** `node_dict`: the node of each value. */
    var nodeDict: map<string, DependencyNode>
    /** The keys of `node_dict` in insertion order, the order a loop over it visits. */
    var order: seq<string>
    /** The nodes the tree has made. */
    ghost var nodes: set<DependencyNode>

    /** The nodes a list links to are nodes of the tree. */
    ghost predicate Linked(ns: seq<DependencyNode>)
      reads this
    {
      forall i :: 0 <= i < |ns| ==> ns[i] in nodes
    }

    /** Each value's node carries that value, and `order` lists each value once. */
    ghost predicate Keyed()
      reads this, nodes
    {
      && (forall v :: v in nodeDict ==> nodeDict[v] in nodes && nodeDict[v].value == v)
      && NoDuplicates(order)
      && (forall v :: v in order <==> v in nodeDict)
    }

    /** One node per value, keyed by its value, linking only to the tree's nodes. */
    ghost predicate Valid()
      reads this, nodes
    {
      && Keyed()
      && (forall n :: n in nodes ==> n.value in nodeDict && nodeDict[n.value] == n)
      && (forall n :: n in nodes ==> Linked(n.parents) && Linked(n.children))
    }

    /** The value-level picture of the nodes. */
    ghost function View(): (g: Graph)
      reads this, nodeDict.Values
      ensures g.parents.Keys == nodeDict.Keys && g.children.Keys == nodeDict.Keys
    {
      Graph(map v | v in nodeDict :: Values(nodeDict[v].parents),
            map v | v in nodeDict :: Values(nodeDict[v].children))
    }

    /** `g` lists the values of the nodes' parents and children. */
    ghost predicate Mirrors(g: Graph)
      reads this, nodeDict.Values
    {
      && g.parents.Keys == nodeDict.Keys && g.children.Keys == nodeDict.Keys
      && forall x :: x in nodeDict ==>
           g.parents[x] == Values(nodeDict[x].parents) && g.children[x] == Values(nodeDict[x].children)
    }

    /** The view mirrors the nodes, and it is the only graph that does. */
    lemma MirrorsIsView(g: Graph)
      ensures Mirrors(View())
      ensures Mirrors(g) ==> g == View()
    {
      if Mirrors(g) {
        assert g.parents == View().parents;
        assert g.children == View().children;
      }
    }

    /** The lists of a valid tree only mention known values. */
    lemma ViewClosed()
      requires Valid()
      ensures Closed(View())
    {
      var g := View();
      forall v, p | v in g.parents && p in g.parents[v] ensures p in g.parents {
        var ns := nodeDict[v].parents;
        var i :| 0 <= i < |ns| && Values(ns)[i] == p;
        assert ns[i] in nodes;
      }
      forall v, c | v in g.children && c in g.children[v] ensures c in g.parents {
        var ns := nodeDict[v].children;
        var i :| 0 <= i < |ns| && Values(ns)[i] == c;
        assert ns[i] in nodes;
      }
    }

    /** `__init__`: no nodes. */
    constructor()
      ensures Valid() && nodeDict == map[] && order == []
    {
      nodeDict := map[];
      order := [];
      nodes := {};
    }

    /** `shake`: forget every node. */
    method Shake()
      modifies this
      ensures Valid() && nodeDict == map[] && order == []
    {
      nodeDict := map[];
      order := [];
      nodes := {};
    }

    /** `get_node`: the node of a known value, else a new node, recorded. */
    method GetNode(value: string) returns (n: DependencyNode)
      requires Valid()
      modifies this
      ensures Valid()
      ensures value in nodeDict && n == nodeDict[value] && n in nodes
      ensures nodes == old(nodes) + {n} && (n in old(nodes) || fresh(n))
      ensures forall v :: v in old(nodeDict) ==> v in nodeDict && nodeDict[v] == old(nodeDict[v])
      ensures order == old(order) + (if value in old(nodeDict) then [] else [value])
      ensures View() == Intern(old(View()), value)
    {
      if value in nodeDict {
        n := nodeDict[value];
        return;
      }
      n := new DependencyNode(value);
      nodeDict := nodeDict[value := n];
      order := order + [value];
      nodes := nodes + {n};
      NewNodeValid(n);
      NewNodeView(n);
    }

    /** Recording a new node without edges keeps the tree valid. */
    twostate lemma NewNodeValid(new n: DependencyNode)
      requires old(Valid()) && n !in old(nodes) && nodes == old(nodes) + {n}
      requires n.value !in old(nodeDict) && nodeDict == old(nodeDict)[n.value := n]
      requires order == old(order) + [n.value]
      requires n.parents == [] && n.children == []
      requires forall m :: m in old(nodes) ==> unchanged(m)
      ensures Valid()
    {
      AppendNew(old(order), n.value);
      forall m | m in nodes ensures Linked(m.parents) && Linked(m.children) {
        if m != n {
          assert old(Linked(m.parents)) && old(Linked(m.children));
        }
      }
    }

    /** Recording a new node without edges interns its value in the view. */
    twostate lemma NewNodeView(new n: DependencyNode)
      requires n.value !in old(nodeDict) && nodeDict == old(nodeDict)[n.value := n]
      requires n.parents == [] && n.children == []
      requires forall v :: v in old(nodeDict) ==> unchanged(old(nodeDict[v]))
      ensures View() == Intern(old(View()), n.value)
    {
      var g := Intern(old(View()), n.value);
      forall x | x in nodeDict
        ensures g.parents[x] == Values(nodeDict[x].parents) && g.children[x] == Values(nodeDict[x].children)
      {
      }
      assert Mirrors(g);
      MirrorsIsView(g);
    }

    /**
     * `add_dependency`: intern both values; give the child the parent
     * unless a node of the parent's value is already among its parents; give
     * the parent the child unless the child is among the CHILD's own
     * children.
     */
    method AddDependency(parent: string, child: string)
      requires Valid()
      modifies this, nodes
      ensures Valid()
      ensures forall v :: v in old(nodeDict) ==> v in nodeDict && nodeDict[v] == old(nodeDict[v])
      ensures order == old(order) + (if parent in old(nodeDict) then [] else [parent])
                                  + (if child in old(nodeDict) || child == parent then [] else [child])
      ensures View() == AddEdge(old(View()), parent, child)
    {
      var p := GetNode(parent);
      var c := GetNode(child);
      Link(p, c);
    }

    /** The body of `add_dependency` after both nodes are in the tree. */
    method Link(p: DependencyNode, c: DependencyNode)
      requires Valid() && c in nodes && p in nodes
      modifies p, c
      ensures Valid() && nodeDict == old(nodeDict) && order == old(order) && nodes == old(nodes)
      ensures View() == Connect(old(View()), p.value, c.value)
    {
      GiveParent(c, p);
      GiveChild(p, c);
    }

    /** `if p not in c.parents: c.add_parent(p)`. */
    method GiveParent(c: DependencyNode, p: DependencyNode)
      requires Valid() && c in nodes && p in nodes
      modifies c
      ensures Valid() && nodeDict == old(nodeDict) && order == old(order) && nodes == old(nodes)
      ensures View().children == old(View()).children
      ensures p.value in old(View()).parents[c.value] ==> View().parents == old(View()).parents
      ensures p.value !in old(View()).parents[c.value] ==>
        View().parents == old(View()).parents[c.value := old(View()).parents[c.value] + [p.value]]
    {
      assert View().parents[c.value] == Values(c.parents);
      if p.value !in Values(c.parents) {
        c.AddParent(p);
        ghost var h := old(View());
        ghost var g := Graph(h.parents[c.value := h.parents[c.value] + [p.value]], h.children);
        ValuesAppend(old(c.parents), p);
        assert c.value in h.parents;
        forall x | x in nodeDict
          ensures g.parents[x] == Values(nodeDict[x].parents) && g.children[x] == Values(nodeDict[x].children)
        {
          if x != c.value {
            assert nodeDict[x] != c;
          }
        }
        assert Mirrors(g);
        MirrorsIsView(g);
        forall m | m in nodes ensures Linked(m.parents) && Linked(m.children) {
          if m != c {
            assert old(Linked(m.parents)) && old(Linked(m.children));
          }
        }
      }
    }

    /** `if c not in c.children: p.add_child(c)`: the guard reads the child's own list. */
    method GiveChild(p: DependencyNode, c: DependencyNode)
      requires Valid() && c in nodes && p in nodes
      modifies p
      ensures Valid() && nodeDict == old(nodeDict) && order == old(order) && nodes == old(nodes)
      ensures View().parents == old(View()).parents
      ensures c.value in old(View()).children[c.value] ==> View().children == old(View()).children
      ensures c.value !in old(View()).children[c.value] ==>
        View().children == old(View()).children[p.value := old(View()).children[p.value] + [c.value]]
    {
      assert View().children[c.value] == Values(c.children);
      if c.value !in Values(c.children) {
        p.AddChild(c);
        ghost var h := old(View());
        ghost var g := Graph(h.parents, h.children[p.value := h.children[p.value] + [c.value]]);
        ValuesAppend(old(p.children), c);
        assert p.value in h.children;
        forall x | x in nodeDict
          ensures g.parents[x] == Values(nodeDict[x].parents) && g.children[x] == Values(nodeDict[x].children)
        {
          if x != p.value {
            assert nodeDict[x] != p;
          }
        }
        assert Mirrors(g);
        MirrorsIsView(g);
        forall m | m in nodes ensures Linked(m.parents) && Linked(m.children) {
          if m != p {
            assert old(Linked(m.parents)) && old(Linked(m.children));
          }
        }
      }
    }

    /** `get_roots`: the nodes with no parents, in `node_dict` order. */
    method GetRoots() returns (roots: seq<DependencyNode>)
      requires Keyed()
      ensures Values(roots) == RootsIn(View(), order)
    {
      ghost var g := View();
      MirrorsIsView(g);
      assert Mirrors(g);
      roots := [];
      for i := 0 to |order|
        invariant Values(roots) == RootsIn(g, order[..i])
      {
        var val := order[i];
        var node := nodeDict[val];
        RootsInStep(g, order, i);
        assert g.parents[val] == Values(node.parents);
        assert Parents(g, val) == Values(node.parents);
        if |node.parents| == 0 {
          ValuesAppend(roots, node);
          roots := roots + [node];
        } else {
          EmptyUnit(RootsIn(g, order[..i]));
        }
      }
      assert order[..|order|] == order;
    }

    /**
     * `DependencyNode.yield_values(seen)` on the node of `v`: walk each unseen
     * parent, yield `v` and append it to `seen`, then walk each unseen child.
     * A linked node is walked through its value, which names the same node
     * in a valid tree.  The yields and the final `seen` are those of the
     * walk on values.
     */
    method Walk(v: string, seen: seq<string>, ghost g: Graph, ghost part: set<string>, ghost height: map<string, nat>)
      returns (out: seq<string>, seenAfter: seq<string>)
      requires Mirrors(g) && Ranked(g, part, height) && v in part
      requires forall x :: x in seen ==> x in part
      ensures (out, seenAfter) == WalkFrom(g, part, height, v, seen)
      decreases |Pending(part, seen, v)|, Rank(height, v), 2, 0
    {
      assert RankedAt(g, part, height, v);
      var node := nodeDict[v];
      var before, s := WalkParents(v, node.parents, seen, g, part, height);
      var after, s2 := WalkChildren(v, node.children, seen, s + [v], g, part, height);
      out, seenAfter := before + [v] + after, s2;
    }

    /** The parent loop of `yield_values` on the node of `v`: walk each parent not yet seen. */
    method WalkParents(v: string, parents: seq<DependencyNode>, seen: seq<string>,
                       ghost g: Graph, ghost part: set<string>, ghost height: map<string, nat>)
      returns (out: seq<string>, seenAfter: seq<string>)
      requires Mirrors(g) && Ranked(g, part, height) && v in part && Values(parents) == Parents(g, v)
      requires forall x :: x in seen ==> x in part
      ensures (out, seenAfter) == ParentWalks(g, part, height, v, seen, 0, seen)
      decreases |Pending(part, seen, v)|, Rank(height, v), 1, |Parents(g, v)|
    {
      ghost var ps := Parents(g, v);
      var s := seen;
      out := [];
      EmptyUnit(ParentWalks(g, part, height, v, seen, 0, s).0);
      for i := 0 to |parents|
        invariant forall x :: x in seen ==> x in s
        invariant forall x :: x in s ==> x in part
        invariant var r := ParentWalks(g, part, height, v, seen, i, s);
                  ParentWalks(g, part, height, v, seen, 0, seen) == (out + r.0, r.1)
      {
        var parent := parents[i];
        assert parent.value == ps[i];
        out, s := ParentPass(v, parent.value, i, seen, s, out, g, part, height);
      }
      assert ParentWalks(g, part, height, v, seen, |ps|, s) == ([], s);
      EmptyUnit(out);
      seenAfter := s;
    }

    /** The child loop of `yield_values` on the node of `v`: walk each child not yet seen. */
    method WalkChildren(v: string, children: seq<DependencyNode>, ghost seen: seq<string>, start: seq<string>,
                        ghost g: Graph, ghost part: set<string>, ghost height: map<string, nat>)
      returns (out: seq<string>, seenAfter: seq<string>)
      requires Mirrors(g) && Ranked(g, part, height) && v in part && Values(children) == Children(g, v)
      requires forall x :: x in seen ==> x in start
      requires v in start && forall x :: x in start ==> x in part
      ensures (out, seenAfter) == ChildWalks(g, part, height, v, seen, 0, start)
      decreases |Pending(part, seen, v)|, Rank(height, v), 1, |Children(g, v)|
    {
      ghost var cs := Children(g, v);
      var s := start;
      out := [];
      EmptyUnit(ChildWalks(g, part, height, v, seen, 0, s).0);
      for i := 0 to |children|
        invariant forall x :: x in seen ==> x in s
        invariant v in s && forall x :: x in s ==> x in part
        invariant var r := ChildWalks(g, part, height, v, seen, i, s);
                  ChildWalks(g, part, height, v, seen, 0, start) == (out + r.0, r.1)
      {
        var child := children[i];
        assert child.value == cs[i];
        out, s := ChildPass(v, child.value, i, seen, s, out, g, part, height);
      }
      assert ChildWalks(g, part, height, v, seen, |cs|, s) == ([], s);
      EmptyUnit(out);
      seenAfter := s;
    }

    /** One pass of the parent loop: the `i`-th parent `p` of `v` is walked unless it was seen. */
    method ParentPass(v: string, p: string, ghost i: nat, ghost seen: seq<string>, s: seq<string>, out: seq<string>,
                      ghost g: Graph, ghost part: set<string>, ghost height: map<string, nat>)
      returns (out': seq<string>, s': seq<string>)
      requires Mirrors(g) && Ranked(g, part, height) && v in part
      requires i < |Parents(g, v)| && Parents(g, v)[i] == p
      requires forall x :: x in seen ==> x in s
      requires forall x :: x in s ==> x in part
      ensures forall x :: x in seen ==> x in s'
      ensures forall x :: x in s' ==> x in part
      ensures out' + ParentWalks(g, part, height, v, seen, i + 1, s').0 == out + ParentWalks(g, part, height, v, seen, i, s).0
      ensures ParentWalks(g, part, height, v, seen, i + 1, s').1 == ParentWalks(g, part, height, v, seen, i, s).1
      decreases |Pending(part, seen, v)|, Rank(height, v), 0, 0
    {
      if p !in s {
        ParentStep(g, part, height, v, p, seen, s);
        var o, s2 := Walk(p, s, g, part, height);
        Assoc(out, o, ParentWalks(g, part, height, v, seen, i + 1, s2).0);
        out', s' := out + o, s2;
      } else {
        out', s' := out, s;
      }
    }

    /** One pass of the child loop: the `i`-th child `c` of `v` is walked unless it was seen. */
    method ChildPass(v: string, c: string, ghost i: nat, ghost seen: seq<string>, s: seq<string>, out: seq<string>,
                     ghost g: Graph, ghost part: set<string>, ghost height: map<string, nat>)
      returns (out': seq<string>, s': seq<string>)
      requires Mirrors(g) && Ranked(g, part, height) && v in part
      requires i < |Children(g, v)| && Children(g, v)[i] == c
      requires forall x :: x in seen ==> x in s
      requires v in s && forall x :: x in s ==> x in part
      ensures forall x :: x in seen ==> x in s'
      ensures v in s' && forall x :: x in s' ==> x in part
      ensures out' + ChildWalks(g, part, height, v, seen, i + 1, s').0 == out + ChildWalks(g, part, height, v, seen, i, s).0
      ensures ChildWalks(g, part, height, v, seen, i + 1, s').1 == ChildWalks(g, part, height, v, seen, i, s).1
      decreases |Pending(part, seen, v)|, Rank(height, v), 0, 0
    {
      if c !in s {
        ChildStep(g, part, height, v, c, seen, s);
        var o, s2 := Walk(c, s, g, part, height);
        Assoc(out, o, ChildWalks(g, part, height, v, seen, i + 1, s2).0);
        out', s' := out + o, s2;
      } else {
        out', s' := out, s;
      }
    }

    /**
     * `DependencyTree.yield_values`: walk from each root in turn, sharing one
     * `seen` list.  When the roots lie in a part of the graph closed under
     * links and ranked by `height` (no parent cycle there; cycles elsewhere
     * are allowed) it ends, and it yields what the walk on values over
     * `RootsIn` yields: every root, every value reachable from a root by
     * child links, each occurrence of a value after all of its parents, and
     * nothing outside the part.
     */
    method YieldValues(ghost part: set<string>, ghost height: map<string, nat>) returns (out: seq<string>)
      requires Valid() && Ranked(View(), part, height)
      requires forall r :: r in RootsIn(View(), order) ==> r in part
      ensures Closed(View()) && out == RootWalks(View(), part, height, RootsIn(View(), order), [])
      ensures forall r :: r in RootsIn(View(), order) ==> r in out
      ensures forall path :: ChildPath(View(), path) && |path| > 0 && path[0] in RootsIn(View(), order) ==> path[|path| - 1] in out
      ensures ParentsFirst(View(), out)
      ensures forall x :: x !in part ==> x !in out
    {
      ghost var g := View();
      ViewClosed();
      var roots := GetRoots();
      assert Mirrors(g);
      MirrorsIsView(g);
      ghost var rs := Values(roots);
      assert rs == RootsIn(g, order);
      RootsInExactly(g, order);
      var seen: seq<string> := [];
      for i := 0 to |roots|
        invariant Mirrors(g) && forall x :: x in seen ==> x in part
        invariant RootWalks(g, part, height, rs, []) == RootWalks(g, part, height, rs[i..], seen)
      {
        assert rs[i..][0] == roots[i].value && rs[i..][1..] == rs[i + 1..];
        var o, s2 := Walk(roots[i].value, seen, g, part, height);
        seen := s2;
      }
      assert rs[|roots|..] == [];
      MirrorsIsView(g);
      out := seen;
      YieldedValues(g, part, height, rs);
      assert View() == g;
    }
  }
}
