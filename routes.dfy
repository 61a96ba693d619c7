/** The reasoning behind `findShortestPath`: tentative distances with an
    Infinity case, the successor-map graph, chains and routes through it, the
    relaxation of one node's children, and the invariant the search keeps. */
module Routes {
  import opened Types

  /** A tentative distance: a number, or Infinity (`1 / 0`). */
  datatype Dist = Fin(value: real) | Inf

  /** `a + w` on numbers, where Infinity absorbs a finite addend. */
  function Plus(a: Dist, w: real): (r: Dist)
    ensures r.Inf? <==> a.Inf?
    ensures r.Fin? ==> r.value == a.value + w
  {
    if a.Inf? then Inf else Fin(a.value + w)
  }

  /** `a < b` on numbers where either side may be Infinity. */
  predicate Below(a: Dist, b: Dist) {
    match (a, b)
    case (Fin(x), Fin(y)) => x < y
    case (Fin(_), Inf) => true
    case (Inf, _) => false
  }

  /** `a <= b`. */
  predicate AtMost(a: Dist, b: Dist) {
    !Below(b, a)
  }

  lemma AtMostTransitive(a: Dist, b: Dist, c: Dist)
    requires AtMost(a, b) && AtMost(b, c)
    ensures AtMost(a, c)
  {
  }

  /** The `paths` table: for each label, its successors and edge weights. */
  type Graph = map<Label, map<Label, real>>

  /** `paths[u]`, or no children when `u` has no entry (a `for...in` over
      `undefined` does nothing). */
  function Children(g: Graph, u: Label): (r: map<Label, real>)
    ensures forall c :: c in r <==> u in g && c in g[u]
  {
    if u in g then g[u] else map[]
  }

  predicate HasEdge(g: Graph, a: Label, b: Label) {
    a in g && b in g[a]
  }

  function Weight(g: Graph, a: Label, b: Label): real
    requires HasEdge(g, a, b)
  {
    g[a][b]
  }

  /** Every label that some edge leads to. */
  function Targets(g: Graph): (r: set<Label>)
    ensures forall a, b :: HasEdge(g, a, b) ==> b in r
  {
    set a, b | a in g && b in g[a] :: b
  }

  /** Edge weights are positive between distinct labels, and a self-loop
      weighs 0 (the distance from a point to itself). */
  ghost predicate PositiveWeights(g: Graph) {
    forall a, b :: HasEdge(g, a, b) ==> if a == b then Weight(g, a, b) == 0.0 else Weight(g, a, b) > 0.0
  }

  /** Each label of `p` is followed by one of its successors. */
  ghost predicate IsChain(g: Graph, p: seq<Label>) {
    forall i :: 0 <= i < |p| - 1 ==> HasEdge(g, p[i], p[i + 1])
  }

  /** The sum of the edge weights along a chain. */
  ghost function ChainWeight(g: Graph, p: seq<Label>): real
    requires IsChain(g, p)
  {
    if |p| < 2 then 0.0 else Weight(g, p[0], p[1]) + ChainWeight(g, p[1..])
  }

  /** A way from `start` to `end` along edges that leaves `start` and never
      comes back to it. */
  ghost predicate IsRoute(g: Graph, start: Label, end: Label, r: seq<Label>) {
    && |r| >= 2
    && r[0] == start
    && r[|r| - 1] == end
    && IsChain(g, r)
    && forall i :: 1 <= i < |r| ==> r[i] != start
  }

  /** Extending a chain by one edge at its end adds that edge's weight. */
  lemma {:induction false} ChainWeightSnoc(g: Graph, p: seq<Label>, c: Label)
    requires |p| >= 1 && IsChain(g, p) && HasEdge(g, p[|p| - 1], c)
    ensures IsChain(g, p + [c])
    ensures ChainWeight(g, p + [c]) == ChainWeight(g, p) + Weight(g, p[|p| - 1], c)
  {
    var q := p + [c];
    assert IsChain(g, q) by {
      forall i | 0 <= i < |q| - 1 ensures HasEdge(g, q[i], q[i + 1]) {
        if i < |p| - 1 {
          assert q[i] == p[i] && q[i + 1] == p[i + 1];
        }
      }
    }
    if |p| >= 2 {
      assert q[1..] == p[1..] + [c];
      assert IsChain(g, p[1..]) by {
        forall i | 0 <= i < |p[1..]| - 1 ensures HasEdge(g, p[1..][i], p[1..][i + 1]) {
          assert p[1..][i] == p[i + 1] && p[1..][i + 1] == p[i + 2];
        }
      }
      ChainWeightSnoc(g, p[1..], c);
    }
  }

  /** Putting one edge in front of a chain adds that edge's weight. */
  lemma ChainWeightCons(g: Graph, a: Label, p: seq<Label>)
    requires |p| >= 1 && IsChain(g, p) && HasEdge(g, a, p[0])
    ensures IsChain(g, [a] + p)
    ensures ChainWeight(g, [a] + p) == Weight(g, a, p[0]) + ChainWeight(g, p)
  {
    var q := [a] + p;
    assert q[1..] == p;
    assert IsChain(g, q) by {
      forall i | 0 <= i < |q| - 1 ensures HasEdge(g, q[i], q[i + 1]) {
        if i > 0 {
          assert q[i] == p[i - 1] && q[i + 1] == p[i];
        }
      }
    }
  }

  // ---------------------------------------------------------------------
  // Relaxing the children of one node (the inner loop of the search)
  // ---------------------------------------------------------------------

  /** `!distances[child]`: no entry yet, or an entry of 0, which is falsy. */
  predicate Falsy(d: map<Label, Dist>, c: Label) {
    c !in d || d[c] == Fin(0.0)
  }

  /** The update test: `!distances[child] || distances[child] > newdistance`. */
  predicate Improves(d: map<Label, Dist>, c: Label, nd: Dist) {
    Falsy(d, c) || Below(nd, d[c])
  }

  /** Whether the child `c` of a node at distance `du` gets a new distance;
      the start label is never relaxed into. */
  predicate Relaxes(children: map<Label, real>, start: Label, d: map<Label, Dist>, du: Dist, c: Label) {
    c in children && c != start && Improves(d, c, Plus(du, children[c]))
  }

  /** The distances after relaxing the children in `done`. */
  function RelaxD(children: map<Label, real>, start: Label, d: map<Label, Dist>, du: Dist, done: set<Label>): (r: map<Label, Dist>)
    ensures forall c :: c in r <==> c in d || (c in done && Relaxes(children, start, d, du, c))
  {
    map c | c in d.Keys + done && (c in d || Relaxes(children, start, d, du, c)) ::
      if c in done && Relaxes(children, start, d, du, c) then Plus(du, children[c]) else d[c]
  }

  /** The parents after relaxing the children in `done` of `u`. */
  function RelaxP(children: map<Label, real>, start: Label, d: map<Label, Dist>, du: Dist, done: set<Label>,
                  par: map<Label, Label>, u: Label): (r: map<Label, Label>)
    ensures forall c :: c in r <==> c in par || (c in done && Relaxes(children, start, d, du, c))
  {
    map c | c in par.Keys + done && (c in par || Relaxes(children, start, d, du, c)) ::
      if c in done && Relaxes(children, start, d, du, c) then u else par[c]
  }

  /** `d'` and `p'` are the distances and parents after relaxing, from a
      node `u` at distance `du`, exactly the children in `done`. */
  ghost predicate RelaxedUpTo(children: map<Label, real>, start: Label, d: map<Label, Dist>, du: Dist,
                              par: map<Label, Label>, u: Label, done: set<Label>,
                              d': map<Label, Dist>, p': map<Label, Label>) {
    && (forall c :: c in d' <==> c in d || (c in done && Relaxes(children, start, d, du, c)))
    && (forall c :: c in d' ==>
          d'[c] == if c in done && Relaxes(children, start, d, du, c) then Plus(du, children[c]) else d[c])
    && (forall c :: c in p' <==> c in par || (c in done && Relaxes(children, start, d, du, c)))
    && (forall c :: c in p' ==>
          p'[c] == if c in done && Relaxes(children, start, d, du, c) then u else par[c])
  }

  lemma RelaxedUpToNone(children: map<Label, real>, start: Label, d: map<Label, Dist>, du: Dist,
                        par: map<Label, Label>, u: Label)
    ensures RelaxedUpTo(children, start, d, du, par, u, {}, d, par)
  {
  }

  /** One more child, updated when `!distances[child] || distances[child] >
      newdistance` holds of the current distances. */
  lemma RelaxedUpToNext(children: map<Label, real>, start: Label, d: map<Label, Dist>, du: Dist,
                        par: map<Label, Label>, u: Label, done: set<Label>,
                        d': map<Label, Dist>, p': map<Label, Label>, c: Label)
    requires RelaxedUpTo(children, start, d, du, par, u, done, d', p')
    requires c in children && c !in done
    ensures var nd := Plus(du, children[c]);
      var update := c != start && (Falsy(d', c) || Below(nd, d'[c]));
      RelaxedUpTo(children, start, d, du, par, u, done + {c},
                  if update then d'[c := nd] else d', if update then p'[c := u] else p')
  {
  }

  /** Having relaxed every child gives `RelaxD` and `RelaxP`. */
  lemma RelaxedUpToAll(children: map<Label, real>, start: Label, d: map<Label, Dist>, du: Dist,
                       par: map<Label, Label>, u: Label, d': map<Label, Dist>, p': map<Label, Label>)
    requires RelaxedUpTo(children, start, d, du, par, u, children.Keys, d', p')
    ensures d' == RelaxD(children, start, d, du, children.Keys)
    ensures p' == RelaxP(children, start, d, du, children.Keys, par, u)
  {
  }

  // ---------------------------------------------------------------------
  // The search invariant
  // ---------------------------------------------------------------------

  /** `parents[start]` stands for the distance 0 of the start itself. */
  function Base(d: map<Label, Dist>, start: Label, p: Label): Dist
    requires p != start ==> p in d
  {
    if p == start then Fin(0.0) else d[p]
  }

  /** Which labels have entries: the end always, the start with 0 when it
      has a self-loop and Infinity otherwise, visited labels always, and
      otherwise only edge targets; a finite label other than the start is
      positive and has a parent. */
  ghost predicate InvKeys(g: Graph, start: Label, end: Label, d: map<Label, Dist>, par: map<Label, Label>,
                          rank: map<Label, nat>, n: nat) {
    && end in d
    && (start in d ==> d[start] == if HasEdge(g, start, start) then Fin(0.0) else Inf)
    && start !in par
    && (forall c :: c in rank ==> c in d && rank[c] < n && c != "")
    && (forall c :: c in d ==> c == end || c in Targets(g))
    && (forall c :: c in d && d[c].Fin? && c != start ==> d[c].value > 0.0 && c in par)
  }

  /** Each parent link is an edge into a labelled node, from the start or from
      a visited node ranked before the child, and the child's distance is the
      parent's plus the edge weight. */
  ghost predicate InvParents(g: Graph, start: Label, d: map<Label, Dist>, par: map<Label, Label>, rank: map<Label, nat>) {
    forall c :: c in par ==> ParentLink(g, start, d, par, rank, c)
  }

  /** The parent link of one child `c` in `par`. */
  ghost predicate ParentLink(g: Graph, start: Label, d: map<Label, Dist>, par: map<Label, Label>,
                             rank: map<Label, nat>, c: Label)
    requires c in par
  {
    && c in d
    && HasEdge(g, par[c], c)
    && par[c] != c
    && (par[c] == start || (par[c] in rank && (c in rank ==> rank[par[c]] < rank[c])))
    && (par[c] != start ==> par[c] in d)
    && d[c] == Plus(Base(d, start, par[c]), Weight(g, par[c], c))
  }

  /** Visited labels are no farther than unvisited ones. */
  ghost predicate InvOrder(d: map<Label, Dist>, rank: map<Label, nat>) {
    forall a, b :: a in rank && a in d && b in d && b !in rank ==> AtMost(d[a], d[b])
  }

  /** Every edge out of the start or out of a visited node has been relaxed. */
  ghost predicate InvRelaxed(g: Graph, start: Label, d: map<Label, Dist>, rank: map<Label, nat>) {
    && (forall c :: HasEdge(g, start, c) && c != start ==> c in d && AtMost(d[c], Fin(Weight(g, start, c))))
    && (forall u, c :: u in rank && u in d && HasEdge(g, u, c) && c != start ==>
          c in d && AtMost(d[c], Plus(d[u], Weight(g, u, c))))
  }

  ghost predicate Inv(g: Graph, start: Label, end: Label, d: map<Label, Dist>, par: map<Label, Label>,
                      rank: map<Label, nat>, n: nat) {
    && InvKeys(g, start, end, d, par, rank, n)
    && InvParents(g, start, d, par, rank)
    && InvOrder(d, rank)
    && InvRelaxed(g, start, d, rank)
  }

  /** `u` is an unvisited label at least as close as every other one. */
  ghost predicate MinUnvisited(d: map<Label, Dist>, rank: map<Label, nat>, u: Label) {
    && u in d && u !in rank
    && forall k :: k in d && k !in rank ==> AtMost(d[u], d[k])
  }

  /** The seeding: the end at Infinity, overwritten by the start's own
      children (the start itself among them when it has a self-loop) at
      their edge weights. */
  function InitialDistances(g: Graph, start: Label, end: Label): (r: map<Label, Dist>)
    ensures end in r
    ensures forall c :: HasEdge(g, start, c) ==> c in r && r[c] == Fin(Weight(g, start, c))
  {
    map[end := Inf] + map c | c in Children(g, start) :: Fin(Children(g, start)[c])
  }

  /** Each child of the start other than the start itself has the start as
      parent. */
  function InitialParents(g: Graph, start: Label): (r: map<Label, Label>)
    ensures forall c :: c in r <==> HasEdge(g, start, c) && c != start
    ensures forall c :: c in r ==> r[c] == start
  {
    map c | c in Children(g, start) && c != start :: start
  }

  lemma InitialInv(g: Graph, start: Label, end: Label)
    requires PositiveWeights(g)
    ensures Inv(g, start, end, InitialDistances(g, start, end), InitialParents(g, start), map[], 0)
  {
    var d, par := InitialDistances(g, start, end), InitialParents(g, start);
    assert forall c :: c in d && c != end ==> HasEdge(g, start, c);
    assert forall c :: c in d && d[c].Fin? ==> HasEdge(g, start, c);
    assert start in d ==> d[start] == if HasEdge(g, start, start) then Fin(0.0) else Inf;
  }

  /** Locations "" at (0,0), C at (5,0) and D at (10,0), the edges "" -> "",
      "" -> C and C -> D, and a search from "" to D: the seeding gives "" the
      distance 0, so "" is the only nearest unvisited label and `while (node)`
      stops before any round; D keeps Infinity and has no parent. */
  lemma EmptyStartSelfLoopExample()
    ensures var g: Graph := map["" := map["" := 0.0, "C" := 5.0], "C" := map["D" := 5.0], "D" := map[]];
      var d := InitialDistances(g, "", "D");
      && d == map["D" := Inf, "" := Fin(0.0), "C" := Fin(5.0)]
      && "D" !in InitialParents(g, "")
      && forall u :: MinUnvisited(d, map[], u) ==> u == ""
  {
    var g: Graph := map["" := map["" := 0.0, "C" := 5.0], "C" := map["D" := 5.0], "D" := map[]];
    var d := InitialDistances(g, "", "D");
    assert Children(g, "") == map["" := 0.0, "C" := 5.0];
    assert d == map["D" := Inf, "" := Fin(0.0), "C" := Fin(5.0)];
    forall u | MinUnvisited(d, map[], u)
      ensures u == ""
    {
      assert AtMost(d[u], d[""]);
    }
  }

  /** One round of the search keeps the invariant: `u` is visited with rank
      `n` and its children are relaxed. */
  lemma StepInv(g: Graph, start: Label, end: Label, d: map<Label, Dist>, par: map<Label, Label>,
                rank: map<Label, nat>, n: nat, u: Label)
    requires PositiveWeights(g)
    requires Inv(g, start, end, d, par, rank, n)
    requires MinUnvisited(d, rank, u) && u != ""
    ensures var ch := Children(g, u);
      Inv(g, start, end, RelaxD(ch, start, d, d[u], ch.Keys), RelaxP(ch, start, d, d[u], ch.Keys, par, u), rank[u := n], n + 1)
  {
    var ch := Children(g, u);
    var d', par', rank' := RelaxD(ch, start, d, d[u], ch.Keys), RelaxP(ch, start, d, d[u], ch.Keys, par, u), rank[u := n];
    StepUntouched(g, start, end, d, par, rank, n, u);
    StepKeys(g, start, end, d, par, rank, n, u);
    StepParents(g, start, end, d, par, rank, n, u);
    StepOrder(g, start, end, d, par, rank, n, u);
    StepRelaxed(g, start, end, d, par, rank, n, u);
  }

  /** Visiting one more label of a finite universe leaves fewer to visit. */
  lemma FewerUnvisited(universe: set<Label>, visited: set<Label>, u: Label)
    requires u in universe && u !in visited
    ensures |universe - (visited + {u})| < |universe - visited|
  {
    assert universe - (visited + {u}) == (universe - visited) - {u};
  }

  /** `StepInv`, stated for the maps the relaxation loop returned. */
  lemma StepInvAfter(g: Graph, start: Label, end: Label, d: map<Label, Dist>, par: map<Label, Label>,
                     rank: map<Label, nat>, n: nat, u: Label, d': map<Label, Dist>, par': map<Label, Label>)
    requires PositiveWeights(g)
    requires Inv(g, start, end, d, par, rank, n)
    requires MinUnvisited(d, rank, u) && u != ""
    requires d' == RelaxD(Children(g, u), start, d, d[u], Children(g, u).Keys)
    requires par' == RelaxP(Children(g, u), start, d, d[u], Children(g, u).Keys, par, u)
    ensures Inv(g, start, end, d', par', rank[u := n], n + 1)
    ensures u in d' && rank[u := n].Keys == rank.Keys + {u}
  {
    StepInv(g, start, end, d, par, rank, n, u);
  }

  /** What one round changes: only unvisited children of `u` get a new
      distance, never a larger one, and `u` itself keeps its own. */
  lemma StepUntouched(g: Graph, start: Label, end: Label, d: map<Label, Dist>, par: map<Label, Label>,
                      rank: map<Label, nat>, n: nat, u: Label)
    requires PositiveWeights(g)
    requires InvKeys(g, start, end, d, par, rank, n) && InvOrder(d, rank)
    requires MinUnvisited(d, rank, u)
    ensures var ch := Children(g, u);
      && (forall c :: c in d ==> Relaxes(ch, start, d, d[u], c) ==> AtMost(Plus(d[u], ch[c]), d[c]))
      && (forall c :: c in rank ==> !Relaxes(ch, start, d, d[u], c))
      && !Relaxes(ch, start, d, d[u], u)
      && (forall c :: Relaxes(ch, start, d, d[u], c) ==> c != start && c != u && HasEdge(g, u, c) && ch[c] == Weight(g, u, c))
  {
    var ch := Children(g, u);
    forall c | c in d && Relaxes(ch, start, d, d[u], c)
      ensures AtMost(Plus(d[u], ch[c]), d[c])
    {
      assert d[c] != Fin(0.0);
    }
    forall c | c in rank
      ensures !Relaxes(ch, start, d, d[u], c)
    {
      if c in ch && c != start {
        assert HasEdge(g, u, c) && ch[c] == Weight(g, u, c);
        assert AtMost(d[c], d[u]);
        assert AtMost(d[u], Plus(d[u], ch[c]));
        AtMostTransitive(d[c], d[u], Plus(d[u], ch[c]));
        assert d[c] != Fin(0.0);
      }
    }
    if u in ch && u != start {
      assert HasEdge(g, u, u) && ch[u] == Weight(g, u, u);
      assert AtMost(d[u], Plus(d[u], ch[u]));
      assert d[u] != Fin(0.0);
    }
    forall c | Relaxes(ch, start, d, d[u], c)
      ensures c != start && c != u && HasEdge(g, u, c) && ch[c] == Weight(g, u, c)
    {
    }
  }

  lemma StepKeys(g: Graph, start: Label, end: Label, d: map<Label, Dist>, par: map<Label, Label>,
                 rank: map<Label, nat>, n: nat, u: Label)
    requires PositiveWeights(g)
    requires InvKeys(g, start, end, d, par, rank, n) && InvOrder(d, rank)
    requires MinUnvisited(d, rank, u) && u != ""
    ensures var ch := Children(g, u);
      InvKeys(g, start, end, RelaxD(ch, start, d, d[u], ch.Keys), RelaxP(ch, start, d, d[u], ch.Keys, par, u), rank[u := n], n + 1)
  {
    var ch := Children(g, u);
    var d', par' := RelaxD(ch, start, d, d[u], ch.Keys), RelaxP(ch, start, d, d[u], ch.Keys, par, u);
    StepUntouched(g, start, end, d, par, rank, n, u);
    if start in d' {
      assert !Relaxes(ch, start, d, d[u], start) && d'[start] == d[start];
    }
    forall c | c in d'
      ensures c == end || c in Targets(g)
      ensures d'[c].Fin? && c != start ==> d'[c].value > 0.0 && c in par'
    {
      if Relaxes(ch, start, d, d[u], c) {
        assert HasEdge(g, u, c) && ch[c] > 0.0;
        assert d'[c] == Plus(d[u], ch[c]);
      } else {
        assert d'[c] == d[c];
      }
    }
  }

  lemma StepParents(g: Graph, start: Label, end: Label, d: map<Label, Dist>, par: map<Label, Label>,
                    rank: map<Label, nat>, n: nat, u: Label)
    requires PositiveWeights(g)
    requires Inv(g, start, end, d, par, rank, n)
    requires MinUnvisited(d, rank, u) && u != ""
    ensures var ch := Children(g, u);
      InvParents(g, start, RelaxD(ch, start, d, d[u], ch.Keys), RelaxP(ch, start, d, d[u], ch.Keys, par, u), rank[u := n])
  {
    var ch := Children(g, u);
    var d', par' := RelaxD(ch, start, d, d[u], ch.Keys), RelaxP(ch, start, d, d[u], ch.Keys, par, u);
    StepUntouched(g, start, end, d, par, rank, n, u);
    forall c | c in par'
      ensures ParentLink(g, start, d', par', rank[u := n], c)
    {
      StepParentLink(g, start, end, d, par, rank, n, u, c);
    }
  }

  /** `StepParents` for one child: a relaxed child now hangs off `u`, any other
      keeps its parent, whose distance has not changed. */
  lemma StepParentLink(g: Graph, start: Label, end: Label, d: map<Label, Dist>, par: map<Label, Label>,
                       rank: map<Label, nat>, n: nat, u: Label, c: Label)
    requires InvKeys(g, start, end, d, par, rank, n) && InvParents(g, start, d, par, rank)
    requires u in d && u != "" && u !in rank
    requires var ch := Children(g, u);
      && !Relaxes(ch, start, d, d[u], u)
      && (forall x :: HasEdge(g, start, x) && x != start ==> x in d && AtMost(d[x], Fin(Weight(g, start, x))))
      && (forall x :: x in rank ==> !Relaxes(ch, start, d, d[u], x))
      && (forall x :: Relaxes(ch, start, d, d[u], x) ==> x != start && x != u && HasEdge(g, u, x) && ch[x] == Weight(g, u, x))
    requires c in RelaxP(Children(g, u), start, d, d[u], Children(g, u).Keys, par, u)
    ensures var ch := Children(g, u);
      ParentLink(g, start, RelaxD(ch, start, d, d[u], ch.Keys), RelaxP(ch, start, d, d[u], ch.Keys, par, u), rank[u := n], c)
  {
    var ch := Children(g, u);
    var d', par', rank' := RelaxD(ch, start, d, d[u], ch.Keys), RelaxP(ch, start, d, d[u], ch.Keys, par, u), rank[u := n];
    if Relaxes(ch, start, d, d[u], c) {
      assert par'[c] == u && d'[c] == Plus(d[u], ch[c]);
      assert c !in rank' by { assert c !in rank && c != u; }
      assert HasEdge(g, u, c) && u != c;
      if u == start {
        // the seeding gave `c` the edge weight, which the start's own 0 or
        // Infinity plus that weight cannot beat
        assert false;
      } else {
        assert u in rank';
        assert u in d' && d'[u] == d[u];
        assert d'[c] == Plus(Base(d', start, u), Weight(g, u, c));
      }
    } else {
      var p := par[c];
      assert ParentLink(g, start, d, par, rank, c);
      assert par'[c] == p && c in d' && d'[c] == d[c];
      if p != start {
        assert p in rank && p != u;
        assert !Relaxes(ch, start, d, d[u], p);
        assert p in d' && d'[p] == d[p];
        assert p in rank' && rank'[p] == rank[p];
        assert c in rank' ==> rank'[p] < rank'[c];
      }
      assert d'[c] == Plus(Base(d', start, p), Weight(g, p, c));
    }
  }

  lemma StepOrder(g: Graph, start: Label, end: Label, d: map<Label, Dist>, par: map<Label, Label>,
                  rank: map<Label, nat>, n: nat, u: Label)
    requires PositiveWeights(g)
    requires Inv(g, start, end, d, par, rank, n)
    requires MinUnvisited(d, rank, u)
    ensures var ch := Children(g, u);
      InvOrder(RelaxD(ch, start, d, d[u], ch.Keys), rank[u := n])
  {
    var ch := Children(g, u);
    var d', rank' := RelaxD(ch, start, d, d[u], ch.Keys), rank[u := n];
    StepUntouched(g, start, end, d, par, rank, n, u);
    forall a, b | a in rank' && b in d' && b !in rank'
      ensures AtMost(d'[a], d'[b])
    {
      assert d'[a] == d[a];
      assert AtMost(d[a], d[u]);
      if Relaxes(ch, start, d, d[u], b) {
        assert AtMost(d[u], Plus(d[u], ch[b]));
        AtMostTransitive(d[a], d[u], d'[b]);
      } else {
        AtMostTransitive(d[a], d[u], d[b]);
      }
    }
  }

  lemma StepRelaxed(g: Graph, start: Label, end: Label, d: map<Label, Dist>, par: map<Label, Label>,
                    rank: map<Label, nat>, n: nat, u: Label)
    requires PositiveWeights(g)
    requires Inv(g, start, end, d, par, rank, n)
    requires MinUnvisited(d, rank, u)
    ensures var ch := Children(g, u);
      InvRelaxed(g, start, RelaxD(ch, start, d, d[u], ch.Keys), rank[u := n])
  {
    var ch := Children(g, u);
    var d', rank' := RelaxD(ch, start, d, d[u], ch.Keys), rank[u := n];
    StepUntouched(g, start, end, d, par, rank, n, u);
    forall c | HasEdge(g, start, c) && c != start
      ensures c in d' && AtMost(d'[c], Fin(Weight(g, start, c)))
    {
      if Relaxes(ch, start, d, d[u], c) {
        AtMostTransitive(d'[c], d[c], Fin(Weight(g, start, c)));
      }
    }
    forall v, c | v in rank' && HasEdge(g, v, c) && c != start
      ensures c in d' && AtMost(d'[c], Plus(d'[v], Weight(g, v, c)))
    {
      assert d'[v] == d[v];
      if v == u {
        assert c in ch;
      } else if Relaxes(ch, start, d, d[u], c) {
        AtMostTransitive(d'[c], d[c], Plus(d[v], Weight(g, v, c)));
      }
    }
  }

  // ---------------------------------------------------------------------
  // What the invariant gives once every label with an entry is visited
  // ---------------------------------------------------------------------

  /** Along a route, each label's distance is at most the weight of the route
      up to it. */
  lemma {:induction false} PrefixBound(g: Graph, start: Label, end: Label, d: map<Label, Dist>,
                                       rank: map<Label, nat>, r: seq<Label>, i: nat)
    requires PositiveWeights(g)
    requires InvRelaxed(g, start, d, rank)
    requires forall c :: c in d ==> c in rank
    requires IsRoute(g, start, end, r) && 1 <= i < |r|
    ensures IsChain(g, r[..i + 1])
    ensures r[i] in d && AtMost(d[r[i]], Fin(ChainWeight(g, r[..i + 1])))
  {
    var q := r[..i + 1];
    assert IsChain(g, q) by {
      forall j | 0 <= j < |q| - 1 ensures HasEdge(g, q[j], q[j + 1]) {
        assert q[j] == r[j] && q[j + 1] == r[j + 1];
      }
    }
    if i == 1 {
      assert HasEdge(g, r[0], r[1]);
      assert r[..2] == [r[0], r[1]];
      assert r[..2][1..] == [r[1]];
    } else {
      PrefixBound(g, start, end, d, rank, r, i - 1);
      var p := r[..i];
      assert r[..i + 1] == p + [r[i]];
      assert p[|p| - 1] == r[i - 1];
      assert HasEdge(g, r[i - 1], r[i]);
      ChainWeightSnoc(g, p, r[i]);
      assert r[i - 1] in rank;
      assert r[i] != start;
      AtMostTransitive(d[r[i]], Plus(d[r[i - 1]], Weight(g, r[i - 1], r[i])), Fin(ChainWeight(g, r[..i + 1])));
    }
  }

  /** Once every label with an entry is visited, the end's distance is finite
      and no larger than the weight of any route to it. */
  lemma Optimal(g: Graph, start: Label, end: Label, d: map<Label, Dist>, par: map<Label, Label>,
                rank: map<Label, nat>, n: nat)
    requires PositiveWeights(g)
    requires Inv(g, start, end, d, par, rank, n)
    requires forall c :: c in d ==> c in rank
    ensures forall r :: IsRoute(g, start, end, r) ==> d[end].Fin? && d[end].value <= ChainWeight(g, r)
  {
    forall r | IsRoute(g, start, end, r)
      ensures d[end].Fin? && d[end].value <= ChainWeight(g, r)
    {
      PrefixBound(g, start, end, d, rank, r, |r| - 1);
      assert r[..|r|] == r;
    }
  }

  /** No label that can get a distance is the empty string, which would end
      the search loop early (the loop runs while the node is truthy). */
  predicate NoEmptyLabels(g: Graph, end: Label) {
    end != "" && "" !in Targets(g)
  }

  /** What the path reconstruction keeps: a chain whose weight, added to the
      distance of its first label (0 for the start), is the end's distance. */
  ghost predicate TraceWeight(g: Graph, start: Label, end: Label, d: map<Label, Dist>, path: seq<Label>) {
    && |path| >= 1 && IsChain(g, path) && end in d
    && (d[end].Fin? ==>
          if path[0] == start then d[end].value == ChainWeight(g, path)
          else path[0] in d && d[path[0]].Fin? && d[end].value == d[path[0]].value + ChainWeight(g, path))
  }

  /** Decreases along the parent links that the path reconstruction follows. */
  ghost function TraceMeasure(start: Label, par: map<Label, Label>, rank: map<Label, nat>, p: Label): nat
  {
    if p !in par then 1
    else if par[p] == start then 2
    else if par[p] in rank then rank[par[p]] + 3
    else 0
  }

  /** What the path reconstruction keeps of the labels gathered so far: a
      chain ending at `end`, with the start only in front, no label twice in
      a row, and the weight `TraceWeight` states. */
  ghost predicate TraceInv(g: Graph, start: Label, end: Label, d: map<Label, Dist>, path: seq<Label>) {
    && |path| >= 1 && path[|path| - 1] == end
    && IsChain(g, path)
    && (forall i :: 1 <= i < |path| ==> path[i] != start)
    && (forall i :: 0 <= i < |path| - 1 ==> path[i] != path[i + 1])
    && TraceWeight(g, start, end, d, path)
  }

  /** Putting the parent of the first label in front keeps `TraceInv`, and the
      parent's own parent is lower in `TraceMeasure`. */
  lemma TraceExtend(g: Graph, start: Label, end: Label, d: map<Label, Dist>, par: map<Label, Label>,
                    rank: map<Label, nat>, n: nat, path: seq<Label>)
    requires InvKeys(g, start, end, d, par, rank, n) && InvParents(g, start, d, par, rank)
    requires TraceInv(g, start, end, d, path) && path[0] in par && par[path[0]] != ""
    ensures TraceInv(g, start, end, d, [par[path[0]]] + path)
    ensures par[path[0]] in par ==>
      TraceMeasure(start, par, rank, par[par[path[0]]]) < TraceMeasure(start, par, rank, par[path[0]])
  {
    var p := par[path[0]];
    ChainWeightCons(g, p, path);
    var q := [p] + path;
    forall i | 1 <= i < |q|
      ensures q[i] != start
    {
      assert q[i] == path[i - 1];
    }
    forall i | 0 <= i < |q| - 1
      ensures q[i] != q[i + 1]
    {
      if i > 0 {
        assert q[i] == path[i - 1] && q[i + 1] == path[i];
      }
    }
  }
}
