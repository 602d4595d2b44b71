/**
 The work list that walks an include graph.

 It has no visited set: a file is queued once for every include that mentions it.  The lemmas say
 what the walk collects, how many turns it takes, and exactly when it ends.
 */
module HcsWalk {

  type FilePath = string

  datatype RawGraph = RawGraph(files: set<FilePath>, includes: FilePath -> seq<FilePath>)

  predicate Closed(g: RawGraph) {
    forall f, c | f in g.files && c in g.includes(f) :: c in g.files
  }

  /** A finite set of files whose includes stay inside the set. */
  type Graph = g: RawGraph | Closed(g)
    witness RawGraph({}, f => [])

  // ---- Reachability ----

  ghost predicate IsRoute(g: Graph, p: seq<FilePath>) {
    0 < |p| && forall i | 0 <= i < |p| - 1 :: p[i + 1] in g.includes(p[i])
  }

  ghost predicate Joins(g: Graph, p: seq<FilePath>, a: FilePath, b: FilePath) {
    IsRoute(g, p) && p[0] == a && p[|p| - 1] == b
  }

  ghost predicate Reachable(g: Graph, a: FilePath, b: FilePath) {
    exists p :: Joins(g, p, a, b)
  }

  /** A route from `a` that comes back to a file it has already passed. */
  ghost predicate Loops(g: Graph, a: FilePath, p: seq<FilePath>) {
    IsRoute(g, p) && p[0] == a && p[|p| - 1] in p[..|p| - 1]
  }

  ghost predicate CycleFree(g: Graph, a: FilePath) {
    forall p :: !Loops(g, a, p)
  }

  lemma ReachableSelf(g: Graph, a: FilePath)
    ensures Reachable(g, a, a)
  {
    assert Joins(g, [a], a, a);
  }

  lemma ReachableStep(g: Graph, a: FilePath, b: FilePath, c: FilePath)
    requires Reachable(g, a, b) && c in g.includes(b)
    ensures Reachable(g, a, c)
  {
    var p :| Joins(g, p, a, b);
    assert Joins(g, p + [c], a, c);
  }

  // ---- The work list ----

  datatype Worklist = Worklist(queue: seq<FilePath>, files: set<FilePath>)

  /** One turn of the walk: take the oldest entry, record it, queue its includes. */
  ghost function Step(g: Graph, w: Worklist): Worklist {
    if w.queue == [] then w
    else Worklist(w.queue[1..] + g.includes(w.queue[0]), w.files + {w.queue[0]})
  }

  ghost function Run(g: Graph, w: Worklist, n: nat): Worklist
    decreases n
  {
    if n == 0 then w else Step(g, Run(g, w, n - 1))
  }

  lemma RunUnfolds(g: Graph, w: Worklist, n: nat)
    ensures Run(g, w, n + 1) == Step(g, Run(g, w, n))
  {
  }

  // ---- What the walk collects ----

  /** `w` is a state of a walk from `root` that started with no files recorded. */
  ghost predicate Walking(g: Graph, root: FilePath, w: Worklist) {
    && (root in w.files || root in w.queue)
    && (forall f, c | f in w.files && c in g.includes(f) :: c in w.files || c in w.queue)
    && (forall f | f in w.files || f in w.queue :: Reachable(g, root, f))
  }

  lemma StepWalks(g: Graph, root: FilePath, w: Worklist)
    requires Walking(g, root, w)
    ensures Walking(g, root, Step(g, w))
  {
    if w.queue != [] {
      var h, w' := w.queue[0], Step(g, w);
      assert w.queue == [h] + w.queue[1..];
      forall f | f in w'.files || f in w'.queue ensures Reachable(g, root, f) {
        if f in g.includes(h) {
          ReachableStep(g, root, h, f);
        }
      }
    }
  }

  lemma {:induction false} RunWalks(g: Graph, root: FilePath, n: nat)
    ensures Walking(g, root, Run(g, Worklist([root], {}), n))
  {
    if n == 0 {
      ReachableSelf(g, root);
    } else {
      RunWalks(g, root, n - 1);
      StepWalks(g, root, Run(g, Worklist([root], {}), n - 1));
    }
  }

  /** Files recorded before the walk do not influence it. */
  lemma {:induction false} RunIgnoresFiles(g: Graph, q: seq<FilePath>, files: set<FilePath>, n: nat)
    ensures var r := Run(g, Worklist(q, {}), n);
      Run(g, Worklist(q, files), n) == Worklist(r.queue, files + r.files)
  {
    if n > 0 {
      RunIgnoresFiles(g, q, files, n - 1);
    }
  }

  /** `after` is `before` together with exactly the files reachable from `root`. */
  ghost predicate AddsReachable(g: Graph, before: set<FilePath>, root: FilePath, after: set<FilePath>) {
    forall f :: f in after <==> f in before || Reachable(g, root, f)
  }

  lemma {:induction false} ClosedContainsRoute(g: Graph, s: set<FilePath>, p: seq<FilePath>)
    requires IsRoute(g, p) && p[0] in s
    requires forall f, c | f in s && c in g.includes(f) :: c in s
    ensures p[|p| - 1] in s
    decreases |p|
  {
    if |p| > 1 {
      assert p[1] in g.includes(p[0]);
      ClosedContainsRoute(g, s, p[1..]);
    }
  }

  /** Whenever the queue runs empty, the files recorded by the walk are exactly those reachable
      from its root, although files were queued repeatedly. */
  lemma {:induction false} EmptyQueueMeansReachable(g: Graph, root: FilePath, files: set<FilePath>, n: nat)
    requires Run(g, Worklist([root], files), n).queue == []
    ensures AddsReachable(g, files, root, Run(g, Worklist([root], files), n).files)
  {
    RunIgnoresFiles(g, [root], files, n);
    RunWalks(g, root, n);
    var w := Run(g, Worklist([root], {}), n);
    forall f | Reachable(g, root, f) ensures f in w.files {
      var p :| Joins(g, p, root, f);
      ClosedContainsRoute(g, w.files, p);
    }
  }

  // ---- How long the walk takes ----

  /** No route from `f` has more than `d` edges. */
  ghost predicate HeightAtMost(g: Graph, f: FilePath, d: nat)
    decreases d, 0
  {
    if d == 0 then g.includes(f) == []
    else AllHeights(g, g.includes(f), d - 1)
  }

  ghost predicate AllHeights(g: Graph, q: seq<FilePath>, d: nat)
    decreases d, 1
  {
    forall f | f in q :: HeightAtMost(g, f, d)
  }

  /** Size of the tree of include routes from `f`. */
  ghost function Weight(g: Graph, f: FilePath, d: nat): nat
    requires HeightAtMost(g, f, d)
    decreases d, 0
  {
    if d == 0 then 1 else 1 + TotalWeight(g, g.includes(f), d - 1)
  }

  ghost function TotalWeight(g: Graph, q: seq<FilePath>, d: nat): nat
    requires AllHeights(g, q, d)
    decreases d, 1, |q|
  {
    if q == [] then 0
    else
      assert forall f | f in q[1..] :: f in q;
      Weight(g, q[0], d) + TotalWeight(g, q[1..], d)
  }

  lemma {:induction false} HeightGrows(g: Graph, f: FilePath, d: nat, e: nat)
    requires HeightAtMost(g, f, d) && d <= e
    ensures HeightAtMost(g, f, e)
    decreases d
  {
    if d > 0 {
      forall c | c in g.includes(f) ensures HeightAtMost(g, c, e - 1) {
        HeightGrows(g, c, d - 1, e - 1);
      }
    }
  }

  lemma {:induction false} WeightGrows(g: Graph, f: FilePath, d: nat)
    requires HeightAtMost(g, f, d)
    ensures HeightAtMost(g, f, d + 1) && Weight(g, f, d + 1) == Weight(g, f, d)
    decreases d, 0
  {
    HeightGrows(g, f, d, d + 1);
    if d > 0 {
      TotalWeightGrows(g, g.includes(f), d - 1);
    }
  }

  lemma {:induction false} TotalWeightGrows(g: Graph, q: seq<FilePath>, d: nat)
    requires AllHeights(g, q, d)
    ensures AllHeights(g, q, d + 1) && TotalWeight(g, q, d + 1) == TotalWeight(g, q, d)
    decreases d, 1, |q|
  {
    forall f | f in q ensures HeightAtMost(g, f, d + 1) {
      HeightGrows(g, f, d, d + 1);
    }
    if q != [] {
      WeightGrows(g, q[0], d);
      TotalWeightGrows(g, q[1..], d);
    }
  }

  lemma {:induction false} TotalWeightConcat(g: Graph, a: seq<FilePath>, b: seq<FilePath>, d: nat)
    requires AllHeights(g, a, d) && AllHeights(g, b, d)
    ensures AllHeights(g, a + b, d)
    ensures TotalWeight(g, a + b, d) == TotalWeight(g, a, d) + TotalWeight(g, b, d)
    decreases |a|
  {
    if a == [] {
      assert a + b == b;
    } else {
      TotalWeightConcat(g, a[1..], b, d);
      assert (a + b)[1..] == a[1..] + b;
    }
  }

  /** Every turn lowers the total weight of the queue by exactly one. */
  lemma StepDropsWeight(g: Graph, w: Worklist, d: nat)
    requires AllHeights(g, w.queue, d) && w.queue != []
    ensures AllHeights(g, Step(g, w).queue, d)
    ensures TotalWeight(g, Step(g, w).queue, d) == TotalWeight(g, w.queue, d) - 1
  {
    var h, rest := w.queue[0], w.queue[1..];
    assert HeightAtMost(g, h, d) && AllHeights(g, rest, d);
    if d > 0 {
      TotalWeightGrows(g, g.includes(h), d - 1);
    }
    TotalWeightConcat(g, rest, g.includes(h), d);
  }

  /** With bounded heights the queue is empty after `n` turns exactly when `n` has reached the
      weight of the initial queue. */
  lemma {:induction false} RunTakesWeight(g: Graph, w: Worklist, d: nat, n: nat)
    requires AllHeights(g, w.queue, d)
    ensures AllHeights(g, Run(g, w, n).queue, d)
    ensures TotalWeight(g, Run(g, w, n).queue, d) ==
      if n <= TotalWeight(g, w.queue, d) then TotalWeight(g, w.queue, d) - n else 0
    ensures Run(g, w, n).queue == [] <==> n >= TotalWeight(g, w.queue, d)
  {
    if n > 0 {
      RunTakesWeight(g, w, d, n - 1);
      if Run(g, w, n - 1).queue != [] {
        StepDropsWeight(g, Run(g, w, n - 1), d);
      }
    }
    var q := Run(g, w, n).queue;
    if q != [] {
      assert TotalWeight(g, q, d) >= Weight(g, q[0], d);
    }
  }

  // ---- Cycles ----

  ghost predicate Unbounded(g: Graph, f: FilePath) {
    forall d: nat :: !HeightAtMost(g, f, d)
  }

  /** A height bound common to all files of a list. */
  lemma {:induction false} CommonHeight(g: Graph, q: seq<FilePath>) returns (d: nat)
    requires forall f | f in q :: !Unbounded(g, f)
    ensures AllHeights(g, q, d)
  {
    if q == [] {
      d := 0;
    } else {
      assert q[0] in q;
      var d0: nat :| HeightAtMost(g, q[0], d0);
      var d1 := CommonHeight(g, q[1..]);
      d := if d0 < d1 then d1 else d0;
      forall f | f in q ensures HeightAtMost(g, f, d) {
        if f == q[0] {
          HeightGrows(g, f, d0, d);
        } else {
          assert f in q[1..];
          HeightGrows(g, f, d1, d);
        }
      }
    }
  }

  lemma UnboundedChild(g: Graph, f: FilePath) returns (c: FilePath)
    requires Unbounded(g, f)
    ensures c in g.includes(f) && Unbounded(g, c)
  {
    if c' :| c' in g.includes(f) && Unbounded(g, c') {
      c := c';
    } else {
      var d := CommonHeight(g, g.includes(f));
      assert HeightAtMost(g, f, d + 1);
      assert false;
    }
  }

  lemma {:induction false} UnboundedNeverEnds(g: Graph, w: Worklist, f: FilePath, n: nat)
    requires f in w.queue && Unbounded(g, f)
    ensures exists h :: h in Run(g, w, n).queue && Unbounded(g, h)
  {
    if n == 0 {
      assert f in Run(g, w, 0).queue;
    } else {
      UnboundedNeverEnds(g, w, f, n - 1);
      var u := Run(g, w, n - 1);
      var h :| h in u.queue && Unbounded(g, h);
      assert u.queue == [u.queue[0]] + u.queue[1..];
      if h == u.queue[0] {
        var c := UnboundedChild(g, h);
        assert c in Run(g, w, n).queue;
      } else {
        assert h in Run(g, w, n).queue;
      }
    }
  }

  lemma {:induction false} LoopIsUnbounded(g: Graph, a: FilePath, p: seq<FilePath>, k: nat, d: nat)
    requires Loops(g, a, p) && k < |p|
    ensures !HeightAtMost(g, p[k], d)
    decreases d
  {
    var i :| 0 <= i < |p| - 1 && p[i] == p[|p| - 1];
    var j := if k < |p| - 1 then k else i;
    assert p[j + 1] in g.includes(p[k]);
    if d > 0 {
      LoopIsUnbounded(g, a, p, j + 1, d - 1);
    }
  }

  /** A file above height `d` starts a route with more than `d` edges. */
  lemma {:induction false} LongRoute(g: Graph, f: FilePath, d: nat) returns (p: seq<FilePath>)
    requires !HeightAtMost(g, f, d)
    ensures IsRoute(g, p) && p[0] == f && |p| == d + 2
    decreases d
  {
    if d == 0 {
      p := [f, g.includes(f)[0]];
    } else {
      var c :| c in g.includes(f) && !HeightAtMost(g, c, d - 1);
      var t := LongRoute(g, c, d - 1);
      p := [f] + t;
    }
  }

  lemma {:induction false} Pigeonhole(p: seq<FilePath>, s: set<FilePath>)
    requires (forall f | f in p :: f in s) && |p| > |s|
    ensures exists j :: 0 <= j < |p| && p[j] in p[..j]
    decreases |p|
  {
    var n := |p| - 1;
    if p[n] !in p[..n] {
      Pigeonhole(p[..n], s - {p[n]});
      var j :| 0 <= j < n && p[..n][j] in p[..n][..j];
      assert p[..n][..j] == p[..j];
    }
  }

  lemma {:induction false} RouteStaysInFiles(g: Graph, p: seq<FilePath>, i: nat)
    requires IsRoute(g, p) && p[0] in g.files && i < |p|
    ensures p[i] in g.files
  {
    if i > 0 {
      RouteStaysInFiles(g, p, i - 1);
      assert p[i - 1 + 1] in g.includes(p[i - 1]);
    }
  }

  /** A file has a height exactly when no include cycle is reachable from it, and then the number of
      files bounds it. */
  lemma CycleFreeHeight(g: Graph, f: FilePath)
    requires f in g.files
    ensures CycleFree(g, f) <==> HeightAtMost(g, f, |g.files|)
    ensures CycleFree(g, f) <==> !Unbounded(g, f)
  {
    var d := |g.files|;
    if !HeightAtMost(g, f, d) {
      var p := LongRoute(g, f, d);
      forall i | 0 <= i < |p| ensures p[i] in g.files {
        RouteStaysInFiles(g, p, i);
      }
      Pigeonhole(p, g.files);
      var j :| 0 <= j < |p| && p[j] in p[..j];
      var q := p[..j + 1];
      assert q[..|q| - 1] == p[..j];
      assert Loops(g, f, q);
    }
    if !CycleFree(g, f) {
      var p :| Loops(g, f, p);
      forall e: nat ensures !HeightAtMost(g, f, e) {
        LoopIsUnbounded(g, f, p, 0, e);
      }
    }
  }

  /** The number of turns a walk from `f` takes. */
  ghost function TreeSize(g: Graph, f: FilePath): nat
    requires f in g.files && CycleFree(g, f)
  {
    CycleFreeHeight(g, f);
    Weight(g, f, |g.files|)
  }

  lemma ChildIsCycleFree(g: Graph, f: FilePath, c: FilePath)
    requires CycleFree(g, f) && c in g.includes(f)
    ensures CycleFree(g, c)
  {
    forall p | Loops(g, c, p) ensures false {
      var q := [f] + p;
      assert q[|q| - 1] == p[|p| - 1] && p[..|p| - 1] == q[1..|q| - 1];
      var i :| 0 <= i < |p| - 1 && p[i] == p[|p| - 1];
      assert q[..|q| - 1][i + 1] == q[|q| - 1];
      assert Loops(g, f, q);
    }
  }

  ghost function SumSizes(g: Graph, q: seq<FilePath>): nat
    requires forall f | f in q :: f in g.files && CycleFree(g, f)
  {
    if q == [] then 0 else TreeSize(g, q[0]) + SumSizes(g, q[1..])
  }

  lemma {:induction false} SumSizesIsWeight(g: Graph, q: seq<FilePath>)
    requires forall f | f in q :: f in g.files && CycleFree(g, f)
    ensures AllHeights(g, q, |g.files|) && SumSizes(g, q) == TotalWeight(g, q, |g.files|)
  {
    forall f | f in q ensures HeightAtMost(g, f, |g.files|) {
      CycleFreeHeight(g, f);
    }
    if q != [] {
      SumSizesIsWeight(g, q[1..]);
    }
  }

  /** The size of a file's tree is one more than the sizes of the trees of its includes, counted with
      repetition. */
  lemma TreeSizeEquation(g: Graph, f: FilePath)
    requires f in g.files && CycleFree(g, f)
    ensures forall c | c in g.includes(f) :: CycleFree(g, c)
    ensures TreeSize(g, f) == 1 + SumSizes(g, g.includes(f))
  {
    forall c | c in g.includes(f) ensures CycleFree(g, c) {
      ChildIsCycleFree(g, f, c);
    }
    CycleFreeHeight(g, f);
    SumSizesIsWeight(g, g.includes(f));
    TotalWeightGrows(g, g.includes(f), |g.files| - 1);
  }

  /** The walk from an existing root ends if and only if no include cycle is reachable from the root;
      it then ends after exactly as many turns as the root's tree of includes has nodes. */
  lemma WalkEndsIffCycleFree(g: Graph, root: FilePath, files: set<FilePath>, n: nat)
    requires root in g.files
    ensures Run(g, Worklist([root], files), n).queue == [] <==>
      CycleFree(g, root) && n >= TreeSize(g, root)
  {
    var w := Worklist([root], files);
    CycleFreeHeight(g, root);
    if CycleFree(g, root) {
      assert w.queue[1..] == [];
      RunTakesWeight(g, w, |g.files|, n);
    } else {
      UnboundedNeverEnds(g, w, root, n);
    }
  }

  /** What a walk that ends has recorded. */
  lemma WalkResult(g: Graph, root: FilePath, files: set<FilePath>, n: nat)
    requires root in g.files && Run(g, Worklist([root], files), n).queue == []
    requires CycleFree(g, root) && n <= TreeSize(g, root)
    ensures n == TreeSize(g, root)
    ensures AddsReachable(g, files, root, Run(g, Worklist([root], files), n).files)
  {
    WalkEndsIffCycleFree(g, root, files, n);
    EmptyQueueMeansReachable(g, root, files, n);
  }
}
