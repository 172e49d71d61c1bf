/** Finite directed graphs given by successor sets: walks, reachability, cycles,
    and the two facts the graph algorithms of the repository rest on. */
module Graphs {
  type Graph<V> = map<V, set<V>>

  ghost predicate Closed<V>(g: Graph<V>) {
    forall v :: v in g ==> g[v] <= g.Keys
  }

  /** Every consecutive pair of `p` is an edge of `g`. */
  ghost predicate Walk<V>(g: Graph<V>, p: seq<V>) {
    forall i :: 0 <= i < |p| - 1 ==> p[i] in g && p[i + 1] in g[p[i]]
  }

  ghost predicate WalkBetween<V>(g: Graph<V>, p: seq<V>, a: V, b: V) {
    |p| >= 2 && p[0] == a && p[|p| - 1] == b && Walk(g, p)
  }

  /** `b` can be reached from `a` in one or more steps. */
  ghost predicate Reaches<V(!new)>(g: Graph<V>, a: V, b: V) {
    exists p :: WalkBetween(g, p, a, b)
  }

  ghost predicate Cyclic<V(!new)>(g: Graph<V>) {
    exists v :: Reaches(g, v, v)
  }

  lemma EdgeReaches<V(!new)>(g: Graph<V>, a: V, b: V)
    requires a in g && b in g[a]
    ensures Reaches(g, a, b)
  {
    assert WalkBetween(g, [a, b], a, b);
  }

  lemma ReachesTransitive<V(!new)>(g: Graph<V>, a: V, b: V, c: V)
    requires Reaches(g, a, b) && Reaches(g, b, c)
    ensures Reaches(g, a, c)
  {
    var p :| WalkBetween(g, p, a, b);
    var q :| WalkBetween(g, q, b, c);
    assert WalkBetween(g, p + q[1..], a, c);
  }

  lemma ReachesFirstStep<V(!new)>(g: Graph<V>, a: V, c: V) returns (b: V)
    requires Reaches(g, a, c)
    ensures a in g && b in g[a] && (b == c || Reaches(g, b, c))
  {
    var p :| WalkBetween(g, p, a, c);
    b := p[1];
    if |p| > 2 {
      assert WalkBetween(g, p[1..], b, c);
    }
  }

  /** Every node of `order` has all its successors strictly before it. */
  ghost predicate SuccessorsFirst<V>(g: Graph<V>, order: seq<V>) {
    forall k :: 0 <= k < |order| ==> order[k] in g && forall t :: t in g[order[k]] ==> t in order[..k]
  }

  ghost predicate Lists<V(!new)>(order: seq<V>, s: set<V>) {
    forall v :: v in order <==> v in s
  }

  lemma SuccessorsFirstExtends<V>(g: Graph<V>, order: seq<V>, v: V)
    requires SuccessorsFirst(g, order) && v in g && forall t :: t in g[v] ==> t in order
    ensures SuccessorsFirst(g, order + [v])
  {
    var next := order + [v];
    forall k | 0 <= k < |next| ensures next[k] in g && forall t :: t in g[next[k]] ==> t in next[..k] {
      assert next[..k] == order[..k];
      assert order[..|order|] == order;
    }
  }

  lemma {:induction false} WalkDescends<V>(g: Graph<V>, order: seq<V>, k: nat, p: seq<V>)
    requires SuccessorsFirst(g, order) && k < |order|
    requires |p| >= 2 && Walk(g, p) && p[0] == order[k]
    ensures p[|p| - 1] in order[..k]
    decreases |p|
  {
    assert p[1] in g[p[0]];
    if |p| > 2 {
      var j :| 0 <= j < k && order[j] == p[1];
      WalkDescends(g, order, j, p[1..]);
    }
  }

  /** A node listed after all its successors lies on no cycle and reaches none. */
  lemma {:induction false} OrderedReachesNoCycle<V(!new)>(g: Graph<V>, order: seq<V>, k: nat, c: V)
    requires SuccessorsFirst(g, order) && k < |order|
    requires c == order[k] || Reaches(g, order[k], c)
    ensures !Reaches(g, c, c)
    decreases k
  {
    if c == order[k] {
      if Reaches(g, c, c) {
        var p :| WalkBetween(g, p, c, c);
        WalkDescends(g, order, k, p);
        var j :| 0 <= j < k && order[j] == c;
        OrderedReachesNoCycle(g, order, j, c);
      }
    } else {
      var b := ReachesFirstStep(g, order[k], c);
      var j :| 0 <= j < k && order[j] == b;
      OrderedReachesNoCycle(g, order, j, c);
    }
  }

  lemma {:induction false} SequenceRepeats<V>(p: seq<V>, s: set<V>) returns (i: nat, j: nat)
    requires |p| > |s| && forall v :: v in p ==> v in s
    ensures i < j < |p| && p[i] == p[j]
    decreases |p|
  {
    var last := p[|p| - 1];
    var rest := p[..|p| - 1];
    if last in rest {
      i :| 0 <= i < |rest| && rest[i] == last;
      j := |p| - 1;
    } else {
      assert forall v :: v in rest ==> v in s - {last};
      i, j := SequenceRepeats(rest, s - {last});
    }
  }

  lemma {:induction false} LongWalk<V>(g: Graph<V>, s: set<V>, v: V, n: nat) returns (p: seq<V>)
    requires v in s && forall u :: u in s ==> u in g && g[u] * s != {}
    ensures |p| == n + 1 && p[0] == v && Walk(g, p) && forall u :: u in p ==> u in s
    decreases n
  {
    if n == 0 {
      p := [v];
    } else {
      var w :| w in g[v] * s;
      var q := LongWalk(g, s, w, n - 1);
      p := [v] + q;
    }
  }

  /** In a finite set whose nodes all keep a successor inside the set, every node
      is on a cycle or reaches one. */
  lemma NoSinkReachesCycle<V(!new)>(g: Graph<V>, s: set<V>, v: V) returns (c: V)
    requires v in s && forall u :: u in s ==> u in g && g[u] * s != {}
    ensures Reaches(g, c, c) && (v == c || Reaches(g, v, c))
  {
    var p := LongWalk(g, s, v, |s|);
    var i, j := SequenceRepeats(p, s);
    c := p[i];
    assert WalkBetween(g, p[i..j + 1], c, c);
    if i > 0 {
      assert WalkBetween(g, p[..i + 1], v, c);
    }
  }

  /** An acyclic closed finite graph can be listed successors first. */
  lemma {:induction false} AcyclicOrder<V(!new)>(g: Graph<V>, done: seq<V>) returns (order: seq<V>)
    requires Closed(g) && !Cyclic(g)
    requires SuccessorsFirst(g, done)
    ensures SuccessorsFirst(g, order) && Lists(order, g.Keys)
    decreases |g.Keys - (set v | v in done)|
  {
    var rest := g.Keys - set v | v in done;
    if rest == {} {
      forall v | v in g.Keys ensures v in done {
        assert v !in rest;
      }
      order := done;
    } else if u :| u in rest && g[u] * rest == {} {
      forall t | t in g[u] ensures t in done {
        assert t !in g[u] * rest;
        assert t in g.Keys;
      }
      var next := done + [u];
      SuccessorsFirstExtends(g, done, u);
      assert g.Keys - (set v | v in next) == rest - {u};
      order := AcyclicOrder(g, next);
    } else {
      var v :| v in rest;
      var c := NoSinkReachesCycle(g, rest, v);
    }
  }
}
