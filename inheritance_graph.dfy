/**
 * The inheritance graph of a set of packs: nodes are pack ids and each node
 * lists the ids it inherits from, in declared order.
 */
module InheritanceGraph {
  import opened Collections

  type Graph = map<string, seq<string>>

  /** Every parent that any pack names is itself a pack. */
  predicate Closed(g: Graph) {
    forall v, p :: v in g && p in g[v] ==> p in g
  }

  /** Consecutive ids of `p` follow `inherits` edges. */
  ghost predicate IsPath(g: Graph, p: seq<string>) {
    forall k :: 0 <= k < |p| - 1 ==> p[k] in g && p[k + 1] in g[p[k]]
  }

  /** A path of at least one edge that returns to where it started. */
  ghost predicate IsCycle(g: Graph, p: seq<string>) {
    |p| >= 2 && p[0] == p[|p| - 1] && IsPath(g, p)
  }

  ghost predicate Acyclic(g: Graph) {
    forall p :: !IsCycle(g, p)
  }

  /** Every id of `order` is a pack whose parents all appear earlier in `order`. */
  ghost predicate ParentsFirst(g: Graph, order: seq<string>) {
    forall k :: 0 <= k < |order| ==>
      order[k] in g && forall q :: q in g[order[k]] ==> q in order[..k]
  }

  /** Appending a pack whose parents are all listed keeps the order parents-first. */
  lemma ParentsFirstExtend(g: Graph, order: seq<string>, v: string)
    requires ParentsFirst(g, order) && v in g
    requires forall q :: q in g[v] ==> q in order
    ensures ParentsFirst(g, order + [v])
  {
    var o := order + [v];
    forall k | 0 <= k < |o| ensures o[k] in g && forall q :: q in g[o[k]] ==> q in o[..k] {
      if k < |order| { assert o[..k] == order[..k]; } else { assert o[..k] == order; }
    }
  }

  /** The position of the first occurrence of `x` in `s`. */
  function IndexOf(s: seq<string>, x: string): (r: nat)
    requires x in s
    ensures r < |s| && s[r] == x
    ensures forall k :: 0 <= k < r ==> s[k] != x
  {
    if s[0] == x then 0 else 1 + IndexOf(s[1..], x)
  }

  /** Following edges from a node listed in a parents-first order only ever moves earlier in it. */
  lemma {:induction false} PathMovesEarlier(g: Graph, order: seq<string>, p: seq<string>, j: nat)
    requires ParentsFirst(g, order) && IsPath(g, p) && 1 <= j < |p| && p[0] in order
    ensures p[j] in order && IndexOf(order, p[j]) < IndexOf(order, p[0])
    decreases j
  {
    var a := IndexOf(order, p[0]);
    assert p[0] in g && p[1] in g[p[0]];
    assert p[1] in order[..a];
    var b :| 0 <= b < a && order[b] == p[1];
    assert IndexOf(order, p[1]) <= b;
    if j > 1 {
      var rest := p[1..];
      assert IsPath(g, rest) by {
        forall k | 0 <= k < |rest| - 1 ensures rest[k] in g && rest[k + 1] in g[rest[k]] {
          assert rest[k] == p[k + 1] && rest[k + 1] == p[k + 2];
        }
      }
      PathMovesEarlier(g, order, rest, j - 1);
    }
  }

  /**
   * A graph whose every node is listed in an order that puts parents first
   * has no dangling parent and no cycle.
   */
  lemma ParentsFirstClosedAcyclic(g: Graph, order: seq<string>)
    requires ParentsFirst(g, order) && g.Keys <= Elems(order)
    ensures Closed(g) && Acyclic(g)
  {
    forall v, p | v in g && p in g[v] ensures p in g {
      var a := IndexOf(order, v);
      assert p in order[..a];
    }
    forall p | IsCycle(g, p) ensures false {
      assert p[0] in g;
      PathMovesEarlier(g, order, p, |p| - 1);
    }
  }

  /**
   * Walking a path on the stack of packs being visited and stepping back onto
   * one of them closes a cycle.
   */
  lemma ReturnToPathIsCycle(g: Graph, stack: seq<string>, pid: string, j: nat)
    requires IsPath(g, stack) && j < |stack| && stack[j] == pid
    requires stack[|stack| - 1] in g && pid in g[stack[|stack| - 1]]
    ensures IsCycle(g, stack[j..] + [pid])
  {
    var c := stack[j..] + [pid];
    forall k | 0 <= k < |c| - 1 ensures c[k] in g && c[k + 1] in g[c[k]] {
      if k < |c| - 2 {
        assert c[k] == stack[j + k] && c[k + 1] == stack[j + k + 1];
      } else {
        assert c[k] == stack[|stack| - 1] && c[k + 1] == pid;
      }
    }
  }
}
