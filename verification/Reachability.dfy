/**
 Reachability in a hierarchy given as a map from every node to its direct parents. It is the
 meaning of the policy language's `in` operator, of the action lattice's roll-ups and of the
 client's group expansion. A parent need not be a key of the map: such a node is reachable but
 has no parents of its own. Cycles are allowed.
 */
module Reachability {

  /** `b` is found `n` parent links above `a`. */
  ghost predicate Hops<T(!new)>(h: map<T, seq<T>>, a: T, b: T, n: nat)
  {
    if n == 0 then a == b
    else a in h && exists p :: p in h[a] && Hops(h, p, b, n - 1)
  }

  /** The reflexive-transitive closure of the parent relation. */
  ghost predicate Reaches<T(!new)>(h: map<T, seq<T>>, a: T, b: T)
  {
    exists n: nat :: Hops(h, a, b, n)
  }

  lemma ReachesSelf<T(!new)>(h: map<T, seq<T>>, a: T)
    ensures Reaches(h, a, a)
  {
    assert Hops(h, a, a, 0);
  }

  lemma ReachesViaParent<T(!new)>(h: map<T, seq<T>>, a: T, p: T, b: T)
    requires a in h && p in h[a] && Reaches(h, p, b)
    ensures Reaches(h, a, b)
  {
    var n: nat :| Hops(h, p, b, n);
    assert Hops(h, a, b, n + 1);
  }

  /** Unfolds one link: whatever is above `a` is `a` itself or above one of its parents. */
  lemma ReachesUnfold<T(!new)>(h: map<T, seq<T>>, a: T, b: T)
    ensures Reaches(h, a, b) <==> a == b || (a in h && exists p :: p in h[a] && Reaches(h, p, b))
  {
    if Reaches(h, a, b) && a != b {
      var n: nat :| Hops(h, a, b, n);
      var p :| p in h[a] && Hops(h, p, b, n - 1);
      assert Reaches(h, p, b);
    }
    if a == b {
      ReachesSelf(h, a);
    } else if a in h && exists p :: p in h[a] && Reaches(h, p, b) {
      var p :| p in h[a] && Reaches(h, p, b);
      ReachesViaParent(h, a, p, b);
    }
  }

  lemma {:induction false} HopsThenReaches<T(!new)>(h: map<T, seq<T>>, a: T, b: T, c: T, n: nat)
    requires Hops(h, a, b, n) && Reaches(h, b, c)
    ensures Reaches(h, a, c)
    decreases n
  {
    if n > 0 {
      var p :| p in h[a] && Hops(h, p, b, n - 1);
      HopsThenReaches(h, p, b, c, n - 1);
      ReachesViaParent(h, a, p, c);
    }
  }

  ghost predicate ClosedUnder<T(!new)>(h: map<T, seq<T>>, s: set<T>)
  {
    forall x, p :: x in s && x in h && p in h[x] ==> p in s
  }

  /** Nothing outside a set closed under parents is reachable from inside it. */
  lemma {:induction false} ClosedContainsHops<T(!new)>(h: map<T, seq<T>>, s: set<T>, a: T, b: T, n: nat)
    requires ClosedUnder(h, s) && a in s && Hops(h, a, b, n)
    ensures b in s
  {
    if n > 0 {
      var p :| p in h[a] && Hops(h, p, b, n - 1);
      ClosedContainsHops(h, s, p, b, n - 1);
    }
  }

  function Nodes<T>(h: map<T, seq<T>>): set<T>
  {
    h.Keys + set k, p | k in h && p in h[k] :: p
  }

  /** The depth-first walk the client uses: a recursive visit that marks nodes as seen. */
  class Walk<T(==, !new)> {
    const parents: map<T, seq<T>>
    var seen: set<T>

    constructor (parents: map<T, seq<T>>)
      ensures this.parents == parents && seen == {}
    {
      this.parents := parents;
      seen := {};
    }

    /** `nodes` is only the termination measure: cyclic hierarchies are walked too. */
    method Visit(n: T, ghost nodes: set<T>)
      requires n in nodes && seen <= nodes && ClosedUnder(parents, nodes)
      modifies this
      ensures old(seen) <= seen <= nodes && n in seen
      ensures forall x :: x in seen && x !in old(seen) ==> Reaches(parents, n, x)
      ensures forall x, p :: x in seen && x !in old(seen) && x in parents && p in parents[x] ==> p in seen
      decreases nodes - seen
    {
      if n in seen {
        return;
      }
      seen := seen + {n};
      ReachesSelf(parents, n);
      if n in parents {
        var ps := parents[n];
        for i := 0 to |ps|
          invariant old(seen) + {n} <= seen <= nodes
          invariant forall j :: 0 <= j < i ==> ps[j] in seen
          invariant forall x :: x in seen && x !in old(seen) ==> Reaches(parents, n, x)
          invariant forall x, p :: x in seen && x !in old(seen) && x != n && x in parents && p in parents[x] ==>
                    p in seen
        {
          ghost var before := seen;
          Visit(ps[i], nodes);
          forall x | x in seen && x !in before
            ensures Reaches(parents, n, x)
          {
            ReachesViaParent(parents, n, ps[i], x);
          }
        }
      }
    }
  }

  /** A node and everything above it, computed by the walk: exactly the reachable nodes. */
  method AncestorsOf<T(==, !new)>(parents: map<T, seq<T>>, start: T) returns (seen: set<T>)
    ensures forall x :: x in seen <==> Reaches(parents, start, x)
  {
    var walk := new Walk(parents);
    walk.Visit(start, Nodes(parents) + {start});
    seen := walk.seen;
    forall x | Reaches(parents, start, x)
      ensures x in seen
    {
      var n: nat :| Hops(parents, start, x, n);
      ClosedContainsHops(parents, seen, start, x, n);
    }
  }
}
