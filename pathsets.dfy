/** What the two path-counting searches of ds/matrixgraph.go and ds/algraph.go share: the visited
    set they thread through their recursion, and the sets of paths that justify their counts. */
module PathSets {

  /** A `map[string]struct{}` reached through a pointer: a set of keys that every level of the
      recursion sees and updates. */
  class KeySet {
    var keys: set<string>

    /** `make(map[string]struct{})`: the empty set. */
    constructor ()
      ensures keys == {}
    {
      keys := {};
    }
  }

  /** The paths of S, each with x put in front. */
  ghost function Prepend<T>(x: T, S: set<seq<T>>): set<seq<T>> {
    set q | q in S :: [x] + q
  }

  /** Putting the same vertex in front of distinct paths keeps them distinct. */
  lemma {:induction false} PrependCard<T>(x: T, S: set<seq<T>>)
    ensures |Prepend(x, S)| == |S|
    decreases |S|
  {
    if S != {} {
      var q :| q in S;
      var R := S - {q};
      PrependCard(x, R);
      assert Prepend(x, S) == Prepend(x, R) + {[x] + q};
      assert [x] + q !in Prepend(x, R) by {
        forall q' | q' in R ensures [x] + q' != [x] + q {
          assert ([x] + q')[1..] == q';
          assert ([x] + q)[1..] == q;
        }
      }
    }
  }

  /** A vertex set loses an element when one of its members is marked visited. */
  lemma MarkShrinks<T>(U: set<T>, V: set<T>, x: T)
    requires x in U && x !in V
    ensures |U - (V + {x})| < |U - V|
  {
    var A := U - V;
    assert U - (V + {x}) == A - {x};
    assert A == (A - {x}) + {x};
  }

  /** A path in Prepend(x, S) is x followed by a path of S. */
  lemma Unprepend<T>(x: T, S: set<seq<T>>, p: seq<T>)
    requires p in Prepend(x, S)
    ensures |p| >= 1 && p[0] == x && p[1..] in S
  {
    var q :| q in S && p == [x] + q;
    assert p[1..] == q;
  }
}
