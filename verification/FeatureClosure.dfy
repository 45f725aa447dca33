/** `_default_closure`: the features a crate's `default` turns on, over a feature graph that
    may be cyclic and may name undeclared features (optional dependencies). */
module FeatureClosure {

  type Graph = map<string, seq<string>>

  function Roots(g: Graph): (r: seq<string>)
  {
    if "default" in g then g["default"] else []
  }

  /** A chain of declared features from `default`'s list, each enabled by the one before. */
  predicate IsChain(g: Graph, p: seq<string>)
  {
    && p != [] && p[0] in Roots(g)
    && (forall i | 0 <= i < |p| :: p[i] in g)
    && (forall i | 0 <= i < |p| - 1 :: Enables(g, p[i], p, i + 1))
  }

  predicate Enables(g: Graph, f: string, p: seq<string>, i: nat)
  {
    f in g && i < |p| && p[i] in g[f]
  }

  ghost predicate Enabled(g: Graph, f: string)
  {
    exists p: seq<string> :: IsChain(g, p) && p[|p| - 1] == f
  }

  /** `f` is on `default`'s list or enabled by a feature of `seen`. */
  predicate Candidate(g: Graph, seen: set<string>, f: string)
  {
    f in Roots(g) || exists s :: s in seen && s in g && f in g[s]
  }

  /** Every candidate that is declared has been seen or is still to be looked at. */
  ghost predicate Covered(g: Graph, seen: set<string>, todo: seq<string>)
  {
    forall f | f in g && Candidate(g, seen, f) :: f in seen || f in todo
  }

  /** One feature more at the end of a chain. */
  lemma ChainSnoc(g: Graph, p: seq<string>, f: string)
    requires IsChain(g, p) && f in g && p[|p| - 1] in g && f in g[p[|p| - 1]]
    ensures IsChain(g, p + [f])
  {
    var q := p + [f];
    forall i | 0 <= i < |q| - 1 ensures Enables(g, q[i], q, i + 1) {
      assert i < |p| - 1 ==> Enables(g, p[i], p, i + 1);
    }
  }

  lemma CandidateEnabled(g: Graph, seen: set<string>, f: string)
    requires (forall s | s in seen :: Enabled(g, s)) && f in g && Candidate(g, seen, f)
    ensures Enabled(g, f)
  {
    if f in Roots(g) {
      assert IsChain(g, [f]);
    } else {
      var s :| s in seen && s in g && f in g[s];
      var p: seq<string> :| IsChain(g, p) && p[|p| - 1] == s;
      ChainSnoc(g, p, f);
      assert (p + [f])[|p + [f]| - 1] == f;
    }
  }

  lemma {:induction false} ChainSeen(g: Graph, seen: set<string>, p: seq<string>, n: nat)
    requires Covered(g, seen, []) && IsChain(g, p) && n < |p|
    ensures p[n] in seen
  {
    if n > 0 {
      ChainSeen(g, seen, p, n - 1);
      assert Enables(g, p[n - 1], p, n);
    }
    assert Candidate(g, seen, p[n]);
  }

  ghost predicate Progress(g: Graph, seen: set<string>, todo: seq<string>)
  {
    && seen <= g.Keys
    && (forall f | f in seen :: Enabled(g, f))
    && (forall f | f in todo :: Candidate(g, seen, f))
    && Covered(g, seen, todo)
  }

  lemma ProgressStart(g: Graph)
    ensures Progress(g, {}, Roots(g))
  {
  }

  lemma ProgressSkip(g: Graph, seen: set<string>, rest: seq<string>, f: string)
    requires Progress(g, seen, rest + [f]) && (f in seen || f !in g)
    ensures Progress(g, seen, rest)
  {
    assert forall h | h in rest :: h in rest + [f];
    assert forall h | h in rest + [f] :: h in rest || h == f;
  }

  /** Looking at `f` and adding what it enables keeps every candidate covered. */
  lemma CoveredStep(g: Graph, seen: set<string>, rest: seq<string>, f: string)
    requires Covered(g, seen, rest + [f]) && f in g
    ensures Covered(g, seen + {f}, rest + g[f])
  {
    forall h | h in g && Candidate(g, seen + {f}, h) ensures h in seen + {f} || h in rest + g[f] {
      if h !in g[f] {
        assert Candidate(g, seen, h);
        assert h in seen || h in rest + [f];
      }
    }
  }

  lemma CandidatesStep(g: Graph, seen: set<string>, rest: seq<string>, f: string)
    requires (forall h | h in rest + [f] :: Candidate(g, seen, h)) && f in g
    ensures forall h | h in rest + g[f] :: Candidate(g, seen + {f}, h)
  {
    forall h | h in rest + g[f] ensures Candidate(g, seen + {f}, h) {
      if h in g[f] {
        assert f in seen + {f};
      } else {
        assert h in rest + [f];
      }
    }
  }

  lemma ProgressAdd(g: Graph, seen: set<string>, rest: seq<string>, f: string)
    requires Progress(g, seen, rest + [f]) && f !in seen && f in g
    ensures Progress(g, seen + {f}, rest + g[f])
    ensures |g.Keys - (seen + {f})| < |g.Keys - seen|
  {
    assert f in rest + [f];
    CandidateEnabled(g, seen, f);
    CoveredStep(g, seen, rest, f);
    CandidatesStep(g, seen, rest, f);
    assert g.Keys - (seen + {f}) == (g.Keys - seen) - {f};
  }

  lemma ProgressDone(g: Graph, seen: set<string>)
    requires Progress(g, seen, [])
    ensures forall f :: f in seen <==> Enabled(g, f)
  {
    forall f | Enabled(g, f) ensures f in seen {
      var p: seq<string> :| IsChain(g, p) && p[|p| - 1] == f;
      ChainSeen(g, seen, p, |p| - 1);
    }
  }

  /** Terminates on every graph and returns exactly the declared features that `default`
      reaches. */
  method DefaultClosure(g: Graph) returns (seen: set<string>)
    ensures forall f :: f in seen <==> Enabled(g, f)
  {
    hide Progress;
    seen := {};
    var todo := Roots(g);
    ProgressStart(g);
    while todo != []
      invariant Progress(g, seen, todo)
      decreases |g.Keys - seen|, |todo|
    {
      var f := todo[|todo| - 1];
      var rest := todo[..|todo| - 1];
      assert todo == rest + [f];
      if f in seen || f !in g {
        ProgressSkip(g, seen, rest, f);
        todo := rest;
      } else {
        ProgressAdd(g, seen, rest, f);
        seen := seen + {f};
        todo := rest + g[f];
      }
    }
    ProgressDone(g, seen);
  }
}
