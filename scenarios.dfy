/** What the unifier model yields on inputs of the demonstration suite, written as terms. */
module Scenarios {
  import opened Wrappers
  import opened Terms
  import opened Substitutions
  import opened Unifier

  /**
   * `p(X, X)` against `p(a, a)` (uppercase constants, lowercase variables):
   * the first pair binds `a`, and the second already agrees under that
   * binding, so the result has exactly one binding.
   */
  lemma RepeatedArgumentBindsOnce()
    ensures UnifyTerms(Fn("p", [Const("X"), Const("X")]), Fn("p", [Var("a"), Var("a")]), Empty())
            == Success(Subst(["a"], map["a" := Const("X")]))
  {
    var s, s1 := Empty(), Subst(["a"], map["a" := Const("X")]);
    var x, a := Const("X"), Var("a");
    var l, r := Fn("p", [x, x]), Fn("p", [a, a]);
    ApplyResolvedIsIdentity(s, l);
    ApplyResolvedIsIdentity(s, r);
    ConstantBindsVariable();
    ApplyConst(s, "X");
    ApplyVar(s, "a");
    BoundPairAgrees();
    assert [x, x][1..] == [x] && [a, a][1..] == [a];
    assert UnifyArgs([x, x], [a, a], s) == Success(s1);
  }

  /** The first pair, `X` against `a`, binds `a` to `X`. */
  lemma ConstantBindsVariable()
    ensures UnifyTerms(Const("X"), Var("a"), Empty()) == Success(Subst(["a"], map["a" := Const("X")]))
  {
    var s, s1 := Empty(), Subst(["a"], map["a" := Const("X")]);
    var x := Const("X");
    ApplyConst(s, "X");
    ApplyVar(s, "a");
    assert Vars(x) == {};
    assert s.order + ["a"] == s1.order && s.bindings["a" := x] == s1.bindings;
    assert Extend(s, "a", x) == s1;
    assert UnifyVar("a", x, s) == Success(s1);
  }

  /** Once `a` is bound to `X`, the second pair already agrees and nothing is added. */
  lemma BoundPairAgrees()
    ensures UnifyArgs([Const("X")], [Var("a")], Subst(["a"], map["a" := Const("X")]))
            == Success(Subst(["a"], map["a" := Const("X")]))
  {
    var s1 := Subst(["a"], map["a" := Const("X")]);
    var x, a := Const("X"), Var("a");
    ApplyConst(s1, "X");
    ApplyVar(s1, "a");
    ApplyConst(s1, "X");
    assert UnifyTerms(Apply(s1, x), Apply(s1, a), s1) == Success(s1);
    assert [x][1..] == [] && [a][1..] == [];
  }

  /**
   * `p(f(a), g(Y))` against `p(X, X)`: the first pair is an application
   * against a constant, so the whole unification fails there.
   */
  lemma FirstPairMismatchFails()
    ensures UnifyTerms(Fn("p", [Fn("f", [Var("a")]), Fn("g", [Const("Y")])]), Fn("p", [Const("X"), Const("X")]), Empty())
            == Failure(Mismatch(Fn("f", [Var("a")]), Const("X")))
  {
    var s := Empty();
    var fa, gy, x := Fn("f", [Var("a")]), Fn("g", [Const("Y")]), Const("X");
    var l, r := Fn("p", [fa, gy]), Fn("p", [x, x]);
    ApplyResolvedIsIdentity(s, l);
    ApplyResolvedIsIdentity(s, r);
    ApplyResolvedIsIdentity(s, fa);
    ApplyConst(s, "X");
    assert UnifyTerms(fa, x, s) == Failure(Mismatch(fa, x));
    assert UnifyArgs([fa, gy], [x, x], s) == Failure(Mismatch(fa, x));
  }

  /**
   * `X` against `f(X)`: the parser reads the uppercase `X` as a constant, so
   * this is a constant against an application, the generic mismatch, and
   * not an occurs-check failure.
   */
  lemma ConstantInsideItsTermMismatches()
    ensures UnifyTerms(Const("X"), Fn("f", [Const("X")]), Empty()) == Failure(Mismatch(Const("X"), Fn("f", [Const("X")])))
  {
    var t := Fn("f", [Const("X")]);
    ApplyResolvedIsIdentity(Empty(), t);
    ApplyConst(Empty(), "X");
    OtherMismatchFails(Const("X"), t, Empty());
  }

  /** `x` against `f(x)` with a lowercase, hence variable, `x`: the occurs check fails. */
  lemma VariableInsideItsTermFails()
    ensures UnifyTerms(Var("x"), Fn("f", [Var("x")]), Empty()) == Failure(OccursCheckFailed("x", Fn("f", [Var("x")])))
  {
    var t := Fn("f", [Var("x")]);
    ApplyResolvedIsIdentity(Empty(), t);
    assert Occurs(t, "x") by {
      assert Occurs(t.args[0], "x");
    }
    OccursCheckFails("x", t, Empty());
  }
}
