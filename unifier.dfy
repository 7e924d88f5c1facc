/**
 * The unifier: `Unifier.unify` for terms, `_unify_var`, `_occurs_check`
 * and the soft-failing `Unifier.unify_literals`.
 *
 * `UnifyTerms` and `UnifyArgs` are the reference definitions; the methods
 * `Unify`, `UnifyEach` and `UnifyLiterals` follow the Python loops and are
 * proved equal to them.
 */
module Unifier {
  import opened Wrappers
  import opened Terms
  import opened Substitutions
  import opened Literals

  /** The reasons a `UnificationError` is raised. */
  datatype UnifyError =
    | OccursCheckFailed(variable: string, term: Term)
    | FunctorMismatch(left: Term, right: Term)
    | Mismatch(left: Term, right: Term)
    | LiteralMismatch(first: Literal, second: Literal)
    | NotComplementary(first: Literal, second: Literal)

  /** The variables left in two terms once the substitution is applied. */
  ghost function PairVars(s: Subst, t1: Term, t2: Term): set<string>
    requires Valid(s) && Acyclic(s)
  {
    Vars(Apply(s, t1)) + Vars(Apply(s, t2))
  }

  /** The same for two argument lists, seen as the arguments of two applications. */
  ghost function ListVars(s: Subst, as1: seq<Term>, as2: seq<Term>): set<string>
    requires Valid(s) && Acyclic(s)
  {
    PairVars(s, Fn("", as1), Fn("", as2))
  }

  /** The combined size of two terms once the substitution is applied. */
  ghost function PairSize(s: Subst, t1: Term, t2: Term): nat
    requires Valid(s) && Acyclic(s)
  {
    Size(Apply(s, t1)) + Size(Apply(s, t2))
  }

  /** The same for two argument lists. */
  ghost function ListSize(s: Subst, as1: seq<Term>, as2: seq<Term>): nat
    requires Valid(s) && Acyclic(s)
  {
    PairSize(s, Fn("", as1), Fn("", as2))
  }

  /** Every key that `r` adds to `s` is in `w`, and so are the variables of its binding. */
  ghost predicate Bounded(r: Subst, s: Subst, w: set<string>) {
    forall v | v in r.bindings && v !in s.bindings :: v in w && Vars(r.bindings[v]) <= w
  }

  /**
   * `r` is a well-formed, acyclic extension of `s` that only appends new
   * bindings, and is `s` itself when it appends none.
   */
  ghost predicate Grows(r: Subst, s: Subst) {
    && Valid(r) && Acyclic(r) && Extends(r, s)
    && s.order <= r.order
    && (|r.order| == |s.order| ==> r == s)
  }

  /** `_occurs_check(var, term)`: `term.occurs(var.name)`. */
  function OccursCheck(x: string, t: Term): (r: bool)
    ensures r <==> x in Vars(t)
  {
    OccursIffInVars(t, x);
    Occurs(t, x)
  }

  /**
   * `_unify_var(var, term, subst)` for an unbound `var` and a resolved
   * `term`, the only way `unify` calls it: fail the occurs check, or bind.
   */
  function UnifyVar(x: string, t: Term, s: Subst): (r: Result<Subst, UnifyError>)
    requires Valid(s) && Acyclic(s) && !Contains(s, x) && Resolved(s, t)
    ensures r.Failure? <==> x in Vars(t)
    ensures r.Failure? ==> r.error == OccursCheckFailed(x, t)
    ensures r.Success? ==> r.value == Extend(s, x, t) && Grows(r.value, s)
    ensures r.Success? ==> Apply(r.value, Var(x)) == Apply(r.value, t)
  {
    if OccursCheck(x, t) then Failure(OccursCheckFailed(x, t))
    else
      ApplyResolvedIsIdentity(s, t);
      var r := Extend(s, x, Apply(s, t));
      ExtendKeepsAcyclic(s, x, t);
      ApplyVar(r, x);
      Success(r)
  }

  /**
   * `unify(t1, t2, subst)`: apply the substitution to both sides; equal
   * terms need nothing; a variable on the left, then on the right, is bound;
   * two applications with the same functor and arity are unified argument
   * by argument; anything else fails.
   *
   * On success the result is a sound unifier that extends `s` by bindings
   * for variables of the two applied terms only.
   */
  function UnifyTerms(t1: Term, t2: Term, s: Subst): (r: Result<Subst, UnifyError>)
    requires Valid(s) && Acyclic(s)
    ensures r.Success? ==> Grows(r.value, s) && Bounded(r.value, s, PairVars(s, t1, t2))
    ensures r.Success? ==> Apply(r.value, t1) == Apply(r.value, t2)
    decreases PairVars(s, t1, t2), PairSize(s, t1, t2), 1
  {
    var u1 := Apply(s, t1);
    var u2 := Apply(s, t2);
    ApplyResolves(s, t1);
    ApplyResolves(s, t2);
    if u1 == u2 then
      Success(s)
    else if u1.Var? then
      var r := UnifyVar(u1.name, u2, s);
      if r.Success? then BindSound(s, r.value, t1, t2); r else r
    else if u2.Var? then
      var r := UnifyVar(u2.name, u1, s);
      if r.Success? then BindSound(s, r.value, t2, t1); r else r
    else if u1.Fn? && u2.Fn? then
      if u1.name != u2.name || |u1.args| != |u2.args| then
        Failure(FunctorMismatch(u1, u2))
      else
        ArgsMeasures(s, t1, t2);
        var r := UnifyArgs(u1.args, u2.args, s);
        if r.Success? then ArgsSound(s, r.value, t1, t2); r else r
    else
      Failure(Mismatch(u1, u2))
  }

  /**
   * The loop over argument pairs: each pair is applied under the running
   * substitution, unified, and the result carried to the next pair.
   */
  function UnifyArgs(as1: seq<Term>, as2: seq<Term>, s: Subst): (r: Result<Subst, UnifyError>)
    requires Valid(s) && Acyclic(s) && |as1| == |as2|
    ensures r.Success? ==> Grows(r.value, s) && Bounded(r.value, s, ListVars(s, as1, as2))
    ensures r.Success? ==> forall k | 0 <= k < |as1| :: Apply(r.value, as1[k]) == Apply(r.value, as2[k])
    decreases ListVars(s, as1, as2), ListSize(s, as1, as2), 0
  {
    if |as1| == 0 then
      Success(s)
    else
      HeadMeasure(s, as1, as2);
      match UnifyTerms(Apply(s, as1[0]), Apply(s, as2[0]), s)
      case Failure(e) => Failure(e)
      case Success(cur) =>
        TailMeasure(s, cur, as1, as2);
        var rest := UnifyArgs(as1[1..], as2[1..], cur);
        ArgsStep(s, cur, rest, as1, as2);
        rest
  }

  /** Binding the variable one side resolves to makes both sides equal. */
  lemma BindSound(s: Subst, r: Subst, t1: Term, t2: Term)
    requires Valid(s) && Acyclic(s) && Apply(s, t1).Var?
    requires Valid(r) && Acyclic(r) && Extends(r, s)
    requires Contains(r, Apply(s, t1).name) && r.bindings[Apply(s, t1).name] == Apply(s, t2)
    ensures Apply(r, t1) == Apply(r, t2)
  {
    ApplyAbsorbs(r, s, t1);
    ApplyAbsorbs(r, s, t2);
    ApplyVar(r, Apply(s, t1).name);
  }

  /** The argument list of a resolved application has the same variables and size as the application. */
  lemma ArgsMeasure(s: Subst, t: Term)
    requires Valid(s) && Acyclic(s) && Apply(s, t).Fn?
    ensures Apply(s, Fn("", Apply(s, t).args)) == Fn("", Apply(s, t).args)
    ensures Vars(Fn("", Apply(s, t).args)) == Vars(Apply(s, t))
    ensures Size(Fn("", Apply(s, t).args)) == Size(Apply(s, t))
  {
    var u := Apply(s, t);
    ApplyResolves(s, t);
    assert Vars(Fn("", u.args)) == Vars(u);
    ApplyResolvedIsIdentity(s, Fn("", u.args));
  }

  /** Hence unifying the two argument lists has the measure of unifying the two applications. */
  lemma ArgsMeasures(s: Subst, t1: Term, t2: Term)
    requires Valid(s) && Acyclic(s) && Apply(s, t1).Fn? && Apply(s, t2).Fn?
    ensures ListVars(s, Apply(s, t1).args, Apply(s, t2).args) == PairVars(s, t1, t2)
    ensures ListSize(s, Apply(s, t1).args, Apply(s, t2).args) == PairSize(s, t1, t2)
  {
    ArgsMeasure(s, t1);
    ArgsMeasure(s, t2);
  }

  /** Equal arguments under `r` make the two applications equal under `r`. */
  lemma ArgsSound(s: Subst, r: Subst, t1: Term, t2: Term)
    requires Valid(s) && Acyclic(s) && Valid(r) && Acyclic(r) && Extends(r, s)
    requires Apply(s, t1).Fn? && Apply(s, t2).Fn?
    requires Apply(s, t1).name == Apply(s, t2).name
    requires |Apply(s, t1).args| == |Apply(s, t2).args|
    requires forall k | 0 <= k < |Apply(s, t1).args| :: Apply(r, Apply(s, t1).args[k]) == Apply(r, Apply(s, t2).args[k])
    ensures Apply(r, t1) == Apply(r, t2)
  {
    var u1, u2 := Apply(s, t1), Apply(s, t2);
    ApplyFn(r, u1.name, u1.args);
    ApplyFn(r, u2.name, u2.args);
    assert Apply(r, u1).args == Apply(r, u2).args;
    ApplyAbsorbs(r, s, t1);
    ApplyAbsorbs(r, s, t2);
  }

  /** The first argument pair is below the whole list in the termination order. */
  lemma HeadMeasure(s: Subst, as1: seq<Term>, as2: seq<Term>)
    requires Valid(s) && Acyclic(s) && |as1| == |as2| > 0
    ensures PairVars(s, Apply(s, as1[0]), Apply(s, as2[0])) <= ListVars(s, as1, as2)
    ensures PairSize(s, Apply(s, as1[0]), Apply(s, as2[0])) < ListSize(s, as1, as2)
  {
    ApplyIdempotent(s, as1[0]);
    ApplyIdempotent(s, as2[0]);
    var w1, w2 := Apply(s, Fn("", as1)), Apply(s, Fn("", as2));
    ApplyFn(s, "", as1);
    ApplyFn(s, "", as2);
    ArgVars("", w1.args, 0);
    ArgVars("", w2.args, 0);
    ArgSmaller("", w1.args, 0);
    ArgSmaller("", w2.args, 0);
  }

  /** Dropping the first argument keeps the variables within those of the whole list. */
  lemma TailVars(args: seq<Term>)
    requires |args| > 0
    ensures Vars(Fn("", args[1..])) <= Vars(Fn("", args))
  {
    forall v | v in Vars(Fn("", args[1..])) ensures v in Vars(Fn("", args)) {
      var i :| 0 <= i < |args[1..]| && v in Vars(args[1..][i]);
      assert args[1..][i] == args[i + 1];
    }
  }

  /** Applying to the tail of a list is the tail of applying to the list. */
  lemma ApplyTail(s: Subst, args: seq<Term>)
    requires Valid(s) && Acyclic(s) && |args| > 0
    ensures Apply(s, Fn("", args[1..])).args == Apply(s, Fn("", args)).args[1..]
    ensures Size(Apply(s, Fn("", args[1..]))) < Size(Apply(s, Fn("", args)))
  {
    ApplyFn(s, "", args);
    ApplyFn(s, "", args[1..]);
    var m := Apply(s, Fn("", args)).args;
    assert Apply(s, Fn("", args[1..])).args == m[1..];
    assert SizeOfSeq(m) == Size(m[0]) + SizeOfSeq(m[1..]);
  }

  /** Application under an extension stays within the variables of the original list. */
  lemma TailStaysWithin(s: Subst, cur: Subst, args: seq<Term>, w: set<string>)
    requires Valid(s) && Acyclic(s) && Valid(cur) && Acyclic(cur) && Extends(cur, s)
    requires |args| > 0 && Vars(Apply(s, Fn("", args))) <= w
    requires ClosedOver(cur, w)
    ensures Vars(Apply(cur, Fn("", args[1..]))) <= w
  {
    var tail := Fn("", args[1..]);
    ApplyTail(s, args);
    TailVars(Apply(s, Fn("", args)).args);
    ApplyFn(s, "", args[1..]);
    assert Apply(s, tail) == Fn("", Apply(s, Fn("", args)).args[1..]);
    ApplyAbsorbs(cur, s, tail);
    ApplyStaysWithin(cur, Apply(s, tail), w);
  }

  /**
   * After the first pair is unified, the rest of the list is below the
   * whole list: its variables shrink strictly when a binding was added,
   * and its size does when none was.
   */
  lemma TailMeasure(s: Subst, cur: Subst, as1: seq<Term>, as2: seq<Term>)
    requires Valid(s) && Acyclic(s) && |as1| == |as2| > 0
    requires Grows(cur, s) && Bounded(cur, s, PairVars(s, Apply(s, as1[0]), Apply(s, as2[0])))
    requires PairVars(s, Apply(s, as1[0]), Apply(s, as2[0])) <= ListVars(s, as1, as2)
    ensures ListVars(cur, as1[1..], as2[1..]) <= ListVars(s, as1, as2)
    ensures ListVars(cur, as1[1..], as2[1..]) == ListVars(s, as1, as2) ==>
              ListSize(cur, as1[1..], as2[1..])
              < ListSize(s, as1, as2)
  {
    var w := ListVars(s, as1, as2);
    ApplyResolves(s, Fn("", as1));
    ApplyResolves(s, Fn("", as2));
    forall v | v in cur.bindings && v in w ensures Vars(cur.bindings[v]) <= w {
      assert v !in s.bindings;
    }
    TailStaysWithin(s, cur, as1, w);
    TailStaysWithin(s, cur, as2, w);
    if |cur.order| == |s.order| {
      ApplyTail(s, as1);
      ApplyTail(s, as2);
    } else {
      var x := cur.order[|s.order|];
      assert x !in s.order;
      assert x in cur.bindings && x !in s.bindings;
      ApplyResolves(cur, Fn("", as1[1..]));
      ApplyResolves(cur, Fn("", as2[1..]));
      assert x !in ListVars(cur, as1[1..], as2[1..]);
    }
  }

  /** The facts about the first pair and about the rest combine into the facts about the whole list. */
  lemma ArgsStep(s: Subst, cur: Subst, rest: Result<Subst, UnifyError>, as1: seq<Term>, as2: seq<Term>)
    requires Valid(s) && Acyclic(s) && |as1| == |as2| > 0
    requires Grows(cur, s) && Bounded(cur, s, PairVars(s, Apply(s, as1[0]), Apply(s, as2[0])))
    requires Apply(cur, Apply(s, as1[0])) == Apply(cur, Apply(s, as2[0]))
    requires PairVars(s, Apply(s, as1[0]), Apply(s, as2[0])) <= ListVars(s, as1, as2)
    requires ListVars(cur, as1[1..], as2[1..]) <= ListVars(s, as1, as2)
    requires rest.Success? ==> Grows(rest.value, cur) && Bounded(rest.value, cur, ListVars(cur, as1[1..], as2[1..]))
    requires rest.Success? ==> forall k | 0 <= k < |as1[1..]| :: Apply(rest.value, as1[1..][k]) == Apply(rest.value, as2[1..][k])
    ensures rest.Success? ==> Grows(rest.value, s) && Bounded(rest.value, s, ListVars(s, as1, as2))
    ensures rest.Success? ==> forall k | 0 <= k < |as1| :: Apply(rest.value, as1[k]) == Apply(rest.value, as2[k])
  {
    if rest.Success? {
      var r := rest.value;
      GrowsTransitive(r, cur, s);
      BoundedTransitive(r, cur, s, PairVars(s, Apply(s, as1[0]), Apply(s, as2[0])),
                        ListVars(cur, as1[1..], as2[1..]), ListVars(s, as1, as2));
      ApplyAbsorbs(r, cur, Apply(s, as1[0]));
      ApplyAbsorbs(r, cur, Apply(s, as2[0]));
      ApplyAbsorbs(r, s, as1[0]);
      ApplyAbsorbs(r, s, as2[0]);
      forall k | 0 <= k < |as1| ensures Apply(r, as1[k]) == Apply(r, as2[k]) {
        if k > 0 {
          assert as1[1..][k - 1] == as1[k] && as2[1..][k - 1] == as2[k];
        }
      }
    }
  }

  /** Growing twice is growing. */
  lemma GrowsTransitive(r: Subst, cur: Subst, s: Subst)
    requires Grows(cur, s) && Grows(r, cur)
    ensures Grows(r, s)
  {
    assert s.order <= r.order by {
      assert s.order == cur.order[..|s.order|];
      assert cur.order == r.order[..|cur.order|];
    }
  }

  /** The bindings two growth steps add stay within the union of their bounds. */
  lemma BoundedTransitive(r: Subst, cur: Subst, s: Subst, w1: set<string>, w2: set<string>, w: set<string>)
    requires Extends(r, cur) && Bounded(cur, s, w1) && Bounded(r, cur, w2)
    requires w1 <= w && w2 <= w
    ensures Bounded(r, s, w)
  {
  }

  /** `unify(t1, t2, subst)` as the Python method runs it, with the argument loop in `UnifyEach`. */
  method Unify(t1: Term, t2: Term, s: Subst) returns (r: Result<Subst, UnifyError>)
    requires Valid(s) && Acyclic(s)
    ensures r == UnifyTerms(t1, t2, s)
    decreases PairVars(s, t1, t2), PairSize(s, t1, t2), 1
  {
    var u1 := Apply(s, t1);
    var u2 := Apply(s, t2);
    if u1 == u2 {
      return Success(s);
    }
    ApplyResolves(s, t1);
    ApplyResolves(s, t2);
    if u1.Var? {
      return UnifyVar(u1.name, u2, s);
    }
    if u2.Var? {
      return UnifyVar(u2.name, u1, s);
    }
    if u1.Fn? && u2.Fn? {
      if u1.name != u2.name || |u1.args| != |u2.args| {
        return Failure(FunctorMismatch(u1, u2));
      }
      ArgsMeasures(s, t1, t2);
      r := UnifyEach(u1.args, u2.args, s);
      return;
    }
    return Failure(Mismatch(u1, u2));
  }

  /**
   * The `for a1, a2 in zip(...)` loop: apply the running substitution to
   * both arguments, unify them and carry the result on; the first error
   * ends the loop.
   */
  method UnifyEach(as1: seq<Term>, as2: seq<Term>, s: Subst) returns (r: Result<Subst, UnifyError>)
    requires Valid(s) && Acyclic(s) && |as1| == |as2|
    ensures r == UnifyArgs(as1, as2, s)
    decreases ListVars(s, as1, as2), ListSize(s, as1, as2), 0
  {
    var cur := s;
    var i := 0;
    while i < |as1|
      invariant 0 <= i <= |as1|
      invariant Valid(cur) && Acyclic(cur)
      invariant UnifyArgs(as1[i..], as2[i..], cur) == UnifyArgs(as1, as2, s)
      invariant Below(ListVars(cur, as1[i..], as2[i..]), ListSize(cur, as1[i..], as2[i..]),
                      ListVars(s, as1, as2), ListSize(s, as1, as2))
    {
      var a1 := Apply(cur, as1[i]);
      var a2 := Apply(cur, as2[i]);
      EachCall(s, cur, as1, as2, i);
      var step := Unify(a1, a2, cur);
      EachStep(s, cur, step, as1, as2, i);
      if step.Failure? {
        return Failure(step.error);
      }
      cur := step.value;
      i := i + 1;
    }
    return Success(cur);
  }

  /** Measure `(v1, n1)` is at most measure `(v0, n0)` in the lexicographic order. */
  ghost predicate Below(v1: set<string>, n1: nat, v0: set<string>, n0: nat) {
    v1 <= v0 && (v1 == v0 ==> n1 <= n0)
  }

  /** In the loop, the call for pair `i` is strictly below the measure of the whole list. */
  lemma EachCall(s: Subst, cur: Subst, as1: seq<Term>, as2: seq<Term>, i: nat)
    requires Valid(s) && Acyclic(s) && Valid(cur) && Acyclic(cur) && |as1| == |as2| && i < |as1|
    requires Below(ListVars(cur, as1[i..], as2[i..]), ListSize(cur, as1[i..], as2[i..]),
                   ListVars(s, as1, as2), ListSize(s, as1, as2))
    ensures PairVars(cur, Apply(cur, as1[i]), Apply(cur, as2[i])) <= ListVars(s, as1, as2)
    ensures PairVars(cur, Apply(cur, as1[i]), Apply(cur, as2[i])) == ListVars(s, as1, as2) ==>
              PairSize(cur, Apply(cur, as1[i]), Apply(cur, as2[i])) < ListSize(s, as1, as2)
  {
    assert as1[i..][0] == as1[i] && as2[i..][0] == as2[i];
    HeadMeasure(cur, as1[i..], as2[i..]);
  }

  /** `UnifyArgs` on a non-empty list: the first pair, then the rest under its result. */
  lemma ArgsUnfold(as1: seq<Term>, as2: seq<Term>, s: Subst)
    requires Valid(s) && Acyclic(s) && |as1| == |as2| > 0
    ensures var head := UnifyTerms(Apply(s, as1[0]), Apply(s, as2[0]), s);
      && (head.Failure? ==> UnifyArgs(as1, as2, s) == Failure(head.error))
      && (head.Success? ==> UnifyArgs(as1, as2, s) == UnifyArgs(as1[1..], as2[1..], head.value))
  {
  }

  /** One turn of the loop keeps its invariant, or ends it with the error `UnifyArgs` gives. */
  lemma EachStep(s: Subst, cur: Subst, step: Result<Subst, UnifyError>, as1: seq<Term>, as2: seq<Term>, i: nat)
    requires Valid(s) && Acyclic(s) && Valid(cur) && Acyclic(cur) && |as1| == |as2| && i < |as1|
    requires step == UnifyTerms(Apply(cur, as1[i]), Apply(cur, as2[i]), cur)
    requires Below(ListVars(cur, as1[i..], as2[i..]), ListSize(cur, as1[i..], as2[i..]),
                   ListVars(s, as1, as2), ListSize(s, as1, as2))
    ensures step.Failure? ==> UnifyArgs(as1[i..], as2[i..], cur) == Failure(step.error)
    ensures step.Success? ==> Valid(step.value) && Acyclic(step.value)
    ensures step.Success? ==> UnifyArgs(as1[i + 1..], as2[i + 1..], step.value) == UnifyArgs(as1[i..], as2[i..], cur)
    ensures step.Success? ==>
              Below(ListVars(step.value, as1[i + 1..], as2[i + 1..]), ListSize(step.value, as1[i + 1..], as2[i + 1..]),
                    ListVars(s, as1, as2), ListSize(s, as1, as2))
  {
    var xs, ys := as1[i..], as2[i..];
    assert xs[0] == as1[i] && ys[0] == as2[i];
    assert xs[1..] == as1[i + 1..] && ys[1..] == as2[i + 1..];
    ArgsUnfold(xs, ys, cur);
    if step.Success? {
      var next := step.value;
      HeadMeasure(cur, xs, ys);
      TailMeasure(cur, next, xs, ys);
      BelowStep(ListVars(next, xs[1..], ys[1..]), ListSize(next, xs[1..], ys[1..]),
                ListVars(cur, xs, ys), ListSize(cur, xs, ys),
                ListVars(s, as1, as2), ListSize(s, as1, as2));
    }
  }

  /** A strict step below a measure that is itself below a third stays below the third. */
  lemma BelowStep(v2: set<string>, n2: nat, v1: set<string>, n1: nat, v0: set<string>, n0: nat)
    requires v2 <= v1 && (v2 == v1 ==> n2 < n1)
    requires Below(v1, n1, v0, n0)
    ensures Below(v2, n2, v0, n0)
  {
  }

  /**
   * `unify_literals(l1, l2, subst)`: `None` unless the literals are
   * complementary, otherwise the pairwise unification of their arguments,
   * whose error propagates.
   */
  method UnifyLiterals(l1: Literal, l2: Literal, s: Subst) returns (r: Option<Result<Subst, UnifyError>>)
    requires Valid(s) && Acyclic(s)
    ensures r.None? <==> !IsComplementary(l1, l2)
    ensures r.Some? ==> r.value == UnifyArgs(l1.args, l2.args, s)
  {
    if l1.name != l2.name || |l1.args| != |l2.args| {
      return None;
    }
    if l1.negated == l2.negated {
      return None;
    }
    var u := UnifyEach(l1.args, l2.args, s);
    return Some(u);
  }

  /** A successful literal unification turns the two literals into exact complements. */
  lemma UnifiedLiteralsAreComplements(l1: Literal, l2: Literal, s: Subst)
    requires Valid(s) && Acyclic(s) && IsComplementary(l1, l2)
    ensures UnifyArgs(l1.args, l2.args, s).Success? ==>
              var r := UnifyArgs(l1.args, l2.args, s).value;
              ApplyToLiteral(r, l1) == Negate(ApplyToLiteral(r, l2))
  {
    var u := UnifyArgs(l1.args, l2.args, s);
    if u.Success? {
      var r := u.value;
      assert ApplyToLiteral(r, l1).args == ApplyToLiteral(r, l2).args;
    }
  }

  /** `unify` returns its input unchanged exactly when the two sides already agree under it. */
  lemma UnifyUnchangedIffEqual(t1: Term, t2: Term, s: Subst)
    requires Valid(s) && Acyclic(s)
    ensures UnifyTerms(t1, t2, s) == Success(s) <==> Apply(s, t1) == Apply(s, t2)
  {
  }

  /** `unify(t, t)` is the empty substitution. */
  lemma UnifySelfIsEmpty(t: Term)
    ensures UnifyTerms(t, t, Empty()) == Success(Empty())
  {
  }

  /** A resolved variable against a different term containing it fails the occurs check, on either side. */
  lemma OccursCheckFails(x: string, t: Term, s: Subst)
    requires Valid(s) && Acyclic(s) && !Contains(s, x)
    requires Apply(s, t) != Var(x) && Occurs(Apply(s, t), x)
    ensures UnifyTerms(Var(x), t, s) == Failure(OccursCheckFailed(x, Apply(s, t)))
    ensures UnifyTerms(t, Var(x), s) == Failure(OccursCheckFailed(x, Apply(s, t)))
  {
    ApplyVar(s, x);
    OccursIffInVars(Apply(s, t), x);
  }

  /** Applications with different functors or arities fail without binding anything. */
  lemma FunctorMismatchFails(t1: Term, t2: Term, s: Subst)
    requires Valid(s) && Acyclic(s) && Apply(s, t1).Fn? && Apply(s, t2).Fn?
    requires Apply(s, t1).name != Apply(s, t2).name || |Apply(s, t1).args| != |Apply(s, t2).args|
    ensures UnifyTerms(t1, t2, s) == Failure(FunctorMismatch(Apply(s, t1), Apply(s, t2)))
  {
  }

  /** Two different non-variables that are not both applications fail; so do distinct constants. */
  lemma OtherMismatchFails(t1: Term, t2: Term, s: Subst)
    requires Valid(s) && Acyclic(s)
    requires !Apply(s, t1).Var? && !Apply(s, t2).Var? && !(Apply(s, t1).Fn? && Apply(s, t2).Fn?)
    requires Apply(s, t1) != Apply(s, t2)
    ensures UnifyTerms(t1, t2, s) == Failure(Mismatch(Apply(s, t1), Apply(s, t2)))
  {
  }

  /** Applying the substitution before calling `unify` changes nothing, as `unify` applies it again. */
  lemma PreApplicationRedundant(t1: Term, t2: Term, s: Subst)
    requires Valid(s) && Acyclic(s)
    ensures UnifyTerms(Apply(s, t1), Apply(s, t2), s) == UnifyTerms(t1, t2, s)
  {
    ApplyIdempotent(s, t1);
    ApplyIdempotent(s, t2);
  }

  /** No binding made by `unify` is a self-binding. */
  lemma UnifyNeverSelfBinds(t1: Term, t2: Term, s: Subst, v: string)
    requires Valid(s) && Acyclic(s) && UnifyTerms(t1, t2, s).Success?
    requires Contains(UnifyTerms(t1, t2, s).value, v)
    ensures UnifyTerms(t1, t2, s).value.bindings[v] != Var(v)
  {
    AcyclicHasNoSelfBinding(UnifyTerms(t1, t2, s).value, v);
  }
}
