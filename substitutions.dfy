/**
 * Substitutions: finite maps from variable names to terms, kept in the
 * insertion order of the Python dict that holds them, and their application
 * to terms (`Term.apply_substitution`, which dereferences chains of
 * bindings completely).
 */
module Substitutions {
  import opened Wrappers
  import opened Text
  import opened Terms

  /** A `Substitution`: its `mapping`, with the dict's insertion order made explicit. */
  datatype Subst = Subst(order: seq<string>, bindings: map<string, Term>)

  /** The Python `KeyError` of `get` on an absent name. */
  datatype LookupError = KeyError(name: string)

  /** `order` lists each key of `bindings` exactly once. */
  ghost predicate Valid(s: Subst) {
    && (forall i, j | 0 <= i < j < |s.order| :: s.order[i] != s.order[j])
    && (forall v :: v in s.bindings <==> v in s.order)
  }

  /**
   * Acyclicity, in the form the unifier maintains: the binding inserted at
   * position i mentions no variable inserted at a position up to i. Every
   * chain of dereferences therefore moves strictly forward in the insertion
   * order and stops.
   */
  ghost predicate Acyclic(s: Subst)
    requires Valid(s)
  {
    forall i, j | 0 <= j <= i < |s.order| :: s.order[j] !in Vars(s.bindings[s.order[i]])
  }

  /** `Substitution()`: the empty substitution. */
  function Empty(): (r: Subst)
    ensures Valid(r) && Acyclic(r) && IsEmpty(r)
    ensures forall v :: !Contains(r, v)
  {
    Subst([], map[])
  }

  /** `contains(var_name)`. */
  predicate Contains(s: Subst, v: string) {
    v in s.bindings
  }

  /** `get(var_name)`: the bound term, or the lookup error of an absent key. */
  function Get(s: Subst, v: string): (r: Result<Term, LookupError>)
    ensures r.Success? <==> Contains(s, v)
    ensures r.Success? ==> r.value == s.bindings[v]
    ensures r.Failure? ==> r.error == KeyError(v)
  {
    if v in s.bindings then Success(s.bindings[v]) else Failure(KeyError(v))
  }

  /** `is_empty()`: no bindings at all. */
  predicate IsEmpty(s: Subst) {
    |s.bindings| == 0
  }

  /** Nothing is bound exactly when the substitution is empty, and then nothing is listed either. */
  lemma IsEmptyIffNoBindings(s: Subst)
    requires Valid(s)
    ensures IsEmpty(s) <==> (forall v :: !Contains(s, v))
    ensures IsEmpty(s) <==> s.order == []
  {
    if !IsEmpty(s) {
      var v :| v in s.bindings;
      assert Contains(s, v);
      assert v in s.order;
    }
    if s.order != [] {
      assert Contains(s, s.order[0]);
    }
  }

  /**
   * `extend(var_name, term)`: a new substitution with `var_name` bound to
   * `term`, overwriting an earlier binding in place (a dict keeps the key's
   * position) or appending a new one; the receiver is a value and stays as
   * it was.
   */
  function Extend(s: Subst, v: string, t: Term): (r: Subst)
    requires Valid(s)
    ensures Valid(r)
    ensures Contains(r, v) && r.bindings[v] == t
    ensures forall w | w != v :: Contains(r, w) == Contains(s, w)
    ensures forall w | w != v && Contains(s, w) :: Contains(r, w) && r.bindings[w] == s.bindings[w]
    ensures Contains(s, v) ==> r.order == s.order
    ensures !Contains(s, v) ==> r.order == s.order + [v]
  {
    if v in s.bindings then Subst(s.order, s.bindings[v := t])
    else Subst(s.order + [v], s.bindings[v := t])
  }

  /** Position of a key in the insertion order. */
  function IndexOf(order: seq<string>, v: string): (i: nat)
    requires v in order
    ensures i < |order| && order[i] == v
  {
    if order[0] == v then 0 else 1 + IndexOf(order[1..], v)
  }

  /**
   * `apply_substitution`, dereferencing fully. The ghost `lo` only drives
   * termination: no variable inserted before position `lo` occurs in `t`.
   */
  function ApplyFrom(s: Subst, t: Term, ghost lo: nat): Term
    requires Valid(s) && Acyclic(s) && lo <= |s.order|
    requires forall j | 0 <= j < lo :: s.order[j] !in Vars(t)
    decreases |s.order| - lo, t
  {
    match t
    case Var(v) =>
      if Contains(s, v) then
        assert forall j | 0 <= j < lo :: s.order[j] != v by {
          assert v in Vars(t);
        }
        ApplyFrom(s, s.bindings[v], IndexOf(s.order, v) + 1)
      else t
    case Const(_) => t
    case Fn(f, args) =>
      assert forall k, j | 0 <= k < |args| && 0 <= j < lo :: s.order[j] !in Vars(args[k]) by {
        forall k | 0 <= k < |args| ensures Vars(args[k]) <= Vars(t) {
          ArgVars(f, args, k);
        }
      }
      Fn(f, seq(|args|, k requires 0 <= k < |args| => ApplyFrom(s, args[k], lo)))
  }

  /** `subst.apply(term)`, which is `term.apply_substitution(subst)`. */
  function Apply(s: Subst, t: Term): Term
    requires Valid(s) && Acyclic(s)
  {
    ApplyFrom(s, t, 0)
  }

  /** The termination index does not change the value. */
  lemma {:induction false} ApplyFromIsApply(s: Subst, t: Term, lo: nat)
    requires Valid(s) && Acyclic(s) && lo <= |s.order|
    requires forall j | 0 <= j < lo :: s.order[j] !in Vars(t)
    ensures ApplyFrom(s, t, lo) == Apply(s, t)
  {
    match t
    case Var(_) =>
    case Const(_) =>
    case Fn(f, args) =>
      forall k | 0 <= k < |args| ensures ApplyFrom(s, args[k], lo) == ApplyFrom(s, args[k], 0) {
        ApplyFromIsApply(s, args[k], lo);
      }
  }

  /** A constant is left as it is. */
  lemma ApplyConst(s: Subst, c: string)
    requires Valid(s) && Acyclic(s)
    ensures Apply(s, Const(c)) == Const(c)
  {
  }

  /** An unbound variable is left as it is; a bound one becomes its binding, applied again. */
  lemma ApplyVar(s: Subst, v: string)
    requires Valid(s) && Acyclic(s)
    ensures !Contains(s, v) ==> Apply(s, Var(v)) == Var(v)
    ensures Contains(s, v) ==> Apply(s, Var(v)) == Apply(s, s.bindings[v])
  {
    if Contains(s, v) {
      ApplyFromIsApply(s, s.bindings[v], IndexOf(s.order, v) + 1);
    }
  }

  /** An application keeps its functor and arity, and is applied argument by argument. */
  lemma ApplyFn(s: Subst, f: string, args: seq<Term>)
    requires Valid(s) && Acyclic(s)
    ensures Apply(s, Fn(f, args)).Fn? && Apply(s, Fn(f, args)).name == f
    ensures |Apply(s, Fn(f, args)).args| == |args|
    ensures forall k | 0 <= k < |args| :: Apply(s, Fn(f, args)).args[k] == Apply(s, args[k])
  {
  }

  /** No variable of `t` is bound in `s`. */
  ghost predicate Resolved(s: Subst, t: Term) {
    forall v | v in Vars(t) :: !Contains(s, v)
  }

  /** After application no bound variable is left: the result is resolved. */
  lemma {:induction false} ApplyResolves(s: Subst, t: Term)
    requires Valid(s) && Acyclic(s)
    ensures Resolved(s, Apply(s, t))
  {
    ApplyFromResolves(s, t, 0);
  }

  lemma {:induction false} ApplyFromResolves(s: Subst, t: Term, lo: nat)
    requires Valid(s) && Acyclic(s) && lo <= |s.order|
    requires forall j | 0 <= j < lo :: s.order[j] !in Vars(t)
    ensures Resolved(s, ApplyFrom(s, t, lo))
    decreases |s.order| - lo, t
  {
    match t
    case Var(v) =>
      if Contains(s, v) {
        ApplyFromResolves(s, s.bindings[v], IndexOf(s.order, v) + 1);
      }
    case Const(_) =>
    case Fn(f, args) =>
      var r := ApplyFrom(s, t, lo);
      forall k | 0 <= k < |args| ensures Resolved(s, r.args[k]) {
        ApplyFromResolves(s, args[k], lo);
      }
  }

  /** A resolved term is left unchanged. */
  lemma {:induction false} ApplyResolvedIsIdentity(s: Subst, t: Term)
    requires Valid(s) && Acyclic(s) && Resolved(s, t)
    ensures Apply(s, t) == t
  {
    match t
    case Var(v) =>
    case Const(_) =>
    case Fn(f, args) =>
      ApplyFn(s, f, args);
      forall k | 0 <= k < |args| ensures Apply(s, args[k]) == args[k] {
        ArgVars(f, args, k);
        ApplyResolvedIsIdentity(s, args[k]);
      }
      assert Apply(s, t).args == args;
  }

  /** Applying twice is applying once. */
  lemma ApplyIdempotent(s: Subst, t: Term)
    requires Valid(s) && Acyclic(s)
    ensures Apply(s, Apply(s, t)) == Apply(s, t)
  {
    ApplyResolves(s, t);
    ApplyResolvedIsIdentity(s, Apply(s, t));
  }

  /** `big` keeps every binding of `small`, unchanged. */
  ghost predicate Extends(big: Subst, small: Subst) {
    forall v | v in small.bindings :: v in big.bindings && big.bindings[v] == small.bindings[v]
  }

  /** Applying a sub-substitution first makes no difference to the full result. */
  lemma {:induction false} ApplyAbsorbs(big: Subst, small: Subst, t: Term)
    requires Valid(big) && Acyclic(big) && Valid(small) && Acyclic(small)
    requires Extends(big, small)
    ensures Apply(big, Apply(small, t)) == Apply(big, t)
  {
    ApplyFromAbsorbs(big, small, t, 0);
  }

  lemma {:induction false} ApplyFromAbsorbs(big: Subst, small: Subst, t: Term, lo: nat)
    requires Valid(big) && Acyclic(big) && Valid(small) && Acyclic(small)
    requires Extends(big, small)
    requires lo <= |small.order| && forall j | 0 <= j < lo :: small.order[j] !in Vars(t)
    ensures Apply(big, ApplyFrom(small, t, lo)) == Apply(big, t)
    decreases |small.order| - lo, t
  {
    match t
    case Var(v) =>
      if Contains(small, v) {
        var b := small.bindings[v];
        ApplyFromAbsorbs(big, small, b, IndexOf(small.order, v) + 1);
        ApplyVar(big, v);
      }
    case Const(_) =>
    case Fn(f, args) =>
      var r := ApplyFrom(small, t, lo);
      ApplyFn(big, f, r.args);
      ApplyFn(big, f, args);
      forall k | 0 <= k < |args| ensures Apply(big, r.args[k]) == Apply(big, args[k]) {
        ApplyFromAbsorbs(big, small, args[k], lo);
      }
  }

  /**
   * If `w` contains the variables of `t` and the bindings of every key in
   * `w`, application stays inside `w`.
   */
  ghost predicate ClosedOver(s: Subst, w: set<string>) {
    forall v | v in s.bindings && v in w :: Vars(s.bindings[v]) <= w
  }

  lemma {:induction false} ApplyStaysWithin(s: Subst, t: Term, w: set<string>)
    requires Valid(s) && Acyclic(s) && ClosedOver(s, w) && Vars(t) <= w
    ensures Vars(Apply(s, t)) <= w
  {
    ApplyFromStaysWithin(s, t, 0, w);
  }

  lemma {:induction false} ApplyFromStaysWithin(s: Subst, t: Term, lo: nat, w: set<string>)
    requires Valid(s) && Acyclic(s) && ClosedOver(s, w) && Vars(t) <= w
    requires lo <= |s.order| && forall j | 0 <= j < lo :: s.order[j] !in Vars(t)
    ensures Vars(ApplyFrom(s, t, lo)) <= w
    decreases |s.order| - lo, t
  {
    match t
    case Var(v) =>
      if Contains(s, v) {
        ApplyFromStaysWithin(s, s.bindings[v], IndexOf(s.order, v) + 1, w);
      }
    case Const(_) =>
    case Fn(f, args) =>
      var r := ApplyFrom(s, t, lo);
      forall k | 0 <= k < |args| ensures Vars(r.args[k]) <= w {
        ArgVars(f, args, k);
        ApplyFromStaysWithin(s, args[k], lo, w);
      }
  }

  /** An acyclic substitution binds no variable to itself. */
  lemma AcyclicHasNoSelfBinding(s: Subst, v: string)
    requires Valid(s) && Acyclic(s) && Contains(s, v)
    ensures s.bindings[v] != Var(v)
  {
    var i := IndexOf(s.order, v);
    assert s.order[i] !in Vars(s.bindings[s.order[i]]);
  }

  /** Binding an unbound variable to a resolved term that does not contain it keeps acyclicity. */
  lemma ExtendKeepsAcyclic(s: Subst, v: string, t: Term)
    requires Valid(s) && Acyclic(s) && !Contains(s, v)
    requires Resolved(s, t) && v !in Vars(t)
    ensures Acyclic(Extend(s, v, t)) && Extends(Extend(s, v, t), s)
    ensures s.order <= Extend(s, v, t).order
  {
    var r := Extend(s, v, t);
    forall i, j | 0 <= j <= i < |r.order| ensures r.order[j] !in Vars(r.bindings[r.order[i]]) {
      if i < |s.order| {
        assert r.order[i] == s.order[i] && r.order[j] == s.order[j];
        assert r.order[i] != v;
      } else {
        assert r.order[i] == v;
        if j < |s.order| {
          assert r.order[j] in s.bindings;
        }
      }
    }
  }

  /**
   * `__str__`: `{}` when empty, otherwise `{ ` + the pairs `term / name` in
   * insertion order joined by `, ` + ` }`.
   */
  function Render(s: Subst): string
    requires Valid(s)
  {
    if |s.bindings| == 0 then "{}"
    else "{ " + Join(Pairs(s), ", ") + " }"
  }

  /** A single binding prints term first: `{ A / x }`. */
  lemma RenderSingleBinding(v: string, t: Term)
    ensures Valid(Subst([v], map[v := t]))
    ensures Render(Subst([v], map[v := t])) == "{ " + Terms.Render(t) + " / " + v + " }"
  {
    var s := Subst([v], map[v := t]);
    assert |s.bindings| == 1;
  }

  /** The printed pairs, `term / name`, in insertion order. */
  function Pairs(s: Subst): (ps: seq<string>)
    requires Valid(s)
    ensures |ps| == |s.order|
  {
    seq(|s.order|, k requires 0 <= k < |s.order| => Terms.Render(s.bindings[s.order[k]]) + " / " + s.order[k])
  }

  /**
   * Binding a fresh variable adds its pair at the end of the printed list,
   * in insertion order: the old text up to its closing ` }`, then `, `,
   * the new pair and ` }`.
   */
  lemma RenderExtend(s: Subst, v: string, t: Term)
    requires Valid(s) && !IsEmpty(s) && !Contains(s, v)
    ensures Render(Extend(s, v, t)) == Render(s)[..|Render(s)| - 2] + ", " + Terms.Render(t) + " / " + v + " }"
  {
    var r := Extend(s, v, t);
    assert |s.order| >= 1 by {
      var w :| w in s.bindings;
    }
    assert |r.bindings| > 0;
    var pair := Terms.Render(t) + " / " + v;
    PairsExtend(s, v, t);
    JoinSnoc(Pairs(s), ", ", pair);
    RegroupPair(Join(Pairs(s), ", "), Terms.Render(t), v);
  }

  /** The new binding's pair comes after the old ones. */
  lemma PairsExtend(s: Subst, v: string, t: Term)
    requires Valid(s) && !Contains(s, v)
    ensures Pairs(Extend(s, v, t)) == Pairs(s) + [Terms.Render(t) + " / " + v]
  {
    var r := Extend(s, v, t);
    var ps, qs := Pairs(s), Pairs(r);
    forall k | 0 <= k < |ps| ensures qs[k] == ps[k] {
      assert r.order[k] == s.order[k] != v;
    }
  }

  /** Re-bracketing the printed text around the new pair: the old text loses its ` }`, the new pair brings it back. */
  lemma RegroupPair(j: string, term: string, v: string)
    ensures var before := "{ " + j + " }";
      "{ " + (j + ", " + (term + " / " + v)) + " }" == before[..|before| - 2] + ", " + term + " / " + v + " }"
  {
    var before := "{ " + j + " }";
    assert before[..|before| - 2] == "{ " + j;
  }

  /** The empty substitution prints as `{}`. */
  lemma RenderEmpty()
    ensures Render(Empty()) == "{}"
  {
  }
}
