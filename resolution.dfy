/** `Resolution.unify_literals`: literal unification that raises instead of returning `None`. */
module Resolution {
  import opened Wrappers
  import opened Terms
  import opened Substitutions
  import opened Literals
  import opened Unifier

  /**
   * Fail on different names or arities, then on equal polarities;
   * otherwise start from the empty substitution and unify the argument
   * pairs from left to right, passing each pair to `unify` as it is.
   */
  method UnifyLiterals(l1: Literal, l2: Literal) returns (r: Result<Subst, UnifyError>)
    ensures (l1.name != l2.name || |l1.args| != |l2.args|) ==> r == Failure(LiteralMismatch(l1, l2))
    ensures l1.name == l2.name && |l1.args| == |l2.args| && l1.negated == l2.negated ==>
              r == Failure(NotComplementary(l1, l2))
    ensures IsComplementary(l1, l2) ==> r == UnifyArgs(l1.args, l2.args, Empty())
  {
    if l1.name != l2.name || |l1.args| != |l2.args| {
      return Failure(LiteralMismatch(l1, l2));
    }
    if l1.negated == l2.negated {
      return Failure(NotComplementary(l1, l2));
    }
    var cur := Empty();
    var i := 0;
    while i < |l1.args|
      invariant 0 <= i <= |l1.args|
      invariant Valid(cur) && Acyclic(cur)
      invariant UnifyArgs(l1.args[i..], l2.args[i..], cur) == UnifyArgs(l1.args, l2.args, Empty())
    {
      var step := Unify(l1.args[i], l2.args[i], cur);
      PreApplicationRedundant(l1.args[i], l2.args[i], cur);
      assert l1.args[i..][0] == l1.args[i] && l2.args[i..][0] == l2.args[i];
      assert l1.args[i..][1..] == l1.args[i + 1..] && l2.args[i..][1..] == l2.args[i + 1..];
      if step.Failure? {
        return Failure(step.error);
      }
      cur := step.value;
      i := i + 1;
    }
    return Success(cur);
  }
}
