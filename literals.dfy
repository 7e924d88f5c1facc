/** Literals: a predicate symbol applied to terms, possibly negated. */
module Literals {
  import opened Wrappers
  import opened Text
  import opened Terms
  import opened Substitutions
  import Splitting

  datatype Literal = Literal(name: string, args: seq<Term>, negated: bool)

  /** `negate()`: the same predicate and arguments with the flag flipped. */
  function Negate(l: Literal): (r: Literal)
    ensures r.name == l.name && r.args == l.args && r.negated != l.negated
  {
    Literal(l.name, l.args, !l.negated)
  }

  /** Negating twice gives the literal back. */
  lemma NegateInvolutive(l: Literal)
    ensures Negate(Negate(l)) == l
  {
  }

  /** `is_complementary(other)`: same name, same arity, opposite flags. */
  predicate IsComplementary(l1: Literal, l2: Literal) {
    l1.name == l2.name && |l1.args| == |l2.args| && l1.negated != l2.negated
  }

  /** Complementarity does not depend on the order of the two literals. */
  lemma ComplementarySymmetric(l1: Literal, l2: Literal)
    ensures IsComplementary(l1, l2) <==> IsComplementary(l2, l1)
  {
  }

  /** Every literal is complementary to its negation, and never to itself. */
  lemma ComplementaryToNegation(l: Literal)
    ensures IsComplementary(l, Negate(l))
    ensures !IsComplementary(l, l)
  {
  }

  /** `apply_substitution`: name and flag kept, each argument substituted. */
  function ApplyToLiteral(s: Subst, l: Literal): (r: Literal)
    requires Valid(s) && Acyclic(s)
    ensures r.name == l.name && r.negated == l.negated && |r.args| == |l.args|
    ensures forall k | 0 <= k < |l.args| :: r.args[k] == Apply(s, l.args[k])
  {
    Literal(l.name, seq(|l.args|, k requires 0 <= k < |l.args| => Apply(s, l.args[k])), l.negated)
  }

  /** Applying a substitution twice to a literal is applying it once. */
  lemma ApplyToLiteralIdempotent(s: Subst, l: Literal)
    requires Valid(s) && Acyclic(s)
    ensures ApplyToLiteral(s, ApplyToLiteral(s, l)) == ApplyToLiteral(s, l)
  {
    var once := ApplyToLiteral(s, l);
    forall k | 0 <= k < |l.args| ensures Apply(s, once.args[k]) == once.args[k] {
      ApplyIdempotent(s, l.args[k]);
    }
  }

  /**
   * `equals(other)`: names and flags agree and so does every pair of
   * arguments that `zip` forms; the arities are never compared.
   */
  predicate Equals(l1: Literal, l2: Literal) {
    && l1.name == l2.name
    && l1.negated == l2.negated
    && forall k | 0 <= k < |l1.args| && k < |l2.args| :: l1.args[k] == l2.args[k]
  }

  /** Because `zip` stops at the shorter list, a literal equals any longer one extending its arguments. */
  lemma EqualsIgnoresExtraArguments(l: Literal, extra: seq<Term>)
    requires extra != []
    ensures Equals(l, Literal(l.name, l.args + extra, l.negated))
    ensures Equals(Literal(l.name, l.args + extra, l.negated), l)
    ensures l != Literal(l.name, l.args + extra, l.negated)
  {
    assert |l.args + extra| != |l.args|;
  }

  /** `__str__`: an optional `¬`, the name, and the arguments in parentheses joined by `, `. */
  function Render(l: Literal): string {
    (if l.negated then "\U{00AC}" else "")
      + l.name + "(" + Join(seq(|l.args|, k requires 0 <= k < |l.args| => Terms.Render(l.args[k])), ", ") + ")"
  }

  /** A literal without arguments still prints its parentheses, and negation only adds the sign. */
  lemma RenderShapes(name: string, args: seq<Term>)
    ensures Render(Literal(name, [], false)) == name + "()"
    ensures Render(Literal(name, args, true)) == "\U{00AC}" + Render(Literal(name, args, false))
  {
  }

  /** The stripped text carries a leading `~` or `¬`. */
  predicate Negated(text: string) {
    var t := Strip(text);
    t != "" && IsNegationSign(t[0])
  }

  /** The text after the optional negation sign and the blanks after it. */
  function Body(text: string): (b: string)
    ensures |b| <= |text|
  {
    var t := Strip(text);
    if Negated(text) then Strip(t[1..]) else t
  }

  /**
   * `Literal.from_string`: strip, drop one leading `~` or `¬` (and the
   * blanks after it) and remember it as the flag, then match
   * `(\w+)\((.*)\)` and parse each argument with `Term.from_string`.
   */
  function FromString(text: string): (r: Result<Literal, ParseError>)
    ensures r.Success? ==> r.value.negated == Negated(text)
  {
    var body := Body(text);
    match MatchCall(body)
    case None => Failure(InvalidFormat(body))
    case Some(call) =>
      assert |call.argsText| < |body| <= |text|;
      match Terms.FromStrings(Splitting.SplitArgs(call.argsText), |text|)
      case Failure(e) => Failure(e)
      case Success(args) => Success(Literal(call.name, args, Negated(text)))
  }

  /**
   * The body must match the call pattern; then the literal is named by the
   * match, carries the flag, and its arguments are the `Term.from_string`
   * parses of the split pieces, in order; it fails exactly when one does.
   */
  lemma FromStringShape(text: string)
    ensures MatchCall(Body(text)).None? ==> FromString(text) == Failure(InvalidFormat(Body(text)))
    ensures MatchCall(Body(text)).Some? ==>
              var call := MatchCall(Body(text)).value;
              var pieces := Splitting.SplitArgs(call.argsText);
              var r := FromString(text);
              && (r.Success? <==> forall k | 0 <= k < |pieces| :: Terms.FromString(pieces[k]).Success?)
              && (r.Success? ==>
                    && r.value.name == call.name && r.value.negated == Negated(text) && |r.value.args| == |pieces|
                    && forall k | 0 <= k < |pieces| :: r.value.args[k] == Terms.FromString(pieces[k]).value)
  {
    var body := Body(text);
    if MatchCall(body).Some? {
      var call := MatchCall(body).value;
      assert |call.argsText| < |body| <= |text|;
      Terms.FromStringsPointwise(Splitting.SplitArgs(call.argsText), |text|);
    }
  }
}
