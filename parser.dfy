/**
 * `ParserAIMA`: classification of expressions by their first characters
 * and the recursive construction of terms and literals, with the AIMA
 * convention that lowercase names are variables and functions and
 * uppercase names are constants and predicates.
 */
module Parser {
  import opened Wrappers
  import opened Text
  import opened Terms
  import opened Literals
  import Splitting

  /** The strings `detect_type` returns. */
  datatype Kind =
    | KindVariable        // "variable"
    | KindConstant        // "constant"
    | KindFunction        // "function"
    | KindLiteral         // "literal"
    | KindLiteralNegated  // "literal_negated"
    | KindUnknown         // "unknown"

  /** What `parse_expression` returns: a term or a literal. */
  datatype Expr = TermExpr(term: Term) | LiteralExpr(literal: Literal)

  /** The text starts with `¬` or `~`. */
  predicate StartsNegated(t: string) {
    t != "" && IsNegationSign(t[0])
  }

  /** `re.match(r'([a-z]\w*)\((.*)\)', t)`: a call whose name starts lowercase. */
  function MatchLowerCall(t: string): (r: Option<Call>)
    ensures r.Some? ==> MatchCall(t) == r && IsLowerIdent(r.value.name)
    ensures r.None? ==> MatchCall(t).None? || !IsLower(MatchCall(t).value.name[0])
  {
    var m := MatchCall(t);
    if m.Some? && IsLower(m.value.name[0]) then m else None
  }

  /** `re.match(r'([A-Z]\w*)\((.*)\)', t)`: a call whose name starts uppercase. */
  function MatchUpperCall(t: string): (r: Option<Call>)
    ensures r.Some? ==> MatchCall(t) == r && IsUpperIdent(r.value.name)
    ensures r.None? ==> MatchCall(t).None? || !IsUpper(MatchCall(t).value.name[0])
  {
    var m := MatchCall(t);
    if m.Some? && IsUpper(m.value.name[0]) then m else None
  }

  /** The argument text is shorter than the call, and so are its pieces. */
  lemma CallIsLonger(t: string, call: Call)
    requires MatchCall(t) == Some(call)
    ensures |call.argsText| + 3 <= |t|
  {
  }

  /**
   * `detect_type(expr)`, on the stripped text: a negation sign first, then
   * the two identifier shapes, then `([A-Za-z]\w*)\((.*)\)` split by the
   * case of the name's first letter.
   */
  function DetectType(expr: string): (k: Kind)
    ensures k == KindLiteralNegated <==> StartsNegated(Strip(expr))
    ensures k == KindVariable <==> IsLowerIdent(Strip(expr))
    ensures k == KindConstant <==> IsUpperIdent(Strip(expr))
    ensures k == KindLiteral <==> !StartsNegated(Strip(expr)) && MatchUpperCall(Strip(expr)).Some?
    ensures k == KindFunction <==> !StartsNegated(Strip(expr)) && MatchLowerCall(Strip(expr)).Some?
    ensures k == KindUnknown <==>
              && !StartsNegated(Strip(expr)) && !IsLowerIdent(Strip(expr)) && !IsUpperIdent(Strip(expr))
              && MatchLowerCall(Strip(expr)).None? && MatchUpperCall(Strip(expr)).None?
  {
    var t := Strip(expr);
    CallsAreNotIdentifiers(t);
    if StartsNegated(t) then KindLiteralNegated
    else if IsLowerIdent(t) then KindVariable
    else if IsUpperIdent(t) then KindConstant
    else if MatchUpperCall(t).Some? then KindLiteral
    else if MatchLowerCall(t).Some? then KindFunction
    else KindUnknown
  }

  /** Text matching either call pattern is neither identifier shape. */
  lemma CallsAreNotIdentifiers(t: string)
    ensures MatchLowerCall(t).Some? || MatchUpperCall(t).Some? ==> !IsLowerIdent(t) && !IsUpperIdent(t)
  {
    if MatchCall(t).Some? {
      CallIsNotAtom(t, MatchCall(t).value);
    }
  }

  /**
   * The terms the AIMA parser can build: lowercase variables, uppercase or
   * numeric constants, lowercase functors over such terms.
   */
  predicate WellFormed(t: Term) {
    match t
    case Var(n) => IsLowerIdent(n)
    case Const(c) => IsUpperIdent(c) || IsNumeral(c)
    case Fn(f, args) => IsLowerIdent(f) && forall k | 0 <= k < |args| :: WellFormed(args[k])
  }

  /**
   * `parse_term(text)`: on the stripped text, a lowercase identifier is a
   * variable, an uppercase identifier or a digit string a constant, and
   * `([a-z]\w*)\((.*)\)` a function over the parsed pieces of its argument
   * text; anything else is a `ValueError`.
   */
  function ParseTerm(text: string): (r: Result<Term, ParseError>)
    ensures r.Success? ==> WellFormed(r.value)
    ensures r.Success? && r.value.Var? ==> r.value.name == Strip(text)
    ensures r.Success? && r.value.Const? ==> r.value.symbol == Strip(text)
    decreases |text| + 1, 0, 1
  {
    var t := Strip(text);
    if IsLowerIdent(t) then Success(Var(t))
    else if IsUpperIdent(t) || IsNumeral(t) then Success(Const(t))
    else
      match MatchLowerCall(t)
      case None => Failure(InvalidFormat(t))
      case Some(call) =>
        CallIsLonger(t, call);
        ParseApplication(call)
  }

  /**
   * `parse_term` in full: a lowercase identifier is a variable; otherwise an
   * uppercase identifier or a digit string is a constant; otherwise the text
   * must match the lowercase call pattern, or the result is the
   * invalid-format error; on a match it succeeds exactly when every split
   * piece parses, and then gives the application of the matched name to the
   * pieces' terms in order.
   */
  lemma ParseTermShape(text: string)
    ensures var t := Strip(text); IsLowerIdent(t) ==> ParseTerm(text) == Success(Var(t))
    ensures var t := Strip(text);
      !IsLowerIdent(t) && (IsUpperIdent(t) || IsNumeral(t)) ==> ParseTerm(text) == Success(Const(t))
    ensures var t := Strip(text);
      !IsLowerIdent(t) && !IsUpperIdent(t) && !IsNumeral(t) && MatchLowerCall(t).None? ==>
        ParseTerm(text) == Failure(InvalidFormat(t))
    ensures var t := Strip(text);
      !IsLowerIdent(t) && !IsUpperIdent(t) && !IsNumeral(t) && MatchLowerCall(t).Some? ==>
        var call := MatchLowerCall(t).value;
        var pieces := Splitting.SplitArgs(call.argsText);
        var r := ParseTerm(text);
        && (r.Success? <==> forall k | 0 <= k < |pieces| :: ParseTerm(pieces[k]).Success?)
        && (r.Success? ==>
              && r.value.Fn? && r.value.name == call.name
              && |r.value.args| == |pieces|
              && forall k | 0 <= k < |pieces| :: r.value.args[k] == ParseTerm(pieces[k]).value)
  {
    var t := Strip(text);
    if !IsLowerIdent(t) && !IsUpperIdent(t) && !IsNumeral(t) && MatchLowerCall(t).Some? {
      var call := MatchLowerCall(t).value;
      var pieces := Splitting.SplitArgs(call.argsText);
      CallIsLonger(t, call);
      assert ParseTerm(text) == ParseApplication(call);
      assert ParseArguments(call.argsText) == ParseTerms(pieces, |call.argsText| + 1);
      ParseTermsPointwise(pieces, |call.argsText| + 1);
    }
  }

  /** The function branch of `parse_term`: the functor over the parsed arguments. */
  function ParseApplication(call: Call): (r: Result<Term, ParseError>)
    requires IsLowerIdent(call.name)
    ensures r.Success? ==> r.value.Fn? && r.value.name == call.name && WellFormed(r.value)
    decreases |call.argsText| + 2, 0, 1
  {
    match ParseArguments(call.argsText)
    case Failure(e) => Failure(e)
    case Success(args) => Success(Fn(call.name, args))
  }

  /** The pieces of an argument text parsed as terms: `[parse_term(arg) for arg in self._split_arguments(args_str)]`. */
  function ParseArguments(argsText: string): (r: Result<seq<Term>, ParseError>)
    ensures r.Success? ==> forall k | 0 <= k < |r.value| :: WellFormed(r.value[k])
    decreases |argsText| + 2, 0, 0
  {
    ParseTerms(Splitting.SplitArgs(argsText), |argsText| + 1)
  }

  /** The comprehension `[parse_term(arg) for arg in pieces]`: the first failure wins. */
  function ParseTerms(pieces: seq<string>, ghost bound: nat): (r: Result<seq<Term>, ParseError>)
    requires forall k | 0 <= k < |pieces| :: |pieces[k]| < bound
    ensures r.Success? ==> |r.value| == |pieces|
    ensures r.Success? ==> forall k | 0 <= k < |r.value| :: WellFormed(r.value[k])
    decreases bound, |pieces|
  {
    if pieces == [] then Success([])
    else
      match ParseTerm(pieces[0])
      case Failure(e) => Failure(e)
      case Success(t) =>
        match ParseTerms(pieces[1..], bound)
        case Failure(e) => Failure(e)
        case Success(ts) =>
          assert forall k | 0 <= k < |[t] + ts| :: ([t] + ts)[k] == if k == 0 then t else ts[k - 1];
          Success([t] + ts)
  }

  /**
   * `parse_literal(text)`: strip, drop one leading `¬` or `~` (and the
   * blanks after it) and set the flag, then require
   * `([A-Z]\w*)\((.*)\)` and parse the pieces of the argument text as terms.
   */
  function ParseLiteral(text: string): (r: Result<Literal, ParseError>)
    ensures r.Success? ==> r.value.negated == StartsNegated(Strip(text))
    ensures r.Success? ==> IsUpperIdent(r.value.name)
    ensures r.Success? ==> forall k | 0 <= k < |r.value.args| :: WellFormed(r.value.args[k])
  {
    var t := Strip(text);
    var negated := StartsNegated(t);
    var body := LiteralBody(t);
    match MatchUpperCall(body)
    case None => Failure(InvalidFormat(body))
    case Some(call) =>
      match ParseArguments(call.argsText)
      case Failure(e) => Failure(e)
      case Success(args) => Success(Literal(call.name, args, negated))
  }

  /** The stripped text after one leading sign, or the text itself when there is none. */
  function LiteralBody(t: string): string {
    if StartsNegated(t) then Strip(t[1..]) else t
  }

  /**
   * `parse_literal` in full: the body after the sign must match the
   * uppercase call pattern, or the result is the invalid-format error on
   * the body; on a match it succeeds exactly when every split piece parses,
   * and then gives the literal with the matched name, the sign's polarity
   * and the pieces' terms in order.
   */
  lemma ParseLiteralShape(text: string)
    ensures var body := LiteralBody(Strip(text));
      MatchUpperCall(body).None? ==> ParseLiteral(text) == Failure(InvalidFormat(body))
    ensures var body := LiteralBody(Strip(text));
      MatchUpperCall(body).Some? ==>
        var call := MatchUpperCall(body).value;
        var pieces := Splitting.SplitArgs(call.argsText);
        var r := ParseLiteral(text);
        && (r.Success? <==> forall k | 0 <= k < |pieces| :: ParseTerm(pieces[k]).Success?)
        && (r.Success? ==>
              && r.value.name == call.name && r.value.negated == StartsNegated(Strip(text))
              && |r.value.args| == |pieces|
              && forall k | 0 <= k < |pieces| :: r.value.args[k] == ParseTerm(pieces[k]).value)
  {
    var body := LiteralBody(Strip(text));
    if MatchUpperCall(body).Some? {
      var call := MatchUpperCall(body).value;
      var pieces := Splitting.SplitArgs(call.argsText);
      CallIsLonger(body, call);
      assert ParseArguments(call.argsText) == ParseTerms(pieces, |call.argsText| + 1);
      ParseTermsPointwise(pieces, |call.argsText| + 1);
    }
  }

  /** `parse_expression(text)`: dispatch on `detect_type`. */
  function ParseExpression(text: string): (r: Result<Expr, ParseError>)
    ensures r.Success? && r.value.LiteralExpr? ==> DetectType(text) in {KindLiteral, KindLiteralNegated}
    ensures r.Success? && r.value.TermExpr? ==> DetectType(text) in {KindVariable, KindConstant, KindFunction}
    ensures DetectType(text) in {KindLiteral, KindLiteralNegated} ==>
              && (r.Success? <==> ParseLiteral(text).Success?)
              && (r.Success? ==> r.value == LiteralExpr(ParseLiteral(text).value))
              && (r.Failure? ==> r.error == ParseLiteral(text).error)
    ensures DetectType(text) in {KindVariable, KindConstant, KindFunction} ==>
              && (r.Success? <==> ParseTerm(text).Success?)
              && (r.Success? ==> r.value == TermExpr(ParseTerm(text).value))
              && (r.Failure? ==> r.error == ParseTerm(text).error)
    ensures DetectType(text) == KindUnknown ==> r == Failure(UnknownKind(text))
  {
    var kind := DetectType(text);
    if kind == KindLiteral || kind == KindLiteralNegated then
      match ParseLiteral(text)
      case Failure(e) => Failure(e)
      case Success(l) => Success(LiteralExpr(l))
    else if kind == KindVariable || kind == KindConstant || kind == KindFunction then
      match ParseTerm(text)
      case Failure(e) => Failure(e)
      case Success(t) => Success(TermExpr(t))
    else
      Failure(UnknownKind(text))
  }

  /** A leading `¬` or `~` makes the text a negated literal, whatever follows. */
  lemma NegationIsDetected(c: char, rest: string)
    requires IsNegationSign(c)
    ensures DetectType([c] + rest) == KindLiteralNegated
  {
    var s := [c] + rest;
    assert TrimLeft(s) == s;
    assert TrimRight(s) != [] by {
      assert !IsSpace(s[0]);
    }
  }

  /** The kind `detect_type` reports is the shape the parsers then produce. */
  lemma KindsAgreeWithParsers(text: string)
    ensures DetectType(text) == KindVariable ==> ParseTerm(text) == Success(Var(Strip(text)))
    ensures DetectType(text) == KindConstant ==> ParseTerm(text) == Success(Const(Strip(text)))
    ensures DetectType(text) == KindFunction && ParseTerm(text).Success? ==>
              ParseTerm(text).value.Fn? && ParseTerm(text).value.name == MatchLowerCall(Strip(text)).value.name
    ensures DetectType(text) == KindLiteral && ParseLiteral(text).Success? ==> !ParseLiteral(text).value.negated
    ensures DetectType(text) == KindLiteralNegated && ParseLiteral(text).Success? ==> ParseLiteral(text).value.negated
  {
    var t := Strip(text);
    if DetectType(text) == KindFunction {
      var call := MatchLowerCall(t).value;
      assert t[|call.name|] == '(';
      assert !AllWord(t);
      assert !IsNumeral(t) by {
        assert !IsDigit(t[|call.name|]);
      }
    }
  }

  /** A text containing `(` is neither an identifier nor a digit string. */
  lemma CallIsNotAtom(t: string, call: Call)
    requires MatchCall(t) == Some(call)
    ensures !IsLowerIdent(t) && !IsUpperIdent(t) && !IsNumeral(t) && !StartsNegated(t)
  {
    assert t[|call.name|] == '(';
    assert !IsWordChar(t[|call.name|]);
    assert t[0] == call.name[0];
  }

  /**
   * A digit string is a constant to `parse_term` but of unknown kind to
   * `detect_type`, so `parse_expression` rejects it.
   */
  lemma NumeralIsUnknownKind(text: string)
    requires IsNumeral(Strip(text))
    ensures ParseTerm(text) == Success(Const(Strip(text)))
    ensures DetectType(text) == KindUnknown
    ensures ParseExpression(text) == Failure(UnknownKind(text))
  {
    var t := Strip(text);
    assert AllWord(t) by {
      forall i | 0 <= i < |t| ensures IsWordChar(t[i]) {
        assert IsDigit(t[i]);
      }
    }
    AllWordPrefix(t);
    assert MatchCall(t).None?;
    assert IsDigit(t[0]);
    assert !StartsNegated(t) && !IsLowerIdent(t) && !IsUpperIdent(t);
    assert DetectType(text) == KindUnknown;
  }

  /** `parse_term` rejects a call whose functor starts uppercase. */
  lemma UppercaseFunctorRejected(text: string)
    requires MatchUpperCall(Strip(text)).Some?
    ensures ParseTerm(text) == Failure(InvalidFormat(Strip(text)))
  {
    CallIsNotAtom(Strip(text), MatchUpperCall(Strip(text)).value);
  }

  /** `parse_literal` rejects a predicate whose name starts lowercase. */
  lemma LowercasePredicateRejected(text: string)
    requires !StartsNegated(Strip(text)) && MatchLowerCall(Strip(text)).Some?
    ensures ParseLiteral(text) == Failure(InvalidFormat(Strip(text)))
  {
  }

  /**
   * Whatever follows the last `)` of the line is ignored: two texts whose
   * calls have the same lowercase name and the same argument text parse to
   * the same term.
   */
  lemma TrailingTextIgnoredByParseTerm(a: string, b: string)
    requires MatchLowerCall(Strip(a)).Some? && MatchLowerCall(Strip(b)).Some?
    requires MatchCall(Strip(a)).value.name == MatchCall(Strip(b)).value.name
    requires MatchCall(Strip(a)).value.argsText == MatchCall(Strip(b)).value.argsText
    ensures ParseTerm(a) == ParseTerm(b)
  {
    var ta, tb := Strip(a), Strip(b);
    var ca, cb := MatchCall(ta).value, MatchCall(tb).value;
    CallIsNotAtom(ta, ca);
    CallIsNotAtom(tb, cb);
    assert ParseTerm(a) == match ParseArguments(ca.argsText)
                           case Failure(e) => Failure(e)
                           case Success(args) => Success(Fn(ca.name, args));
    assert ParseTerm(b) == match ParseArguments(cb.argsText)
                           case Failure(e) => Failure(e)
                           case Success(args) => Success(Fn(cb.name, args));
  }

  /**
   * The same for literals, on the body after the sign: two texts of the
   * same polarity whose bodies have calls with the same uppercase name and
   * the same argument text parse to the same literal.
   */
  lemma TrailingTextIgnoredByParseLiteral(a: string, b: string)
    requires StartsNegated(Strip(a)) == StartsNegated(Strip(b))
    requires MatchUpperCall(LiteralBody(Strip(a))).Some? && MatchUpperCall(LiteralBody(Strip(b))).Some?
    requires MatchCall(LiteralBody(Strip(a))).value.name == MatchCall(LiteralBody(Strip(b))).value.name
    requires MatchCall(LiteralBody(Strip(a))).value.argsText == MatchCall(LiteralBody(Strip(b))).value.argsText
    ensures ParseLiteral(a) == ParseLiteral(b)
  {
    var ca, cb := MatchUpperCall(LiteralBody(Strip(a))).value, MatchUpperCall(LiteralBody(Strip(b))).value;
    assert ca.name == cb.name && ca.argsText == cb.argsText;
    assert ParseLiteral(a) == match ParseArguments(ca.argsText)
      case Failure(e) => Failure(e)
      case Success(args) => Success(Literal(ca.name, args, StartsNegated(Strip(a))));
  }

  /** The comprehension succeeds exactly when every piece parses, and then holds their parses in order. */
  lemma {:induction false} ParseTermsPointwise(pieces: seq<string>, bound: nat)
    requires forall k | 0 <= k < |pieces| :: |pieces[k]| < bound
    ensures ParseTerms(pieces, bound).Success? <==> forall k | 0 <= k < |pieces| :: ParseTerm(pieces[k]).Success?
    ensures ParseTerms(pieces, bound).Success? ==>
              forall k | 0 <= k < |pieces| :: ParseTerms(pieces, bound).value[k] == ParseTerm(pieces[k]).value
    decreases |pieces|
  {
    if pieces != [] {
      ParseTermsPointwise(pieces[1..], bound);
      ParseTermsCons(pieces, bound);
      AllCons(ParseTerm, pieces, ParseTerms(pieces, bound), ParseTerms(pieces[1..], bound));
    }
  }

  /** One turn of the comprehension: the first piece, then the rest. */
  lemma ParseTermsCons(pieces: seq<string>, bound: nat)
    requires pieces != [] && forall k | 0 <= k < |pieces| :: |pieces[k]| < bound
    ensures var head, tail := ParseTerm(pieces[0]), ParseTerms(pieces[1..], bound);
      && (ParseTerms(pieces, bound).Success? <==> head.Success? && tail.Success?)
      && (ParseTerms(pieces, bound).Success? ==> ParseTerms(pieces, bound).value == [head.value] + tail.value)
  {
  }
}
