/**
 * The term algebra: variables, constants and function applications, the
 * `occurs` test, sizes, the textual rendering and the older string parser
 * `Term.from_string`.
 */
module Terms {
  import opened Wrappers
  import opened Text
  import Splitting

  /**
   * A first-order term. Python's `@dataclass(frozen=True)` equality is
   * structural and tagged by class, which is exactly datatype equality.
   */
  datatype Term =
    | Var(name: string)
    | Const(symbol: string)
    | Fn(name: string, args: seq<Term>)

  /** `occurs(var_name)`: the variable occurs somewhere in the term. */
  predicate Occurs(t: Term, v: string) {
    match t
    case Var(n) => n == v
    case Const(_) => false
    case Fn(_, args) => exists i | 0 <= i < |args| :: Occurs(args[i], v)
  }

  /** The set of variable names in a term: a reference definition for `Occurs`. */
  function Vars(t: Term): set<string> {
    match t
    case Var(n) => {n}
    case Const(_) => {}
    case Fn(_, args) => set i, v | 0 <= i < |args| && v in Vars(args[i]) :: v
  }

  /** The occurs test agrees with membership in the variable set. */
  lemma {:induction false} OccursIffInVars(t: Term, v: string)
    ensures Occurs(t, v) <==> v in Vars(t)
  {
    match t
    case Var(_) =>
    case Const(_) =>
    case Fn(_, args) =>
      forall i | 0 <= i < |args| ensures Occurs(args[i], v) <==> v in Vars(args[i]) {
        OccursIffInVars(args[i], v);
      }
  }

  /** The variables of an argument are variables of the application. */
  lemma ArgVars(f: string, args: seq<Term>, k: nat)
    requires k < |args|
    ensures Vars(args[k]) <= Vars(Fn(f, args))
  {
  }

  /** Number of nodes; the second component of the unifier's termination measure. */
  function Size(t: Term): nat {
    match t
    case Var(_) => 1
    case Const(_) => 1
    case Fn(_, args) => 1 + SizeOfSeq(args)
  }

  function SizeOfSeq(ts: seq<Term>): nat {
    if ts == [] then 0 else Size(ts[0]) + SizeOfSeq(ts[1..])
  }

  /** Every argument is strictly smaller than the application it sits in. */
  lemma {:induction false} ArgSmaller(f: string, args: seq<Term>, k: nat)
    requires k < |args|
    ensures Size(args[k]) < Size(Fn(f, args))
  {
    ElementBelowSum(args, k);
  }

  lemma {:induction false} ElementBelowSum(ts: seq<Term>, k: nat)
    requires k < |ts|
    ensures Size(ts[k]) <= SizeOfSeq(ts)
  {
    if k > 0 {
      ElementBelowSum(ts[1..], k - 1);
    }
  }

  /** `__str__`: a variable's name, a constant's symbol, `name` or `name(a1, a2, ...)`. */
  function Render(t: Term): string {
    match t
    case Var(n) => n
    case Const(c) => c
    case Fn(f, args) =>
      if |args| == 0 then f
      else f + "(" + Join(seq(|args|, k requires 0 <= k < |args| => Render(args[k])), ", ") + ")"
  }

  /** A nullary function and a constant of the same name print alike but are different terms. */
  lemma NullaryFunctionIsNotConstant(a: string)
    ensures Render(Fn(a, [])) == Render(Const(a))
    ensures Fn(a, []) != Const(a)
  {
  }

  /**
   * `Term.from_string`: strip; text without `(` is a variable when its first
   * character is lowercase and a constant otherwise (the empty text fails,
   * as `text[0]` does); otherwise `(\w+)\((.*)\)` must match and the
   * argument text is split and parsed piece by piece.
   */
  function FromString(text: string): (r: Result<Term, ParseError>)
    decreases |text| + 1, 0
  {
    var t := Strip(text);
    if '(' !in t then
      if |t| == 0 then Failure(EmptyText)
      else if IsLower(t[0]) then Success(Var(t))
      else Success(Const(t))
    else
      match MatchCall(t)
      case None => Failure(InvalidFormat(t))
      case Some(call) =>
        var pieces := Splitting.SplitArgs(call.argsText);
        match FromStrings(pieces, |text|)
        case Failure(e) => Failure(e)
        case Success(args) => Success(Fn(call.name, args))
  }

  /** The list comprehension over the argument pieces: the first failure wins. */
  function FromStrings(pieces: seq<string>, ghost bound: nat): (r: Result<seq<Term>, ParseError>)
    requires forall k | 0 <= k < |pieces| :: |pieces[k]| < bound
    ensures r.Success? ==> |r.value| == |pieces|
    decreases bound, |pieces|
  {
    if pieces == [] then Success([])
    else
      match FromString(pieces[0])
      case Failure(e) => Failure(e)
      case Success(t) =>
        match FromStrings(pieces[1..], bound)
        case Failure(e) => Failure(e)
        case Success(ts) => Success([t] + ts)
  }

  /** Without parentheses the first character decides: lowercase is a variable, anything else a constant. */
  lemma FromStringAtom(text: string)
    requires '(' !in Strip(text) && Strip(text) != ""
    ensures IsLower(Strip(text)[0]) ==> FromString(text) == Success(Var(Strip(text)))
    ensures !IsLower(Strip(text)[0]) ==> FromString(text) == Success(Const(Strip(text)))
  {
  }

  /**
   * With a parenthesis, the text must match the call pattern; then it is
   * an application named by the match whose arguments are the parses of the
   * split pieces, in order, and it fails exactly when one of them does.
   */
  lemma FromStringCall(text: string)
    requires '(' in Strip(text)
    ensures MatchCall(Strip(text)).None? ==> FromString(text) == Failure(InvalidFormat(Strip(text)))
    ensures MatchCall(Strip(text)).Some? ==>
              var call := MatchCall(Strip(text)).value;
              var pieces := Splitting.SplitArgs(call.argsText);
              var r := FromString(text);
              && (r.Success? <==> forall k | 0 <= k < |pieces| :: FromString(pieces[k]).Success?)
              && (r.Success? ==>
                    && r.value.Fn? && r.value.name == call.name && |r.value.args| == |pieces|
                    && forall k | 0 <= k < |pieces| :: r.value.args[k] == FromString(pieces[k]).value)
  {
    var t := Strip(text);
    if MatchCall(t).Some? {
      var call := MatchCall(t).value;
      var pieces := Splitting.SplitArgs(call.argsText);
      assert |call.argsText| < |t| <= |text|;
      FromStringsPointwise(pieces, |text|);
    }
  }

  /** The comprehension, argument by argument: piece `k` gives term `k`, and one failure fails all. */
  lemma {:induction false} FromStringsPointwise(pieces: seq<string>, bound: nat)
    requires forall k | 0 <= k < |pieces| :: |pieces[k]| < bound
    ensures FromStrings(pieces, bound).Success? <==> forall k | 0 <= k < |pieces| :: FromString(pieces[k]).Success?
    ensures FromStrings(pieces, bound).Success? ==>
              forall k | 0 <= k < |pieces| :: FromStrings(pieces, bound).value[k] == FromString(pieces[k]).value
    decreases |pieces|
  {
    if pieces != [] {
      FromStringsPointwise(pieces[1..], bound);
      FromStringsCons(pieces, bound);
      AllCons(FromString, pieces, FromStrings(pieces, bound), FromStrings(pieces[1..], bound));
    }
  }

  /** One turn of the comprehension: the first piece, then the rest. */
  lemma FromStringsCons(pieces: seq<string>, bound: nat)
    requires pieces != [] && forall k | 0 <= k < |pieces| :: |pieces[k]| < bound
    ensures var head, tail := FromString(pieces[0]), FromStrings(pieces[1..], bound);
      && (FromStrings(pieces, bound).Success? <==> head.Success? && tail.Success?)
      && (FromStrings(pieces, bound).Success? ==> FromStrings(pieces, bound).value == [head.value] + tail.value)
  {
  }
}
