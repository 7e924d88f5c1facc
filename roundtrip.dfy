/**
 * Printing a term and reading it back. `__str__` writes a term as its name,
 * or as `name(a1, a2, ...)`; both parsers read that text back to the same
 * term whenever the term is one they can build and has no nullary
 * application (those print as a bare name, like a constant or variable).
 */
module RoundTrip {
  import opened Wrappers
  import opened Text
  import opened Splitting
  import opened Terms
  import Parser

  /** Every function application has at least one argument. */
  predicate NoNullary(t: Term) {
    match t
    case Fn(_, args) => |args| > 0 && forall k | 0 <= k < |args| :: NoNullary(args[k])
    case _ => true
  }

  /** No newline: the whole text is on the line that `.` can match. */
  predicate NoNewline(r: string) {
    forall i | 0 <= i < |r| :: r[i] != '\n'
  }

  /**
   * Starting at depth `d`, the depth never goes below 0 and every comma lies
   * inside parentheses.
   */
  predicate Shape(r: string, d: int)
    decreases |r|
  {
    if r == [] then d >= 0
    else
      var p, c := r[..|r| - 1], r[|r| - 1];
      && Shape(p, d) && d + Depth(r) >= 0 && (c == ',' ==> d + Depth(p) > 0)
  }

  /** Non-empty, with no whitespace at either end. */
  predicate Trimmed(r: string) {
    r != [] && !IsSpace(r[0]) && !IsSpace(r[|r| - 1])
  }

  /** What every printed term looks like. */
  predicate Printed(r: string) {
    && Trimmed(r)
    && Depth(r) == 0 && Shape(r, 0) && NoNewline(r)
  }

  /**
   * Printing then parsing with `ParserAIMA.parse_term` gives the term back,
   * for every term the parser can build that has no nullary application.
   */
  lemma {:induction false} PrintThenParse(t: Term)
    requires Parser.WellFormed(t) && NoNullary(t)
    ensures Printed(Render(t)) && Parser.ParseTerm(Render(t)) == Success(t)
    decreases t
  {
    match t
    case Var(n) =>
      AtomPrinted(n);
    case Const(c) =>
      AtomPrinted(c);
    case Fn(f, args) =>
      var rs := seq(|args|, k requires 0 <= k < |args| => Render(args[k]));
      forall k | 0 <= k < |args| ensures Printed(rs[k]) && Parser.ParseTerm(rs[k]) == Success(args[k]) {
        PrintThenParse(args[k]);
      }
      var j := Join(rs, ", ");
      assert Render(t) == f + "(" + j + ")";
      ApplicationPrinted(f, rs);
      PrintedCall(f, rs);
      ArgumentsParsed(j, rs, args);
      CallParsed(f + "(" + j + ")", Call(f, j, ""), args);
  }

  /**
   * Printing then parsing with the older `Term.from_string` gives the term
   * back under the same conditions.
   */
  lemma {:induction false} PrintThenFromString(t: Term)
    requires Parser.WellFormed(t) && NoNullary(t)
    ensures Printed(Render(t)) && FromString(Render(t)) == Success(t)
    decreases t
  {
    match t
    case Var(n) =>
      AtomPrinted(n);
      AtomHasNoParenthesis(n);
    case Const(c) =>
      AtomPrinted(c);
      AtomHasNoParenthesis(c);
    case Fn(f, args) =>
      var rs := seq(|args|, k requires 0 <= k < |args| => Render(args[k]));
      forall k | 0 <= k < |args| ensures Printed(rs[k]) && FromString(rs[k]) == Success(args[k]) {
        PrintThenFromString(args[k]);
      }
      assert Render(t) == f + "(" + Join(rs, ", ") + ")";
      ApplicationPrinted(f, rs);
      ApplicationFromString(f, args, rs);
  }

  /** An identifier or numeral prints as itself and is read back by `parse_term`. */
  lemma AtomPrinted(a: string)
    requires IsLowerIdent(a) || IsUpperIdent(a) || IsNumeral(a)
    ensures Printed(a)
    ensures IsLowerIdent(a) ==> Parser.ParseTerm(a) == Success(Var(a))
    ensures !IsLowerIdent(a) ==> Parser.ParseTerm(a) == Success(Const(a))
  {
    assert AllWord(a);
    WordShape(a);
    StripKeeps(a);
  }

  lemma AtomHasNoParenthesis(a: string)
    requires AllWord(a)
    ensures '(' !in a
  {
  }

  /** Word characters hold no parenthesis or comma. */
  lemma {:induction false} WordShape(s: string)
    requires AllWord(s)
    ensures Depth(s) == 0 && Shape(s, 0) && NoNewline(s)
    decreases |s|
  {
    if s != [] {
      WordShape(s[..|s| - 1]);
    }
  }

  /** Stripping a printed text, or one with a blank in front, gives the text. */
  lemma StripKeeps(r: string)
    requires Trimmed(r)
    ensures Strip(r) == r && Strip(" " + r) == r
  {
    assert TrimLeft(r) == r;
    assert (" " + r)[1..] == r;
    assert TrimLeft(" " + r) == r;
    assert TrimRight(r) == r;
  }

  /** Depth adds up over a concatenation. */
  lemma {:induction false} DepthConcat(x: string, y: string)
    ensures Depth(x + y) == Depth(x) + Depth(y)
    decreases |y|
  {
    if y == [] {
      assert x + y == x;
    } else {
      var y' := y[..|y| - 1];
      DepthConcat(x, y');
      assert (x + y)[..|x + y| - 1] == x + y';
      assert (x + y)[|x + y| - 1] == y[|y| - 1];
    }
  }

  /** The shape of a concatenation: the second part starts at the depth the first ends at. */
  lemma {:induction false} ShapeConcat(x: string, y: string, d: int)
    requires Shape(x, d) && Shape(y, d + Depth(x))
    ensures Shape(x + y, d) && Depth(x + y) == Depth(x) + Depth(y)
    decreases |y|
  {
    DepthConcat(x, y);
    if y == [] {
      assert x + y == x;
    } else {
      var y' := y[..|y| - 1];
      ShapeConcat(x, y', d);
      assert (x + y)[..|x + y| - 1] == x + y';
      assert (x + y)[|x + y| - 1] == y[|y| - 1];
    }
  }

  lemma NoNewlineConcat(x: string, y: string)
    requires NoNewline(x) && NoNewline(y)
    ensures NoNewline(x + y)
  {
    forall i | 0 <= i < |x + y| ensures (x + y)[i] != '\n' {
      if i >= |x| {
        assert (x + y)[i] == y[i - |x|];
      }
    }
  }

  /** Starting deeper keeps the shape. */
  lemma {:induction false} ShapeDeeper(r: string, d: int, e: int)
    requires Shape(r, d) && d <= e
    ensures Shape(r, e)
    decreases |r|
  {
    if r != [] {
      ShapeDeeper(r[..|r| - 1], d, e);
    }
  }

  lemma OpenShape()
    ensures Depth("(") == 1 && Shape("(", 0) && NoNewline("(")
  {
    assert "("[..0] == [];
  }

  lemma CloseShape()
    ensures Depth(")") == -1 && Shape(")", 1) && NoNewline(")")
  {
    assert ")"[..0] == [];
  }

  lemma SeparatorShape()
    ensures Depth(", ") == 0 && Shape(", ", 1) && NoNewline(", ")
  {
    assert ", "[..1] == "," && ","[..0] == [];
  }

  /** Arguments joined by `, `: balanced, and inside one pair of parentheses every comma is nested. */
  lemma {:induction false} JoinShape(rs: seq<string>)
    requires |rs| >= 1 && forall k | 0 <= k < |rs| :: Printed(rs[k])
    ensures Depth(Join(rs, ", ")) == 0 && Shape(Join(rs, ", "), 1) && NoNewline(Join(rs, ", "))
    decreases |rs|
  {
    ShapeDeeper(rs[0], 0, 1);
    if |rs| > 1 {
      var rest := Join(rs[1..], ", ");
      JoinShape(rs[1..]);
      SeparatorShape();
      ShapeConcat(rs[0], ", ", 1);
      NoNewlineConcat(rs[0], ", ");
      ShapeConcat(rs[0] + ", ", rest, 1);
      NoNewlineConcat(rs[0] + ", ", rest);
    }
  }

  /** `name(a1, a2, ...)` is printed text when the name and the arguments are. */
  lemma ApplicationPrinted(f: string, rs: seq<string>)
    requires IsLowerIdent(f) && |rs| >= 1 && forall k | 0 <= k < |rs| :: Printed(rs[k])
    ensures Printed(f + "(" + Join(rs, ", ") + ")")
  {
    var j := Join(rs, ", ");
    JoinShape(rs);
    WrapShape(f, j);
  }

  /** Wrapping balanced argument text in a name and parentheses. */
  lemma WrapShape(f: string, j: string)
    requires IsLowerIdent(f) && Depth(j) == 0 && Shape(j, 1) && NoNewline(j)
    ensures Printed(f + "(" + j + ")")
  {
    WordShape(f);
    OpenShape();
    CloseShape();
    ShapeConcat(f, "(", 0);
    NoNewlineConcat(f, "(");
    ShapeConcat(f + "(", j, 0);
    NoNewlineConcat(f + "(", j);
    ShapeConcat(f + "(" + j, ")", 0);
    NoNewlineConcat(f + "(" + j, ")");
  }

  /** The call pattern on printed `name(args)`: the whole name and argument text, nothing after. */
  lemma MatchOfApplication(f: string, j: string)
    requires |f| > 0 && AllWord(f) && NoNewline(j)
    ensures MatchCall(f + "(" + j + ")") == Some(Call(f, j, ""))
  {
    MatchCallComplete(f, j, "");
    assert f + "(" + j + ")" + "" == f + "(" + j + ")";
  }

  /** A piece with every comma nested is one raw piece. */
  lemma {:induction false} SinglePiece(r: string)
    requires Shape(r, 0)
    ensures RawPieces(r) == [r]
    decreases |r|
  {
    if r != [] {
      var p := r[..|r| - 1];
      SinglePiece(p);
      assert r == p + [r[|r| - 1]];
      RawPiecesSnoc(p, r[|r| - 1]);
    }
  }

  /** After balanced text the rest of the scan starts afresh, continuing the open piece. */
  lemma {:induction false} RawPiecesConcat(a: string, b: string)
    requires Depth(a) == 0
    ensures RawPieces(a + b) == Glued(RawPieces(a), RawPieces(b))
    decreases |b|
  {
    if b == [] {
      assert a + b == a;
      GluedEmpty(RawPieces(a));
    } else {
      var b', c := b[..|b| - 1], b[|b| - 1];
      RawPiecesConcat(a, b');
      assert b == b' + [c];
      ConcatStep(a, b', c);
    }
  }

  lemma ConcatStep(a: string, b: string, c: char)
    requires Depth(a) == 0
    requires RawPieces(a + b) == Glued(RawPieces(a), RawPieces(b))
    ensures RawPieces(a + (b + [c])) == Glued(RawPieces(a), RawPieces(b + [c]))
  {
    var ab := a + b;
    assert a + (b + [c]) == ab + [c];
    DepthConcat(a, b);
    var closes := c == ',' && Depth(b) == 0;
    ScanSnoc(ab, c);
    ScanSnoc(b, c);
    GluedStep(RawPieces(a), RawPieces(b), c, closes);
  }

  /** `RawPiecesSnoc` in terms of `Scanned`. */
  lemma ScanSnoc(p: string, c: char)
    ensures RawPieces(p + [c]) == Scanned(RawPieces(p), c, c == ',' && Depth(p) == 0)
  {
    RawPiecesSnoc(p, c);
  }

  /** The pieces of `a + b` from those of `a` and `b`: the last of `a` runs into the first of `b`. */
  function Glued(pa: seq<string>, pb: seq<string>): (g: seq<string>)
    requires |pa| >= 1 && |pb| >= 1
    ensures |g| == |pa| + |pb| - 1
  {
    pa[..|pa| - 1] + [pa[|pa| - 1] + pb[0]] + pb[1..]
  }

  /** One character of the scan after the join: a new piece, or a longer last piece. */
  function Scanned(ps: seq<string>, c: char, closes: bool): (r: seq<string>)
    requires |ps| >= 1
    ensures |r| >= 1
  {
    if closes then ps + [""] else ps[..|ps| - 1] + [ps[|ps| - 1] + [c]]
  }

  lemma GluedEmpty(pa: seq<string>)
    requires |pa| >= 1
    ensures Glued(pa, [""]) == pa
  {
    assert pa[|pa| - 1] + "" == pa[|pa| - 1];
  }

  lemma GluedStep(pa: seq<string>, pb: seq<string>, c: char, closes: bool)
    requires |pa| >= 1 && |pb| >= 1
    ensures Scanned(Glued(pa, pb), c, closes) == Glued(pa, Scanned(pb, c, closes))
  {
    var head, x := pa[..|pa| - 1], pa[|pa| - 1];
    if closes {
      assert (pb + [""])[1..] == pb[1..] + [""];
    } else if |pb| == 1 {
      assert Glued(pa, pb) == head + [x + pb[0]];
      assert x + pb[0] + [c] == x + (pb[0] + [c]);
    } else {
      var q := Glued(pa, pb);
      var pb' := Scanned(pb, c, closes);
      assert q[..|q| - 1] == head + [x + pb[0]] + pb[1..][..|pb| - 2];
      assert q[|q| - 1] == pb[|pb| - 1];
      assert pb'[0] == pb[0] && pb'[1..] == pb[1..][..|pb| - 2] + [pb[|pb| - 1] + [c]];
    }
  }

  /** The raw pieces of `a1, a2, ...`: the first argument, then each later one after a blank. */
  lemma {:induction false} RawPiecesOfJoin(rs: seq<string>)
    requires |rs| >= 1 && forall k | 0 <= k < |rs| :: Printed(rs[k])
    ensures RawPieces(Join(rs, ", ")) == Spaced(rs)
    decreases |rs|
  {
    SinglePiece(rs[0]);
    if |rs| > 1 {
      var rest := Join(rs[1..], ", ");
      RawPiecesOfJoin(rs[1..]);
      assert Join(rs, ", ") == rs[0] + ", " + rest;
      CommaBlankPieces(rs[0], rest);
      SpacedCons(rs);
    }
  }

  /** A single balanced piece, then `, ` and more text. */
  lemma CommaBlankPieces(x: string, rest: string)
    requires Depth(x) == 0 && RawPieces(x) == [x]
    ensures RawPieces(x + ", " + rest) == Glued([x, ""], Glued([" "], RawPieces(rest)))
  {
    var a, b := x + [','], [' '] + rest;
    assert x + ", " + rest == a + b;
    RawPiecesSnoc(x, ',');
    assert Depth(a) == 0 && RawPieces(a) == [x, ""];
    BlankPieces();
    RawPiecesConcat([' '], rest);
    assert RawPieces(b) == Glued([" "], RawPieces(rest));
    RawPiecesConcat(a, b);
  }

  /** The first text, then each later one after a blank. */
  function Spaced(rs: seq<string>): (r: seq<string>)
    requires |rs| >= 1
    ensures |r| == |rs| && r[0] == rs[0]
    ensures forall k | 1 <= k < |rs| :: r[k] == " " + rs[k]
  {
    [rs[0]] + seq(|rs| - 1, k requires 0 <= k < |rs| - 1 => " " + rs[k + 1])
  }

  lemma BlankPieces()
    ensures Depth([' ']) == 0 && RawPieces([' ']) == [" "]
  {
    RawPiecesSnoc([], ' ');
    assert [] + [' '] == [' '];
  }

  lemma SpacedCons(rs: seq<string>)
    requires |rs| > 1
    ensures Glued([rs[0], ""], Glued([" "], Spaced(rs[1..]))) == Spaced(rs)
  {
    var sp := Spaced(rs[1..]);
    GluedSingle(" ", sp);
    GluedAfterEmpty(rs[0], Glued([" "], sp));
    SpacedUnfold(rs);
  }

  /** Gluing onto one piece prefixes the first piece of the other. */
  lemma GluedSingle(p: string, pb: seq<string>)
    requires |pb| >= 1
    ensures Glued([p], pb) == [p + pb[0]] + pb[1..]
  {
    assert [p][..0] == [];
  }

  /** Gluing onto a closed piece and an empty one keeps the closed piece in front. */
  lemma GluedAfterEmpty(p: string, pb: seq<string>)
    requires |pb| >= 1
    ensures Glued([p, ""], pb) == [p] + pb
  {
    assert [p, ""][..1] == [p];
    assert "" + pb[0] == pb[0];
    assert [pb[0]] + pb[1..] == pb;
  }

  /** `Spaced` after its first text: the second after a blank, then the spaced rest. */
  lemma SpacedUnfold(rs: seq<string>)
    requires |rs| > 1
    ensures Spaced(rs) == [rs[0]] + ([" " + Spaced(rs[1..])[0]] + Spaced(rs[1..])[1..])
  {
    var sp, whole := Spaced(rs[1..]), [rs[0]] + ([" " + Spaced(rs[1..])[0]] + Spaced(rs[1..])[1..]);
    forall k | 0 <= k < |rs| ensures whole[k] == Spaced(rs)[k] {
      if k > 1 {
        assert whole[k] == sp[k - 1];
        DropFirst(rs, k);
      }
    }
  }

  /** `_split_arguments` gives back the printed arguments. */
  lemma SplitJoin(rs: seq<string>)
    requires |rs| >= 1 && forall k | 0 <= k < |rs| :: Printed(rs[k])
    ensures SplitArgs(Join(rs, ", ")) == rs
  {
    RawPiecesOfJoin(rs);
    assert forall k | 0 <= k < |rs| :: Trimmed(rs[k]);
    FinishedSpaced(rs);
  }

  /** Stripping the spaced pieces gives the printed texts again, none of them blank. */
  lemma FinishedSpaced(rs: seq<string>)
    requires |rs| >= 1 && forall k | 0 <= k < |rs| :: Trimmed(rs[k])
    ensures Finished(Spaced(rs)) == rs
  {
    StripSpaced(rs);
    assert |Finished(Spaced(rs))| == |rs|;
  }

  lemma StripSpaced(rs: seq<string>)
    requires |rs| >= 1 && forall k | 0 <= k < |rs| :: Trimmed(rs[k])
    ensures forall k | 0 <= k < |rs| :: Strip(Spaced(rs)[k]) == rs[k]
  {
    var sp := Spaced(rs);
    forall k | 0 <= k < |rs| ensures Strip(sp[k]) == rs[k] {
      var r := rs[k];
      StripKeeps(r);
      if k == 0 {
        assert sp[k] == r;
      } else {
        assert sp[k] == " " + r;
      }
    }
  }

  /** Printed `name(args)` is its own stripped text, matches as that call, and splits back into `args`. */
  lemma PrintedCall(f: string, rs: seq<string>)
    requires IsLowerIdent(f) && |rs| >= 1 && forall k | 0 <= k < |rs| :: Printed(rs[k])
    ensures var j := Join(rs, ", "); var text := f + "(" + j + ")";
      && Strip(text) == text && MatchCall(text) == Some(Call(f, j, "")) && SplitArgs(j) == rs
  {
    var j := Join(rs, ", ");
    JoinShape(rs);
    MatchOfApplication(f, j);
    ApplicationPrinted(f, rs);
    StripKeeps(f + "(" + j + ")");
    SplitJoin(rs);
  }

  /** A stripped text matching a lowercase call whose arguments parse is that application. */
  lemma CallParsed(text: string, call: Call, args: seq<Term>)
    requires Strip(text) == text && MatchCall(text) == Some(call) && IsLowerIdent(call.name)
    requires Parser.ParseArguments(call.argsText) == Success(args)
    ensures Parser.ParseTerm(text) == Success(Fn(call.name, args))
  {
    Parser.CallIsNotAtom(text, call);
    assert Parser.MatchLowerCall(text) == Some(call);
  }

  /** `parse_term` on each piece succeeding gives the list of their terms. */
  lemma ArgumentsParsed(j: string, rs: seq<string>, args: seq<Term>)
    requires SplitArgs(j) == rs && |rs| == |args|
    requires forall k | 0 <= k < |rs| :: Parser.ParseTerm(rs[k]) == Success(args[k])
    ensures Parser.ParseArguments(j) == Success(args)
  {
    var bound := |j| + 1;
    Parser.ParseTermsPointwise(rs, bound);
    assert Parser.ParseTerms(rs, bound).value == args;
  }

  /** The call branch of `Term.from_string` on printed `name(args)`. */
  lemma ApplicationFromString(f: string, args: seq<Term>, rs: seq<string>)
    requires IsLowerIdent(f) && |rs| == |args| >= 1
    requires forall k | 0 <= k < |rs| :: Printed(rs[k]) && FromString(rs[k]) == Success(args[k])
    ensures FromString(f + "(" + Join(rs, ", ") + ")") == Success(Fn(f, args))
  {
    var j := Join(rs, ", ");
    PrintedCall(f, rs);
    CallFromString(f + "(" + j + ")", Call(f, j, ""), rs, args);
  }

  /** A stripped text matching a call whose pieces all read back is that application. */
  lemma CallFromString(text: string, call: Call, rs: seq<string>, args: seq<Term>)
    requires Strip(text) == text && MatchCall(text) == Some(call) && SplitArgs(call.argsText) == rs
    requires |rs| == |args| && forall k | 0 <= k < |rs| :: FromString(rs[k]) == Success(args[k])
    ensures FromString(text) == Success(Fn(call.name, args))
  {
    assert text[|call.name|] == '(';
    FromStringCall(text);
    var r := FromString(text);
    assert r.value.args == args;
  }
}
