/**
 * Character classes, whitespace stripping and joining, and the one
 * regular-expression shape the parsers use: `name(args)` matched from the
 * start of the text. Python's Unicode-aware `\w`, `str.islower`,
 * `str.isupper` and `str.strip` are approximated by their ASCII subsets.
 */
module Text {
  import opened Wrappers

  predicate IsLower(c: char) { 'a' <= c <= 'z' }

  predicate IsUpper(c: char) { 'A' <= c <= 'Z' }

  predicate IsDigit(c: char) { '0' <= c <= '9' }

  /** The class `\w`: letters, digits and the underscore. */
  predicate IsWordChar(c: char) { IsLower(c) || IsUpper(c) || IsDigit(c) || c == '_' }

  /** The whitespace that `str.strip()` removes (ASCII part). */
  predicate IsSpace(c: char) {
    c == ' ' || c == '\t' || c == '\n' || c == '\r' || c == '\U{0B}' || c == '\U{0C}'
  }

  /** `~` and `¬`, the two negation prefixes. */
  predicate IsNegationSign(c: char) { c == '~' || c == '\U{00AC}' }

  /** Every character of `s` is a word character. */
  predicate AllWord(s: string) { forall i | 0 <= i < |s| :: IsWordChar(s[i]) }

  /** The whole text matches `[a-z]\w*`. */
  predicate IsLowerIdent(s: string) { |s| > 0 && IsLower(s[0]) && AllWord(s) }

  /** The whole text matches `[A-Z]\w*`. */
  predicate IsUpperIdent(s: string) { |s| > 0 && IsUpper(s[0]) && AllWord(s) }

  /** The whole text matches `\d+`. */
  predicate IsNumeral(s: string) { |s| > 0 && forall i | 0 <= i < |s| :: IsDigit(s[i]) }

  /** Errors of the textual front end (Python's ValueError and IndexError). */
  datatype ParseError =
    | EmptyText                    // `text[0]` on an empty string
    | InvalidFormat(text: string)  // no accepted shape matched
    | UnknownKind(text: string)    // the classifier found no kind

  function TrimLeft(s: string): (r: string)
    ensures |r| <= |s| && r == s[|s| - |r|..]
    ensures r == [] || !IsSpace(r[0])
    ensures forall i | 0 <= i < |s| - |r| :: IsSpace(s[i])
  {
    if s != [] && IsSpace(s[0]) then
      var r := TrimLeft(s[1..]);
      assert s[1..][|s| - 1 - |r|..] == s[|s| - |r|..];
      assert forall i | 0 <= i < |s| - |r| :: IsSpace(s[i]) by {
        forall i | 0 <= i < |s| - |r| ensures IsSpace(s[i]) {
          if i > 0 {
            assert s[i] == s[1..][i - 1];
          }
        }
      }
      r
    else s
  }

  function TrimRight(s: string): (r: string)
    ensures |r| <= |s| && r == s[..|r|]
    ensures r == [] || !IsSpace(r[|r| - 1])
    ensures forall i | |r| <= i < |s| :: IsSpace(s[i])
  {
    if s != [] && IsSpace(s[|s| - 1]) then
      var r := TrimRight(s[..|s| - 1]);
      assert s[..|s| - 1][..|r|] == s[..|r|];
      r
    else s
  }

  /** `str.strip()`: the text without leading and trailing whitespace. */
  function Strip(s: string): (r: string)
    ensures |r| <= |s|
    ensures r == [] || (!IsSpace(r[0]) && !IsSpace(r[|r| - 1]))
  {
    TrimRight(TrimLeft(s))
  }

  /** `sep.join(parts)`. */
  function Join(parts: seq<string>, sep: string): string
  {
    if |parts| == 0 then ""
    else if |parts| == 1 then parts[0]
    else parts[0] + sep + Join(parts[1..], sep)
  }

  /** Joining one more part adds the separator and the part at the end. */
  lemma {:induction false} JoinSnoc(parts: seq<string>, sep: string, x: string)
    requires |parts| >= 1
    ensures Join(parts + [x], sep) == Join(parts, sep) + sep + x
    decreases |parts|
  {
    if |parts| == 1 {
      assert Join(parts + [x], sep) == parts[0] + sep + Join([x], sep);
    } else {
      assert (parts + [x])[1..] == parts[1..] + [x];
      JoinSnoc(parts[1..], sep, x);
    }
  }

  /** Length of the longest prefix of word characters (what `\w+` consumes). */
  function WordPrefixLength(s: string): (n: nat)
    ensures n <= |s|
    ensures AllWord(s[..n])
    ensures n < |s| ==> !IsWordChar(s[n])
  {
    if s != [] && IsWordChar(s[0]) then
      var m := WordPrefixLength(s[1..]);
      assert s[..m + 1] == [s[0]] + s[1..][..m];
      m + 1
    else 0
  }

  /** A text made of word characters only is consumed whole by `\w+`. */
  lemma AllWordPrefix(s: string)
    requires AllWord(s)
    ensures WordPrefixLength(s) == |s|
  {
    if s != [] {
      AllWordPrefix(s[1..]);
    }
  }

  /** Index of the first newline, or the length: where `.` stops matching. */
  function LineEnd(s: string): (n: nat)
    ensures n <= |s|
    ensures forall i | 0 <= i < n :: s[i] != '\n'
    ensures n < |s| ==> s[n] == '\n'
  {
    if s == [] || s[0] == '\n' then 0 else 1 + LineEnd(s[1..])
  }

  /** Index of the last occurrence of `c`, if any. */
  function LastIndex(s: string, c: char): (r: Option<nat>)
    ensures r.None? ==> forall i | 0 <= i < |s| :: s[i] != c
    ensures r.Some? ==> r.value < |s| && s[r.value] == c
    ensures r.Some? ==> forall i | r.value < i < |s| :: s[i] != c
  {
    if s == [] then None
    else if s[|s| - 1] == c then Some(|s| - 1)
    else LastIndex(s[..|s| - 1], c)
  }

  /** What a successful `re.match(r'(\w+)\((.*)\)', text)` captures, plus the unmatched rest. */
  datatype Call = Call(name: string, argsText: string, rest: string)

  /**
   * `re.match(r'(\w+)\((.*)\)', text)`: anchored at the start only. The name
   * is the whole run of word characters; `.*` is greedy and stops at a
   * newline, so the argument text runs up to the last `)` of that line and
   * whatever follows it is ignored.
   */
  function MatchCall(text: string): (r: Option<Call>)
    ensures r.Some? ==> text == r.value.name + "(" + r.value.argsText + ")" + r.value.rest
    ensures r.Some? ==> |r.value.name| > 0 && AllWord(r.value.name)
    ensures r.Some? ==> forall i | 0 <= i < |r.value.argsText| :: r.value.argsText[i] != '\n'
    ensures r.Some? ==> forall i | 0 <= i < LineEnd(r.value.rest) :: r.value.rest[i] != ')'
  {
    var n := WordPrefixLength(text);
    if n == 0 || n >= |text| || text[n] != '(' then
      None
    else
      var after := text[n + 1..];
      var e := LineEnd(after);
      var line := after[..e];
      match LastIndex(line, ')')
      case None => None
      case Some(k) =>
        var rest := after[k + 1..];
        CallShape(text, n, after, line, k, rest);
        Some(Call(text[..n], line[..k], rest))
  }

  lemma CallShape(text: string, n: nat, after: string, line: string, k: nat, rest: string)
    requires n < |text| && text[n] == '(' && after == text[n + 1..]
    requires line == after[..LineEnd(after)] && k < |line| && line[k] == ')'
    requires forall i | k < i < |line| :: line[i] != ')'
    requires rest == after[k + 1..]
    ensures text == text[..n] + "(" + line[..k] + ")" + rest
    ensures forall i | 0 <= i < LineEnd(rest) :: rest[i] != ')'
  {
    CallSplit(text, n, after, line[..k], rest);
    RestOfLine(after, line, k, rest);
  }

  /** Cutting `text` at the `(` at `n` and at the `)` after the argument text. */
  lemma CallSplit(text: string, n: nat, after: string, args: string, rest: string)
    requires n < |text| && text[n] == '(' && after == text[n + 1..]
    requires |args| < |after| && after[..|args|] == args && after[|args|] == ')'
    requires rest == after[|args| + 1..]
    ensures text == text[..n] + "(" + args + ")" + rest
  {
    var whole := text[..n] + "(" + args + ")" + rest;
    assert |whole| == |text|;
    forall i | 0 <= i < |text| ensures whole[i] == text[i] {
      if i < n {
      } else if i == n {
      } else if i < n + 1 + |args| {
        assert whole[i] == args[i - n - 1] == after[i - n - 1];
      } else if i == n + 1 + |args| {
        assert text[i] == after[|args|];
      } else {
        assert whole[i] == rest[i - n - 2 - |args|] == after[i - n - 1];
      }
    }
  }

  lemma RestOfLine(after: string, line: string, k: nat, rest: string)
    requires line == after[..LineEnd(after)] && k < |line|
    requires forall i | k < i < |line| :: line[i] != ')'
    requires rest == after[k + 1..]
    ensures forall i | 0 <= i < LineEnd(rest) :: rest[i] != ')'
  {
    var e := |line|;
    if e < |after| {
      assert rest[e - k - 1] == '\n';
    }
    assert LineEnd(rest) <= e - k - 1 by {
      LineEndBound(rest, e - k - 1);
    }
    forall i | 0 <= i < LineEnd(rest) ensures rest[i] != ')' {
      assert rest[i] == line[k + 1 + i];
    }
  }

  lemma LineEndBound(s: string, m: nat)
    requires m <= |s| && (m < |s| ==> s[m] == '\n')
    ensures LineEnd(s) <= m
  {
    if m > 0 && s != [] && s[0] != '\n' {
      LineEndBound(s[1..], m - 1);
    }
  }

  /** `\w+` takes exactly the name when a non-word character follows it. */
  lemma {:induction false} WordPrefixStops(f: string, rest: string)
    requires AllWord(f) && rest != [] && !IsWordChar(rest[0])
    ensures WordPrefixLength(f + rest) == |f|
    decreases |f|
  {
    if f == [] {
      assert f + rest == rest;
    } else {
      assert (f + rest)[1..] == f[1..] + rest;
      WordPrefixStops(f[1..], rest);
    }
  }

  /** A prefix without a newline moves the end of the first line by its length. */
  lemma {:induction false} LineEndAfter(x: string, y: string)
    requires forall i | 0 <= i < |x| :: x[i] != '\n'
    ensures LineEnd(x + y) == |x| + LineEnd(y)
    decreases |x|
  {
    if x == [] {
      assert x + y == y;
    } else {
      assert (x + y)[1..] == x[1..] + y;
      LineEndAfter(x[1..], y);
    }
  }

  /** An occurrence with none after it is the last one. */
  lemma LastIndexAt(s: string, c: char, k: nat)
    requires k < |s| && s[k] == c
    requires forall i | k < i < |s| :: s[i] != c
    ensures LastIndex(s, c) == Some(k)
  {
  }

  /**
   * The converse of `MatchCall`'s contract: every text of the matched shape
   * (a word-character name, `(`, an argument text without newline, `)`, and
   * a rest whose first line has no `)`) is matched, with exactly those parts.
   */
  lemma MatchCallComplete(name: string, args: string, rest: string)
    requires |name| > 0 && AllWord(name)
    requires forall i | 0 <= i < |args| :: args[i] != '\n'
    requires forall i | 0 <= i < LineEnd(rest) :: rest[i] != ')'
    ensures MatchCall(name + "(" + args + ")" + rest) == Some(Call(name, args, rest))
  {
    var after := args + ")" + rest;
    var text := name + "(" + after;
    NamePart(name, after);
    ArgumentLine(args, rest);
    assert MatchCall(text) == Some(Call(name, args, rest));
    assert text == name + "(" + args + ")" + rest;
  }

  /** `\w+` and the `(` after it, on `name(` followed by `after`. */
  lemma NamePart(name: string, after: string)
    requires |name| > 0 && AllWord(name)
    ensures var text := name + "(" + after;
      && WordPrefixLength(text) == |name| && |name| < |text| && text[|name|] == '('
      && text[..|name|] == name && text[|name| + 1..] == after
  {
    var text := name + "(" + after;
    assert text == name + ("(" + after);
    WordPrefixStops(name, "(" + after);
  }

  /** `(.*)\)` on the text after the `(`: the line ends after `rest`'s first line, and its last `)` closes `args`. */
  lemma ArgumentLine(args: string, rest: string)
    requires forall i | 0 <= i < |args| :: args[i] != '\n'
    requires forall i | 0 <= i < LineEnd(rest) :: rest[i] != ')'
    ensures var after := args + ")" + rest;
      var line := after[..LineEnd(after)];
      && LastIndex(line, ')') == Some(|args|)
      && line[..|args|] == args && after[|args| + 1..] == rest
  {
    var front := args + ")";
    var after := front + rest;
    LineEndAfter(front, rest);
    var line := after[..LineEnd(after)];
    assert line == front + rest[..LineEnd(rest)];
    LastCloseAt(args, rest[..LineEnd(rest)]);
    assert after[|args| + 1..] == rest;
  }

  /** In `args + ")" + tail` with no `)` in `tail`, the last `)` is the one after `args`. */
  lemma LastCloseAt(args: string, tail: string)
    requires forall i | 0 <= i < |tail| :: tail[i] != ')'
    ensures var line := args + ")" + tail;
      LastIndex(line, ')') == Some(|args|) && line[..|args|] == args
  {
    var line := args + ")" + tail;
    forall i | |args| < i < |line| ensures line[i] != ')' {
      assert line[i] == tail[i - |args| - 1];
    }
    LastIndexAt(line, ')', |args|);
  }

  /** Position `k` of a list of pieces is position `k - 1` of its tail. */
  lemma DropFirst(pieces: seq<string>, k: nat)
    requires 0 < k < |pieces|
    ensures pieces[1..][k - 1] == pieces[k]
  {
  }
}
