/**
 * Splitting the text between a functor's parentheses into argument texts,
 * breaking only at commas that are not nested inside parentheses. The
 * repository has this routine twice, as `Term._split_arguments` and as
 * `ParserAIMA._split_arguments`, with identical code; it is modelled once.
 */
module Splitting {
  import opened Text

  /** How a character moves the nesting depth. */
  function Delta(c: char): int {
    if c == '(' then 1 else if c == ')' then -1 else 0
  }

  /** Opening minus closing parentheses in `s` (may be negative). */
  function Depth(s: string): int
    decreases |s|
  {
    if s == [] then 0 else Depth(s[..|s| - 1]) + Delta(s[|s| - 1])
  }

  /** Appending a character moves the depth by that character's delta. */
  lemma DepthSnoc(p: string, c: char)
    ensures Depth(p + [c]) == Depth(p) + Delta(c)
  {
    assert (p + [c])[..|p + [c]| - 1] == p;
  }

  /**
   * The unstripped pieces the scanning loop produces: a comma at depth 0
   * closes the current piece and opens an empty one; every other character
   * goes to the current piece.
   */
  function RawPieces(s: string): (r: seq<string>)
    ensures |r| >= 1
    decreases |s|
  {
    if s == [] then [""]
    else
      var p := s[..|s| - 1];
      var c := s[|s| - 1];
      var ps := RawPieces(p);
      if c == ',' && Depth(p) == 0 then ps + [""]
      else ps[..|ps| - 1] + [ps[|ps| - 1] + [c]]
  }

  /** A piece contains no comma outside parentheses (depth relative to its start). */
  predicate NoTopLevelComma(p: string) {
    forall q | 0 <= q < |p| :: p[q] == ',' ==> Depth(p[..q]) != 0
  }

  /** One step of the scan: what appending a character does to depth and pieces. */
  lemma RawPiecesSnoc(p: string, c: char)
    ensures Depth(p + [c]) == Depth(p) + Delta(c)
    ensures RawPieces(p + [c]) ==
      if c == ',' && Depth(p) == 0 then RawPieces(p) + [""]
      else RawPieces(p)[..|RawPieces(p)| - 1] + [RawPieces(p)[|RawPieces(p)| - 1] + [c]]
  {
    assert (p + [c])[..|p + [c]| - 1] == p;
  }

  /** The depth of the whole text is carried by its last piece; the others close all their parentheses. */
  lemma {:induction false} RawPiecesDepth(s: string)
    ensures forall k | 0 <= k < |RawPieces(s)| - 1 :: Depth(RawPieces(s)[k]) == 0
    ensures Depth(RawPieces(s)[|RawPieces(s)| - 1]) == Depth(s)
    decreases |s|
  {
    if s != [] {
      RawPiecesDepth(s[..|s| - 1]);
      RawPiecesDepthStep(s);
    }
  }

  /** `RawPiecesDepth` carried over the last character of `s`. */
  lemma RawPiecesDepthStep(s: string)
    requires s != []
    requires var ps := RawPieces(s[..|s| - 1]);
      && (forall k | 0 <= k < |ps| - 1 :: Depth(ps[k]) == 0)
      && Depth(ps[|ps| - 1]) == Depth(s[..|s| - 1])
    ensures forall k | 0 <= k < |RawPieces(s)| - 1 :: Depth(RawPieces(s)[k]) == 0
    ensures Depth(RawPieces(s)[|RawPieces(s)| - 1]) == Depth(s)
  {
    var p, c := s[..|s| - 1], s[|s| - 1];
    PiecesDepthStep(RawPieces(p), c, Depth(p), RawPieces(s));
  }

  /** One scan step on pieces whose depths are known: the closed pieces stay closed, the last one moves by `c`. */
  lemma PiecesDepthStep(ps: seq<string>, c: char, d: int, r: seq<string>)
    requires |ps| >= 1 && Depth(ps[|ps| - 1]) == d
    requires forall k | 0 <= k < |ps| - 1 :: Depth(ps[k]) == 0
    requires r == if c == ',' && d == 0 then ps + [""] else ps[..|ps| - 1] + [ps[|ps| - 1] + [c]]
    ensures forall k | 0 <= k < |r| - 1 :: Depth(r[k]) == 0
    ensures Depth(r[|r| - 1]) == d + Delta(c)
  {
    DepthOfPieces(r, ps);
    if !(c == ',' && d == 0) {
      DepthSnoc(ps[|ps| - 1], c);
    }
  }

  /** Pieces that agree with `ps` but for the last, closed when all but the last of `ps` are. */
  lemma DepthOfPieces(r: seq<string>, ps: seq<string>)
    requires |ps| >= 1 && (|r| == |ps| || (|r| == |ps| + 1 && Depth(ps[|ps| - 1]) == 0))
    requires forall k | 0 <= k < |ps| - 1 :: Depth(ps[k]) == 0
    requires forall k | 0 <= k < |r| - 1 :: r[k] == ps[k]
    ensures forall k | 0 <= k < |r| - 1 :: Depth(r[k]) == 0
  {
  }

  /** Joined with commas, the pieces give the text back. */
  lemma {:induction false} RawPiecesJoin(s: string)
    ensures Join(RawPieces(s), ",") == s
    decreases |s|
  {
    if s != [] {
      var p := s[..|s| - 1];
      var c := s[|s| - 1];
      assert s == p + [c];
      RawPiecesSnoc(p, c);
      RawPiecesJoin(p);
      if c == ',' && Depth(p) == 0 {
        JoinSnoc(RawPieces(p), ",", "");
      } else {
        JoinSnocLast(RawPieces(p), ",", c);
      }
    }
  }

  /** No piece has a comma at depth 0 inside it. */
  lemma {:induction false} RawPiecesNoTopLevelComma(s: string)
    ensures forall k | 0 <= k < |RawPieces(s)| :: NoTopLevelComma(RawPieces(s)[k])
    decreases |s|
  {
    if s != [] {
      var p := s[..|s| - 1];
      var c := s[|s| - 1];
      assert s == p + [c];
      RawPiecesSnoc(p, c);
      RawPiecesNoTopLevelComma(p);
      RawPiecesDepth(p);
      var ps := RawPieces(p);
      if !(c == ',' && Depth(p) == 0) {
        var last := ps[|ps| - 1];
        var last' := last + [c];
        forall q | 0 <= q < |last'| && last'[q] == ','
          ensures Depth(last'[..q]) != 0
        {
          if q < |last| {
            assert last'[..q] == last[..q];
          } else {
            assert last'[..q] == last;
          }
        }
        assert NoTopLevelComma(last');
        var r := RawPieces(s);
        assert forall k | 0 <= k < |r| - 1 :: r[k] == ps[k];
      }
    }
  }

  /**
   * The pieces are exactly the text cut at its depth-0 commas: joined with
   * commas they give the text back, no piece has a depth-0 comma inside it,
   * and every piece but the last closes all its parentheses (so the comma
   * after it is at depth 0).
   */
  lemma RawPiecesSplitAtTopLevelCommas(s: string)
    ensures Join(RawPieces(s), ",") == s
    ensures forall k | 0 <= k < |RawPieces(s)| :: NoTopLevelComma(RawPieces(s)[k])
    ensures forall k | 0 <= k < |RawPieces(s)| - 1 :: Depth(RawPieces(s)[k]) == 0
  {
    RawPiecesJoin(s);
    RawPiecesNoTopLevelComma(s);
    RawPiecesDepth(s);
  }

  lemma {:induction false} JoinSnocLast(ps: seq<string>, sep: string, c: char)
    requires |ps| >= 1
    ensures Join(ps[..|ps| - 1] + [ps[|ps| - 1] + [c]], sep) == Join(ps, sep) + [c]
    decreases |ps|
  {
    if |ps| > 1 {
      var ps' := ps[..|ps| - 1] + [ps[|ps| - 1] + [c]];
      assert ps'[1..] == ps[1..][..|ps| - 2] + [ps[1..][|ps| - 2] + [c]];
      JoinSnocLast(ps[1..], sep, c);
    }
  }

  /**
   * `_split_arguments`: every piece but the last, stripped; the last one
   * stripped and kept only when it is not blank.
   */
  function SplitArgs(s: string): (r: seq<string>)
    ensures forall k | 0 <= k < |r| :: |r[k]| <= |s|
  {
    RawPiecesShorter(s);
    Finished(RawPieces(s))
  }

  /** The stripped pieces, the last one dropped when it is blank. */
  function Finished(raw: seq<string>): (r: seq<string>)
    requires |raw| >= 1
    ensures |raw| - 1 <= |r| <= |raw|
    ensures |r| < |raw| <==> Strip(raw[|raw| - 1]) == ""
    ensures forall k | 0 <= k < |r| :: r[k] == Strip(raw[k])
  {
    var init := StrippedInit(raw);
    var last := Strip(raw[|raw| - 1]);
    if last != "" then init + [last] else init
  }

  /**
   * The pieces of `_split_arguments` are the stripped top-level pieces of the
   * text, in order: the raw pieces join back to the text with commas, none
   * holds a comma at depth 0, and only a blank last piece is dropped.
   */
  lemma SplitArgsAtTopLevelCommas(s: string)
    ensures var raw, r := RawPieces(s), SplitArgs(s);
      && Join(raw, ",") == s
      && |raw| - 1 <= |r| <= |raw|
      && (|r| < |raw| <==> Strip(raw[|raw| - 1]) == "")
      && forall k | 0 <= k < |r| :: r[k] == Strip(raw[k]) && NoTopLevelComma(raw[k])
  {
    RawPiecesSplitAtTopLevelCommas(s);
    var raw := RawPieces(s);
    assert SplitArgs(s) == Finished(raw);
    FinishedPieces(raw, SplitArgs(s));
  }

  /** `Finished` keeps the pieces in place, so each kept piece still has no comma at depth 0. */
  lemma FinishedPieces(raw: seq<string>, r: seq<string>)
    requires |raw| >= 1 && r == Finished(raw)
    requires forall k | 0 <= k < |raw| :: NoTopLevelComma(raw[k])
    ensures forall k | 0 <= k < |r| :: r[k] == Strip(raw[k]) && NoTopLevelComma(raw[k])
  {
  }

  /** Every piece but the last, stripped. */
  function StrippedInit(raw: seq<string>): (r: seq<string>)
    requires |raw| >= 1
    ensures |r| == |raw| - 1 && forall k | 0 <= k < |r| :: r[k] == Strip(raw[k])
  {
    seq(|raw| - 1, k requires 0 <= k < |raw| - 1 => Strip(raw[k]))
  }

  lemma StrippedInitClose(raw: seq<string>)
    requires |raw| >= 1
    ensures StrippedInit(raw + [""]) == StrippedInit(raw) + [Strip(raw[|raw| - 1])]
  {
  }

  lemma StrippedInitGrow(raw: seq<string>, c: char)
    requires |raw| >= 1
    ensures StrippedInit(raw[..|raw| - 1] + [raw[|raw| - 1] + [c]]) == StrippedInit(raw)
  {
  }

  lemma {:induction false} RawPiecesShorter(s: string)
    ensures forall k | 0 <= k < |RawPieces(s)| :: |RawPieces(s)[k]| <= |s|
    decreases |s|
  {
    if s != [] {
      RawPiecesShorter(s[..|s| - 1]);
    }
  }

  /** `RawPiecesSnoc` for the prefixes of one text. */
  lemma PrefixStep(s: string, i: nat)
    requires i < |s|
    ensures Depth(s[..i + 1]) == Depth(s[..i]) + Delta(s[i])
    ensures var ps := RawPieces(s[..i]);
      RawPieces(s[..i + 1]) ==
        if s[i] == ',' && Depth(s[..i]) == 0 then ps + [""]
        else ps[..|ps| - 1] + [ps[|ps| - 1] + [s[i]]]
  {
    var next := s[..i + 1];
    assert next[..|next| - 1] == s[..i] && next[|next| - 1] == s[i];
  }

  /** What one more character of `s` does to the depth, the finished pieces and the current one. */
  lemma ScanStep(s: string, i: nat)
    requires i < |s|
    ensures Depth(s[..i + 1]) == Depth(s[..i]) + Delta(s[i])
    ensures var ps, qs := RawPieces(s[..i]), RawPieces(s[..i + 1]);
      if s[i] == ',' && Depth(s[..i]) == 0 then
        StrippedInit(qs) == StrippedInit(ps) + [Strip(ps[|ps| - 1])] && qs[|qs| - 1] == ""
      else
        StrippedInit(qs) == StrippedInit(ps) && qs[|qs| - 1] == ps[|ps| - 1] + [s[i]]
  {
    PrefixStep(s, i);
    var ps, qs := RawPieces(s[..i]), RawPieces(s[..i + 1]);
    if s[i] == ',' && Depth(s[..i]) == 0 {
      assert qs == ps + [""];
      StrippedInitClose(ps);
    } else {
      assert qs == ps[..|ps| - 1] + [ps[|ps| - 1] + [s[i]]];
      StrippedInitGrow(ps, s[i]);
    }
  }

  /** The character loop of `_split_arguments`, with `depth`, `current` and `args` updated in place. */
  method SplitArguments(argsText: string) returns (args: seq<string>)
    ensures args == SplitArgs(argsText)
  {
    args := [];
    var current := "";
    var depth := 0;
    var i := 0;
    while i < |argsText|
      invariant 0 <= i <= |argsText|
      invariant depth == Depth(argsText[..i])
      invariant args == StrippedInit(RawPieces(argsText[..i]))
      invariant current == RawPieces(argsText[..i])[|RawPieces(argsText[..i])| - 1]
    {
      var c := argsText[i];
      ScanStep(argsText, i);
      if c == ',' && depth == 0 {
        args := args + [Strip(current)];
        current := "";
      } else {
        if c == '(' {
          depth := depth + 1;
        } else if c == ')' {
          depth := depth - 1;
        }
        current := current + [c];
      }
      i := i + 1;
    }
    assert argsText[..i] == argsText;
    if Strip(current) != "" {
      args := args + [Strip(current)];
    }
  }

  /** The empty argument text gives no arguments: the trailing blank piece is dropped. */
  lemma EmptyArgumentText()
    ensures SplitArgs("") == []
  {
  }
}
