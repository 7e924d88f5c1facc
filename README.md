# First-order unification engine, modelled in Dafny

This project models the core of a small Python engine for first-order unification, in the style of the UNIFY procedure of Russell and Norvig's *Artificial Intelligence: A Modern Approach*, chapter 9:

- the term algebra: variables, constants and function applications, with the occurs test and substitution application;
- the `Substitution` value: `contains`, `get`, `extend`, `apply`, `compose`, `is_empty` and its rendering;
- the `Unifier`: `unify`, `_unify_var`, `_occurs_check` and the soft-failing `unify_literals`;
- literals, and the hard-failing `Resolution.unify_literals`;
- the textual front end: `ParserAIMA` and the older `Term.from_string` / `Literal.from_string`, with the depth-aware argument splitter.

Modules, one per source file or concern:

| file | module | models |
|---|---|---|
| `wrappers.dfy` | `Wrappers` | `Option` and `Result`: a raised exception becomes a `Failure` value |
| `text.dfy` | `Text` | character classes, `str.strip`, `", ".join`, the call regex `(\w+)\((.*)\)` |
| `splitting.dfy` | `Splitting` | `_split_arguments`: a reference function and the character loop |
| `terms.dfy` | `Terms` | `Variable`, `Constant`, `Function`, `occurs`, `__str__`, `Term.from_string` |
| `substitutions.dfy` | `Substitutions` | `Substitution` and term application |
| `literals.dfy` | `Literals` | `Literal` |
| `unifier.dfy` | `Unifier` | `Unifier.unify`, `_unify_var`, `_occurs_check`, `unify_literals` |
| `resolution.dfy` | `Resolution` | `Resolution.unify_literals` |
| `composition.dfy` | `Composition` | `Substitution.compose`, as written and as intended |
| `parser.dfy` | `Parser` | `ParserAIMA` |
| `roundtrip.dfy` | `RoundTrip` | printing a term with `__str__` and reading it back with either parser |
| `scenarios.dfy` | `Scenarios` | concrete pairs from the unification tests |

Data model:

- A term is the datatype `Var(name) | Const(symbol) | Fn(name, args)`. Python's frozen-dataclass equality is structural and tagged by class, which is Dafny's datatype equality.
- A substitution is `Subst(order, bindings)`. `bindings` is the dictionary. `order` is its key insertion order, which Python dictionaries keep and which decides the rendering.
- `Valid` says `order` lists each key of `bindings` exactly once.
- `Acyclic` says the binding inserted at position `i` mentions no variable inserted at a position up to `i`. The unifier keeps this true because it only ever adds a binding for an unbound variable. The bound term is fully dereferenced and passed the occurs check. `Acyclic` is enough for the dereferencing recursion of `apply_substitution` to terminate, but it is stronger than termination needs (see "## Left out").

How the imperative code is modelled:

- The recursive `unify`, with its argument loop that reassigns `subst`, is the pair of methods `Unifier.Unify` and `Unifier.UnifyEach`. They are proved equal to the pure reference functions `UnifyTerms` and `UnifyArgs`, and the soundness and growth properties are stated on those functions.
- The loops of `unify_literals`, `Resolution.unify_literals`, `compose` and `_split_arguments` are methods with `while` loops whose `ensures` tie the result to a reference function.
- Substitutions are used as immutable values in the source: `extend` and `compose` copy the dictionary before writing. They are therefore datatype values here.

## Model

| member | source | states |
|---|---|---|
| Terms.OccursIffInVars | src/models/term.py:77-79 | a variable occurs in a term exactly when it is in the term's variable set: the name itself for a variable, nothing for a constant, the union over the arguments for a function (also term.py:98-100, 118-120) |
| Terms.ArgVars | src/models/term.py:118-120 | every variable of an argument is a variable of the enclosing function application |
| Terms.ArgSmaller | src/models/term.py:111-116 | each argument is strictly smaller than the application containing it |
| Terms.ElementBelowSum | src/models/term.py:111-116 | each term of an argument list is no larger than the whole list |
| Terms.NullaryFunctionIsNotConstant | src/models/term.py:128-132 | `Fn(a, [])` and `Const(a)` render to the same text but are different terms |
| Terms.Occurs | src/models/term.py:77-79 | definition, without a contract of its own: a variable occurs in itself, never in a constant (term.py:98-100), and in an application when it occurs in some argument (term.py:118-120); `Terms.OccursIffInVars` relates it to the variable set |
| Terms.Render | src/models/term.py:128-132 | definition, without a contract of its own: a variable or constant prints as its name (term.py:87-89, 106-108), an application without arguments as its bare name, and any other as `name(a1, a2, ...)`; `RoundTrip.PrintThenParse` and `RoundTrip.PrintThenFromString` read it back |
| Terms.FromStrings | src/models/term.py:45 | parsing a list of argument pieces, on success, gives one term per piece |
| Terms.FromStringsPointwise | src/models/term.py:45 | the list parse succeeds exactly when every piece parses, and then holds each piece's term in order |
| Terms.FromStringsCons | src/models/term.py:45 | the list parse is the first piece's term followed by the parse of the rest, and fails when either fails |
| Terms.FromStringAtom | src/models/term.py:29-36 | stripped text without `(` becomes a variable when its first character is lowercase, and a constant otherwise |
| Terms.FromStringCall | src/models/term.py:38-46 | text with `(` that does not match the call pattern is an invalid-format error; otherwise the parse succeeds exactly when every split piece parses, and then it is the application named by the match whose arguments are the pieces' terms, in order |
| Substitutions.Empty | src/logic/substitution.py:13-16 | the substitution built without a mapping is well formed, acyclic and empty, and binds nothing |
| Substitutions.Contains | src/logic/substitution.py:18-19 | definition, without a contract of its own: a variable is contained exactly when it is a key of the dictionary |
| Substitutions.Get | src/logic/substitution.py:21-22 | looking a key up succeeds exactly when it is bound and returns its term; an absent key gives the lookup error |
| Substitutions.IsEmpty | src/logic/substitution.py:39-40 | definition, without a contract of its own: the dictionary has no entries; `Substitutions.IsEmptyIffNoBindings` states what that means |
| Substitutions.IsEmptyIffNoBindings | src/logic/substitution.py:39-40 | a substitution is empty exactly when no variable is bound, and exactly when its key order is empty |
| Substitutions.Extend | src/logic/substitution.py:24-27 | the result binds the new variable to the new term and leaves every other binding exactly as before; a fresh key is appended to the order and an existing key keeps its place |
| Substitutions.ExtendKeepsAcyclic | src/logic/substitution.py:24-27 | adding a binding for an unbound variable to a term that is resolved and does not contain it keeps the substitution acyclic and keeps every old binding |
| Substitutions.Apply | src/logic/substitution.py:29-30 | definition, without a contract of its own: dereferencing from the first position; the `Apply` lemmas below state its behaviour |
| Substitutions.ApplyFromIsApply | src/models/term.py:81-85 | starting the dereferencing at any position before which the term mentions no key gives the same result as ordinary application |
| Substitutions.ApplyConst | src/models/term.py:102-104 | applying any substitution to a constant returns that constant |
| Substitutions.ApplyVar | src/models/term.py:81-85 | an unbound variable is returned unchanged; a bound variable yields the substitution applied to its binding |
| Substitutions.ApplyFn | src/models/term.py:122-126 | applying to a function application keeps the name and the number of arguments, and applies the substitution to each argument |
| Substitutions.ApplyResolves | src/models/term.py:83-84 | the result of application mentions no bound variable |
| Substitutions.ApplyFromResolves | src/models/term.py:83-84 | the same, for the dereferencing that starts at a given position |
| Substitutions.ApplyResolvedIsIdentity | src/models/term.py:81-85 | applying a substitution to a term that mentions none of its keys changes nothing |
| Substitutions.ApplyIdempotent | src/logic/substitution.py:29-30 | applying a substitution twice gives the same term as applying it once |
| Substitutions.ApplyAbsorbs | src/logic/substitution.py:29-30 | applying a smaller substitution first, then one that extends it, is the same as applying the larger one alone |
| Substitutions.ApplyFromAbsorbs | src/logic/substitution.py:29-30 | the same, for the dereferencing that starts at a given position |
| Substitutions.ApplyStaysWithin | src/models/term.py:81-85 | if a term and every binding of its variables stay within a vocabulary, so does the applied term |
| Substitutions.ApplyFromStaysWithin | src/models/term.py:81-85 | the same, for the dereferencing that starts at a given position |
| Substitutions.AcyclicHasNoSelfBinding | src/logic/substitution.py:24-27 | an acyclic substitution never binds a variable to itself |
| Substitutions.RenderEmpty | src/logic/substitution.py:43-44 | the empty substitution renders as `{}` |
| Substitutions.RenderSingleBinding | src/logic/substitution.py:45-47 | one binding renders as `{ <term> / <var> }`, term first |
| Substitutions.Render | src/logic/substitution.py:42-47 | definition, without a contract of its own: `{}` when empty, otherwise the pairs in insertion order between `{ ` and ` }`; `Substitutions.RenderExtend` relates it to `extend` |
| Substitutions.Pairs | src/logic/substitution.py:46 | one `<term> / <var>` pair per key, in insertion order |
| Substitutions.RenderExtend | src/logic/substitution.py:42-47 | extending a non-empty substitution with a fresh variable renders as the old text with its closing ` }` replaced by `, <term> / <var> }`: the new pair is printed last |
| Literals.Negate | src/models/literal.py:40-42 | negation keeps the name and the arguments and flips the polarity flag |
| Literals.NegateInvolutive | src/models/literal.py:40-42 | negating twice gives back the original literal: name, arguments and flag |
| Literals.IsComplementary | src/models/literal.py:44-50 | definition, without a contract of its own: same name, same number of arguments, opposite polarity; the two lemmas below state its properties |
| Literals.ComplementarySymmetric | src/models/literal.py:44-50 | complementarity does not depend on the order of the two literals |
| Literals.ComplementaryToNegation | src/models/literal.py:40-50 | a literal is complementary to its negation and never to itself |
| Literals.ApplyToLiteral | src/models/literal.py:52-56 | application keeps the name, the flag and the arity, and substitutes each argument |
| Literals.ApplyToLiteralIdempotent | src/models/literal.py:52-56 | applying a substitution to a literal twice is the same as once |
| Literals.Equals | src/models/literal.py:58-64 | definition, without a contract of its own: same name, same polarity, and equal arguments as far as the shorter list goes |
| Literals.EqualsIgnoresExtraArguments | src/models/literal.py:58-64 | because the zip stops at the shorter list, a literal equals, both ways round, a longer literal that extends its arguments, although the two are different values |
| Literals.Render | src/models/literal.py:67-70 | definition, without a contract of its own: the optional `¬`, the name, and the joined arguments in parentheses |
| Literals.RenderShapes | src/models/literal.py:67-70 | a literal without arguments renders as `name()`, and negation only adds the `¬` prefix |
| Literals.FromString | src/models/literal.py:17-37 | a parsed literal is negated exactly when the stripped text starts with `~` or `¬` |
| Literals.FromStringShape | src/models/literal.py:25-37 | after the optional sign and the blanks after it, text not matching the call pattern is an invalid-format error; otherwise the parse succeeds exactly when every split piece parses as a term, and then carries the matched name, the polarity and the pieces' terms in order |
| Unifier.OccursCheck | src/logic/unifier.py:93-95 | the occurs check holds exactly when the variable is among the term's variables |
| Unifier.UnifyVar | src/logic/unifier.py:76-91 | binding an unbound variable fails with the occurs-check error exactly when it occurs in the term; otherwise it extends the substitution with that one binding, keeps it acyclic, and the variable and the term apply to the same term |
| Unifier.UnifyTerms | src/logic/unifier.py:20-54 | on success the result extends the input substitution, adds bindings only at the end of the order, stays acyclic, binds only variables of the two terms, returns the input itself when nothing is added, and makes the two terms equal once applied |
| Unifier.UnifyArgs | src/logic/unifier.py:46-51 | unifying argument lists from left to right, each pair seeing the bindings of the earlier ones, has the same growth properties and makes every pair equal once applied |
| Unifier.Unify | src/logic/unifier.py:20-54 | the recursive method with its argument loop computes exactly `UnifyTerms` |
| Unifier.UnifyEach | src/logic/unifier.py:46-51 | the argument loop that reassigns the running substitution computes exactly `UnifyArgs` |
| Unifier.UnifyLiterals | src/logic/unifier.py:57-73 | the soft outcome (`None`) happens exactly when the literals are not complementary; otherwise the result is the left-to-right unification of the arguments, errors included |
| Unifier.UnifiedLiteralsAreComplements | src/logic/unifier.py:57-73 | after a successful unification of complementary literals, the first literal applied is the negation of the second literal applied |
| Unifier.UnifyUnchangedIffEqual | src/logic/unifier.py:29-31 | unification returns the input substitution unchanged exactly when the two terms are already equal under it |
| Unifier.UnifySelfIsEmpty | src/logic/unifier.py:29-31 | unifying a term with itself from the empty substitution gives the empty substitution |
| Unifier.OccursCheckFails | src/logic/unifier.py:84-87 | an unbound variable against a different term containing it fails with the occurs-check error, on either side |
| Unifier.FunctorMismatchFails | src/logic/unifier.py:40-44 | two function applications with different names or arities fail with the functor-mismatch error |
| Unifier.OtherMismatchFails | src/logic/unifier.py:53-54 | two different non-variable terms that are not both function applications fail |
| Unifier.PreApplicationRedundant | src/logic/unifier.py:25-27 | applying the substitution to both terms before unifying changes nothing, because unification applies it again |
| Unifier.UnifyNeverSelfBinds | src/logic/unifier.py:89-91 | no binding made by unification is a self-binding |
| Resolution.UnifyLiterals | src/logic/resolution.py:18-30 | different names or arities fail with the literal-mismatch error; equal polarities fail with the not-complementary error; complementary literals give the left-to-right unification of the arguments from the empty substitution |
| Composition.Composed | src/logic/substitution.py:32-37 | composition as written: the domain is the union of both domains; keys of the receiver keep the receiver's terms; keys only in the other get the receiver applied to their terms; the order is the other's keys followed by the receiver's new keys |
| Composition.ComposedOrder | src/logic/substitution.py:34-36 | the key order of the composition lists each key of either substitution exactly once |
| Composition.Compose | src/logic/substitution.py:32-37 | the copy-then-overwrite loop computes exactly `Composed` |
| Composition.Missing | src/logic/substitution.py:35-36 | the keys the loop appends are exactly the receiver's keys that the other substitution does not bind, and there are no more of them than receiver keys |
| Composition.MissingDistinct | src/logic/substitution.py:35-36 | the appended keys are distinct |
| Composition.Seeded | src/logic/substitution.py:34 | the comprehension keeps the other's keys in the other's order and maps each to the receiver applied to its term |
| Composition.WrittenOrder | src/logic/substitution.py:35-36 | after the first `i` receiver keys are written into a dict, its order is its old keys followed by the new ones among them |
| Composition.WrittenKeys | src/logic/substitution.py:35-36 | after the first `i` receiver keys are written, exactly the dict's old keys and those `i` keys are bound |
| Composition.WrittenBindings | src/logic/substitution.py:35-36 | after the first `i` receiver keys are written, those keys hold the receiver's terms and every other key keeps its old term |
| Composition.ComposedAsIntended | src/logic/substitution.py:33 | composition as its documentation describes it: keys of the other get the receiver applied to their terms, keys only in the receiver keep theirs |
| Composition.ComposedAgreesOnDisjointDomains | src/logic/substitution.py:32-37 | when the two domains are disjoint, the code and the intended composition agree |
| Composition.IdempotentIsAcyclic | src/logic/substitution.py:32-37 | a substitution whose bound terms mention none of its keys is acyclic |
| Composition.IdempotentApplyVar | src/models/term.py:83-84 | for such a substitution, a bound variable applies to its binding directly |
| Composition.AppliedTermAvoidsKeys | src/logic/substitution.py:34 | after applying the receiver, a term that avoided the other's keys mentions no key of either |
| Composition.ComposedAsIntendedIdempotent | src/logic/substitution.py:32-37 | the intended composition of two such substitutions is again one |
| Composition.ComposedAsIntendedLaw | src/logic/substitution.py:33 | the intended composition applied to any term equals applying the other first, then the receiver |
| Composition.ComposedBreaksLaw | src/logic/substitution.py:35-36 | with `a = {x: A}` and `b = {x: B}`, the code's `a.compose(b)` maps `x` to `A`, while applying `b` and then `a` gives `B`; the intended composition gives `B` |
| Composition.SingletonsComposed | src/logic/substitution.py:35-36 | on that input the code's composition is `a` itself |
| Composition.SingletonsComposedAsIntended | src/logic/substitution.py:34 | on that input the intended composition is `b` |
| Composition.ComposedMaySelfBind | src/logic/substitution.py:34-36 | composing `{x: y}` with `{y: x}` binds `y` to `y` itself, on which dereferencing never ends |
| Composition.ComposedBreaksOrder | src/logic/substitution.py:34-36 | a key only the receiver binds, whose term mentions a key of the other substitution, is written after that key, so the result is not acyclic in insertion order |
| Composition.ComposedMayBeCyclic | src/logic/substitution.py:34-36 | composing `{x: y}` with `{y: B}`, which dereferences without trouble, gives a result that is not acyclic in insertion order |
| Splitting.SplitArgs | src/logic/parser.py:44-60 | no piece is longer than the argument text; `Splitting.SplitArgsAtTopLevelCommas` and `RoundTrip.SplitJoin` state what the pieces are |
| Splitting.SplitArgsAtTopLevelCommas | src/logic/parser.py:45-60 | the pieces are the stripped top-level pieces in order: the raw pieces join back to the text with commas, none holds a comma at depth 0, and only a blank last piece is dropped |
| Splitting.RawPiecesSplitAtTopLevelCommas | src/logic/parser.py:47-57 | the unstripped pieces join back to the text with commas, contain no comma at depth 0, and every piece but the last is balanced |
| Splitting.RawPiecesSnoc | src/logic/parser.py:48-57 | one more character either closes the current piece (a comma at depth 0) or is appended to it, and moves the depth by one for a parenthesis |
| Splitting.RawPiecesDepth | src/logic/parser.py:53-56 | every finished piece has depth 0 and the current piece has the depth of the whole text |
| Splitting.RawPiecesJoin | src/logic/parser.py:47-57 | joining the raw pieces with commas gives back the text |
| Splitting.RawPiecesNoTopLevelComma | src/logic/parser.py:49-51 | no raw piece contains a comma at depth 0 |
| Splitting.SplitArguments | src/logic/parser.py:44-60 | the character loop that updates `depth`, `current` and `args` computes exactly `SplitArgs` (also term.py:48-64) |
| Splitting.EmptyArgumentText | src/logic/parser.py:58-60 | the empty argument text gives no pieces |
| Text.MatchCall | src/models/term.py:39 | on a match, the text is the name, `(`, the argument text, `)` and the rest; the name is a non-empty run of word characters; the argument text is on the first line; the `)` is the last one on that line; the converse is `Text.MatchCallComplete` |
| Text.MatchCallComplete | src/models/term.py:39 | every text of that shape is matched, with exactly its name, argument text and rest, so the pattern fails exactly on the texts of no such shape |
| Text.Strip | src/logic/parser.py:20 | defined as `TrimRight` after `TrimLeft`: the result is no longer than the text and, when not empty, starts and ends with a non-whitespace character |
| Text.TrimLeft | src/logic/parser.py:20 | leading whitespace is removed and nothing else |
| Text.TrimRight | src/logic/parser.py:20 | trailing whitespace is removed and nothing else |
| Text.WordPrefixLength | src/models/term.py:39 | the greedy `\w+` prefix is a run of word characters followed by a non-word character or the end |
| Text.LastIndex | src/logic/parser.py:76 | the found index holds the character and no later one does; no index is found exactly when the character is absent |
| Text.LineEnd | src/logic/parser.py:76 | `.` stops at the first newline |
| Text.JoinSnoc | src/logic/substitution.py:47 | joining one more part appends the separator and that part |
| Parser.MatchLowerCall | src/logic/parser.py:76 | the call pattern with a lowercase-leading name matches exactly when the general pattern matches with such a name |
| Parser.MatchUpperCall | src/logic/parser.py:97 | the same for an uppercase-leading name |
| Parser.DetectType | src/logic/parser.py:17-42 | on the stripped text: the negated-literal kind exactly when it starts with `~` or `¬`; the variable kind exactly for a lowercase identifier and the constant kind exactly for an uppercase identifier; the literal kind exactly for a non-negated text matching the call pattern with an uppercase name, the function kind exactly for one with a lowercase name; the unknown kind exactly when none of these holds |
| Parser.ParseTerm | src/logic/parser.py:62-83 | every parsed term is well formed: lowercase-identifier variables, uppercase-identifier or digit constants, lowercase functors over well-formed arguments; a variable or constant carries the stripped text; the full branch structure is `Parser.ParseTermShape` |
| Parser.ParseTermShape | src/logic/parser.py:62-83 | on the stripped text: a lowercase identifier is that variable, then an uppercase identifier or digit string that constant; any other text not matching the lowercase call pattern is the invalid-format error on it; a match succeeds exactly when every split piece of its argument text parses, giving the application of the matched name with one argument per piece, argument k being piece k's parse |
| Parser.ParseApplication | src/logic/parser.py:76-81 | a parsed call is a function application named by the match, with well-formed arguments |
| Parser.ParseArguments | src/logic/parser.py:79-80 | parsing the split pieces gives well-formed terms |
| Parser.ParseTerms | src/logic/parser.py:79-80 | one well-formed term per piece |
| Parser.ParseTermsPointwise | src/logic/parser.py:79-80 | the list parse succeeds exactly when every piece parses, and then holds each piece's term in order |
| Parser.ParseTermsCons | src/logic/parser.py:79-80 | the list parse is the first piece's term followed by the parse of the rest |
| Parser.ParseLiteral | src/logic/parser.py:85-104 | a parsed literal is negated exactly when the stripped text starts with `~` or `¬`, has an uppercase-identifier name and well-formed arguments; the full behaviour is `Parser.ParseLiteralShape` |
| Parser.ParseLiteralShape | src/logic/parser.py:85-104 | the body after one sign must match the uppercase call pattern, else the result is the invalid-format error on the body; a match succeeds exactly when every split piece parses, giving the literal with the matched name, the sign's polarity and the pieces' terms in order |
| Parser.ParseExpression | src/logic/parser.py:106-115 | a literal result comes from a literal kind and a term result from a term kind; for a literal kind the result is exactly `parse_literal`'s, its literal or its error, and for a term kind exactly `parse_term`'s; an unknown kind fails with the unknown-kind error |
| Parser.NegationIsDetected | src/logic/parser.py:22-23 | any text beginning with a negation sign is classified as a negated literal, whatever follows |
| Parser.KindsAgreeWithParsers | src/logic/parser.py:26-42 | the variable and constant kinds parse to that variable or constant; a parsed function kind carries the matched name; the literal kinds parse to a literal of the matching polarity |
| Parser.CallsAreNotIdentifiers | src/logic/parser.py:26-40 | text matching the call pattern with a lowercase or uppercase name is neither a lowercase nor an uppercase identifier, so the identifier tests and the call tests of `detect_type` never both apply |
| Parser.CallIsNotAtom | src/logic/parser.py:26-34 | text matching the call pattern is neither an identifier nor a numeral and does not start with a negation sign |
| Parser.NumeralIsUnknownKind | src/logic/parser.py:71-73 | a digit string parses to a constant, but is classified as unknown, so parsing it as an expression fails |
| Parser.UppercaseFunctorRejected | src/logic/parser.py:76-83 | a call whose name starts uppercase is not a term: invalid-format error |
| Parser.LowercasePredicateRejected | src/logic/parser.py:96-99 | a non-negated call whose name starts lowercase is not a literal: invalid-format error |
| Parser.TrailingTextIgnoredByParseTerm | src/logic/parser.py:76 | two texts with the same call name and argument text parse to the same term, whatever follows the last `)` |
| Parser.TrailingTextIgnoredByParseLiteral | src/logic/parser.py:92-104 | two texts of the same polarity whose bodies after the sign have calls with the same name and argument text parse to the same literal, whatever follows the last `)` |
| RoundTrip.PrintThenParse | src/models/term.py:128-132 | for every term `parse_term` can build that has no nullary application, `parse_term` of its printed form gives the term back, and that form is non-empty, unpadded, balanced and free of top-level commas |
| RoundTrip.PrintThenFromString | src/models/term.py:20-46 | under the same conditions `Term.from_string` of the printed form gives the term back |
| RoundTrip.SplitJoin | src/logic/parser.py:44-60 | splitting printed arguments joined with `, ` gives back exactly those arguments |
| RoundTrip.MatchOfApplication | src/models/term.py:39 | on `name(args)` with a word-character name and no newline, the call pattern takes the whole name, the whole argument text, and leaves nothing after the `)` |
| RoundTrip.RawPiecesConcat | src/logic/parser.py:47-57 | after a balanced prefix, the scan of the rest starts afresh: its first piece continues the prefix's last piece |
| Scenarios.RepeatedArgumentBindsOnce | tests/test_unification.py:28 | `p(X, X)` against `p(a, a)` gives the single binding `a ↦ X` |
| Scenarios.ConstantBindsVariable | tests/test_unification.py:28 | `X` against `a` binds `a` to `X` |
| Scenarios.BoundPairAgrees | tests/test_unification.py:28 | the second pair `X`, `a` is already equal under that binding and adds nothing |
| Scenarios.FirstPairMismatchFails | tests/test_unification.py:33 | `p(f(a), g(Y))` against `p(X, X)` fails at the first pair, `f(a)` against `X` |
| Scenarios.VariableInsideItsTermFails | src/logic/unifier.py:84-87 | the variable `x` against `f(x)` fails the occurs check |
| Scenarios.ConstantInsideItsTermMismatches | tests/test_unification.py:32 | the test's `X` against `f(X)`, where uppercase `X` is a constant, fails as a plain mismatch of two different non-variable terms, not as an occurs check |

In this system a lowercase name is a variable and an uppercase name a constant, so `Const("X")` and `Var("a")` above are the test's `X` and `a`.

## Left out

- Console I/O, the interactive loop, the input handler, the printer, and `Unifier.debug` with verbose printing: presentation only, with no effect on results.
- The message text of `UnificationError` and `ValueError`: errors are failure values carrying the offending terms or text.
- The test harness as code: its inputs appear only as concrete scenarios.
- Unicode semantics of `\w`, `\d`, `str.islower`, `str.isupper` and `str.strip`: all are approximated by ASCII predicates. The model's `Strip` removes only the six ASCII whitespace characters space, `\t`, `\n`, `\r`, `\x0b` and `\x0c`; Python's `str.strip` also removes `\x1c` to `\x1f` and the Unicode spaces.
- Substitutions.Empty: the constructor's defensive copy of the caller's dictionary is not modelled, because a Dafny `map` is a value and cannot be changed behind the substitution's back.
- Unifier.UnifyVar: requires the variable to be unbound and the term resolved. The branches at src/logic/unifier.py:78-81 cannot be reached, because `unify` dereferences both sides at lines 26-27 before calling `_unify_var`.
- Acyclicity: application, unification and composition require `Acyclic`, the insertion-order form. It excludes every substitution in which a binding mentions a key inserted at or before its own position, even when dereferencing would terminate. Example: order `[y, x]` with `y ↦ A` and `x ↦ y`. Python resolves that one, and `compose` builds such substitutions (`Composition.ComposedBreaksOrder`, `Composition.ComposedMayBeCyclic`: `{x: y}` composed with `{y: B}`). The model cannot apply substitutions like these. Every substitution the unifier builds is acyclic (`Unifier.UnifyTerms`).
- Composition.Composed: composition may also create a genuine cycle. `{x: y}` composed with `{y: x}` binds `y` to itself (`Composition.ComposedMaySelfBind`), and Python's `apply` on `y` then recurses without end. This is recorded as behaviour: the model does not apply such a result.
- Composition.ComposedAsIntendedLaw: proved only for idempotent substitutions whose bound terms avoid the other's keys, the setting in which composition is usually stated.
- Completeness of unification is not proved: the model does not show that a failure means no unifier exists, nor that a success is most general.
- Substitutions.Extend: `extend` stores any binding, a self-binding included (src/logic/substitution.py:24-27); `Unifier.UnifyNeverSelfBinds` shows the unifier never asks for one.
- The argument splitter exists twice, at src/models/term.py:48-64 and src/logic/parser.py:44-60. The two are identical and are modelled once, as `Splitting.SplitArguments`.
- Terms.FromString: it has no contract of its own. Its behaviour is stated by `Terms.FromStringAtom`, `Terms.FromStringCall` and `Terms.FromStringsPointwise`. Empty text is the `EmptyText` failure, where Python raises `IndexError` from `text[0]`.
- Literals.FromString: its own contract states only the polarity. `Literals.FromStringShape` states the rest: the name, the arity and each argument.
- Terms.Render: the round trip holds only for terms without a nullary application, because a nullary function renders as its bare name, the same as a constant (`Terms.NullaryFunctionIsNotConstant`). Constant symbols are strings; the source's `symbol: Any` may hold other values, which `__str__` prints with `str`.
- Parser.ParseExpression: states that the unknown kind gives the unknown-kind failure, but not the converse.
- Parser.ParseExpression: a digit string is accepted by `parse_term` but classified as unknown by `detect_type`, so `parse_expression` rejects it (`Parser.NumeralIsUnknownKind`). This is recorded as behaviour, not as a finding, because nothing in the code says which of the two was intended.

## Findings

| source | as written | input that shows it | evidently intended | confidence | as-written member | corrected member |
|---|---|---|---|---|---|---|
| src/logic/substitution.py:34-36 | `compose` first maps the other's keys through the receiver, then overwrites shared keys with the receiver's own terms, so on a shared key the receiver wins | `a = {x: A}`, `b = {x: B}`: `a.compose(b)` maps `x` to `A`, but applying `b` and then `a` to `x` gives `B` | the documented "apply other, then self": on a shared key the other's term, with the receiver applied, wins, so that `a.compose(b).apply(t) == a.apply(b.apply(t))` | not executed | Composition.ComposedBreaksLaw | Composition.ComposedAsIntendedLaw |
