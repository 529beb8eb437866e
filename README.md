# Two Fer analyzer

This is a model of `analyze`, the feedback engine that the Exercism Python analyzer runs on a
student's solution to the "two fer" exercise. One call reads the submitted file and parses it.
It then walks the syntax tree once. During the walk it collects feedback comments and five flags:

- a function `two_fer` was defined;
- a parameter list has a default value;
- a `return` was seen;
- a `.format` call was seen;
- an f-string was seen.

After the walk it adds the comments that a missing method, a missing default or a missing return
calls for. It then returns a 4-tuple:

- the comments;
- an approve flag;
- the style checker's output;
- a status, one of `approve_as_optimal`, `disapprove_with_comment` or `refer_to_mentor`.

The project has four modules:

- `Wrappers` (`wrappers.dfy`) holds the `Option` type.
- `Analyzer` (`analyzer.dfy`) holds the model itself:
  - the nine feedback messages, as the `Feedback` kinds and their `Text`;
  - the syntax nodes the walk tells apart (`Node`, with `Default` for a parameter's default value);
  - the outcome of reading and parsing a file (`Source`);
  - the specification of one analysis: `Summary` for the walk, `AddPostWalk` for the checks after it, `StatusOf` for the status rule, and `Assess` for the whole parsed case;
  - the imperative analysis: `VisitNode` for one loop iteration, `Walk` for the loop, and `Analyze` for the whole call, each proved equal to its specification.
- `AnalyzerFacts` (`analyzer_facts.dfy`) proves what every analysis promises:
  - no comment twice;
  - when each comment appears;
  - the order of the comments;
  - when a solution is approved;
  - which status it receives.
- `TwoFerScenarios` (`scenarios.dfy`) works out the result for the solutions in the test suite, and for three more. Each solution is written as the breadth-first node sequence that `ast.walk` yields for it.

The code and the test suite disagree about one solution, `def two_fer(name="you"): return "One for %s, one for me." % name`:

- `test_approves_correct_solution` expects it to draw no comment.
- The `%` operator reaches the `ast.Mod` branch, which adds the %-formatting comment.
- So the code approves the solution with that one comment and refers it to a mentor.

The model follows the code, and `TwoFerScenarios.PercentSolution` states that outcome.

The `no_return` message is built from two adjacent string literals with no space between them, so the text reads "inside" directly followed by "the". `Feedback.Text` keeps it that way.

## Model

| member | source | states |
|---|---|---|
| Analyzer.Analyze | lib/analyzer.py:21-150 | An unreadable file gives exactly `([no_module], False, [], disapprove_with_comment)`. An unparsable one gives exactly `([malformed_code], False, [], disapprove_with_comment)`. For a parsed file the 4-tuple is the one `Assess` specifies: the walk's comments followed by the post-walk comments, approve exactly when a method and a return were found, the style checker's output as the only style comment, and the status from the status rule. |
| Analyzer.Walk | lib/analyzer.py:81-119 | The loop over the walked nodes ends in `Summary(nodes)`: each walk-time comment once, in order of first occurrence, with each flag set exactly when some node calls for it. The invariant says that the state after `i` nodes is the one reached by visiting them one at a time. |
| Analyzer.VisitNode | lib/analyzer.py:82-119 | One iteration does what `Step` says. At most one branch of the type-test chain fires, it adds its comment only when that comment is absent, and the f-string test runs for every node. A non-string default counts as different from `'you'`. |
| Analyzer.StatusOf | lib/analyzer.py:135-138 | The status is optimal iff approve holds, there are no comments, and `.format` or an f-string was used. It is disapproved iff approve does not hold, and referred to a mentor otherwise. The three cases are exclusive and exhaustive. |
| Analyzer.Triggered | lib/analyzer.py:86-103 | A comment kind occurs in the list of triggered comments iff some node calls for it. |
| Analyzer.Dedup | lib/analyzer.py:87-103 | Keeping only first occurrences gives a list without repeats that has the same members as the input. |
| Analyzer.CommentsAppend | lib/analyzer.py:87-103 | Walking one more node adds that node's comment at the end if it is not already present, and otherwise leaves the comments unchanged. |
| Analyzer.SummaryAppend | lib/analyzer.py:81-119 | The specification of the walk over `nodes + [n]` is one `Step` from the specification of the walk over `nodes`. |
| Analyzer.WalkedIsSummary | lib/analyzer.py:81-119 | Visiting the nodes one at a time from the initial state (no comments, all flags false; lines 63-79) ends in the walk's specification. |
| Analyzer.TextHasLength | lib/analyzer.py:6-19 | Each of the nine messages has its own fixed length. |
| Analyzer.TextInjective | lib/analyzer.py:6-19 | Different comment kinds show different messages. |
| AnalyzerFacts.TriggerCases | lib/analyzer.py:86-103 | The concatenation comment is called for exactly by `+`, the conditionals comment by `if`, the %-formatting comment by `%`, and the wrong-default comment by a parameter list whose first default is not `'you'`. Each of these is a walk-time kind. |
| AnalyzerFacts.WalkCommentsMembership | lib/analyzer.py:81-119 | A comment is in the walk's list iff some node calls for it, and it is then a walk-time kind. |
| AnalyzerFacts.AddPostWalkMembership | lib/analyzer.py:120-129 | After the checks that follow the walk, a comment is present iff it was already present or its check failed: no method, no default, or no return. |
| AnalyzerFacts.CommentMembership | lib/analyzer.py:81-129 | A comment is in the final list iff a node called for it or its post-walk check failed, and it is one of the seven kinds these steps can add. |
| AnalyzerFacts.CommentsAreUnique | lib/analyzer.py:87-129 | The final comments contain no repeated kind and no repeated message, however many `+`, `%`, `if` or bad-default nodes occur. |
| AnalyzerFacts.WalkCommentsIff | lib/analyzer.py:86-103 | Each comment in the final list matches a condition on the nodes. Concatenation appears iff a `+` occurs. Conditionals appears iff an `if` occurs. %-formatting appears iff a `%` occurs. The wrong default appears iff some parameter list's first default is not the string `'you'`. |
| AnalyzerFacts.PostWalkCommentsIff | lib/analyzer.py:120-129 | `no_method` is present iff no `two_fer` is defined. `no_def_arg` is present iff no parameter list has a default (the flag is set at lines 90-92). `no_return` is present iff no `return` occurs. |
| AnalyzerFacts.CommentKinds | lib/analyzer.py:81-129 | Every final comment is one of the four walk-time kinds or the three post-walk kinds. The early-exit messages never appear for a parsed file. |
| AnalyzerFacts.ApproveIff | lib/analyzer.py:69-129 | Approve holds iff `two_fer` is defined and a `return` occurs. Equivalently, neither the missing-method nor the missing-return comment is present. Default arguments play no part. |
| AnalyzerFacts.StatusIff | lib/analyzer.py:136-138 | The status is stated directly over the nodes. It is optimal iff `two_fer` is defined, a `return` occurs, a default is used, every first default is `'you'`, no `+`, `%` or `if` occurs, and `.format` or an f-string is used. It is disapproved iff `two_fer` or a `return` is missing, and referred to a mentor otherwise. |
| AnalyzerFacts.NoOptimalWithConcatPercentOrIf | lib/analyzer.py:86-138 | A `+`, a `%` or an `if` anywhere rules out optimal approval. |
| AnalyzerFacts.WalkOrder | lib/analyzer.py:81-119 | The walk's comments are in the order of the first node calling for each. |
| AnalyzerFacts.AddPostWalkAppends | lib/analyzer.py:120-129 | The post-walk checks append their comments after the walk's comments. |
| AnalyzerFacts.PostWalkOrdered | lib/analyzer.py:120-129 | The post-walk comments come in the fixed order: missing method, then missing default, then missing return. |
| AnalyzerFacts.CommentOrder | lib/analyzer.py:81-129 | In the final list every walk-time comment precedes every post-walk comment. Walk-time comments are ordered by the first node calling for each, and post-walk comments by the fixed order. |
| TwoFerScenarios.PercentSolution | lib/analyzer.py:103 | The `%`-formatted solution gets only the %-formatting comment, is approved and is referred to a mentor. This confirms the results expected at two_fer_test.py lines 36-39, 46-49, 62-65 and 71-74. It contradicts the empty comment list expected at lines 51-55. |
| TwoFerScenarios.OneFerSolution | two_fer_test.py:30-34 | A solution defining `one_fer` gets the %-formatting and missing-method comments and is not approved, so it is disapproved. |
| TwoFerScenarios.ConcatSolution | two_fer_test.py:41-44 | A solution concatenating with `+` twice gets the concatenation comment once, is approved and is referred to a mentor. |
| TwoFerScenarios.NoDefaultSolution | two_fer_test.py:57-60 | A solution without a default argument gets the %-formatting and missing-default comments and is still approved. |
| TwoFerScenarios.ConditionalSolution | two_fer_test.py:7-11 | The solution with `name=None` and an `if`/`else` (tested at lines 67-69) gets, in walk order, the wrong-default, conditionals and %-formatting comments. |
| TwoFerScenarios.FStringSolution | lib/analyzer.py:115-119 | A solution with a `'you'` default that returns an f-string gets no comment and is approved as optimal. |
| TwoFerScenarios.FormatSolution | lib/analyzer.py:108-113 | A solution with a `'you'` default that returns a `.format` call gets no comment and is approved as optimal. |
| TwoFerScenarios.NoReturnSolution | lib/analyzer.py:127-129 | A solution that prints instead of returning gets the missing-return comment and is disapproved. |

## Left out

- Reading the file (lib/analyzer.py:32-35) is not modelled. Its outcome is the input variant `Source.ReadFailed`.
- Parsing (lib/analyzer.py:47-50) is not modelled. Its outcome is the input variant `Source.ParseFailed` or `Source.Parsed`.
- `ast.walk` is a library traversal. Its output is given as the node sequence in `Source.Parsed`. The scenarios write that sequence out by hand, in the breadth-first order of Python 3.
- Only the node kinds the walk tests are distinguished. Every other node is `Other`.
- Writing `analysis.json` (lib/analyzer.py:37-44, 52-59, 140-148) is file output and is not modelled. The JSON written holds the same status, comments and style comments as the returned tuple.
- The pylint run (lib/analyzer.py:132-133) is an external tool. Its standard output is the uninterpreted parameter `pylintStdout`, and its standard error is ignored, as the code ignores it.
- The `try`/`except` around the default's string value (lib/analyzer.py:94-97) is modelled as data. A default with no string value is the `NonStr` variant, and both of its paths add the wrong-default comment.
- The `try`/`except` around `.attr` (lib/analyzer.py:110-113) is modelled as data. A callee without an attribute name is `Call(None)`.
- The `try`/`except` for interpreters without f-strings (lib/analyzer.py:116-119) is not modelled. The f-string test is assumed to run normally.
- Comments are modelled as the kinds of `Feedback`, with `Text` giving the exact message for each.
- The camel-case tests (two_fer_test.py:14-22) are not modelled. They refer to `analyzer.var_convention`, which lib/analyzer.py does not define.
- The test suite passes source text where `analyze` expects a file path. The scenarios model a file holding that text.
