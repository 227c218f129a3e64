# Plugin execution-order resolver

GeekCMS runs the plugins of each *component* (a build phase such as
`pre_load`) in an order written in a small relation language. Each line of
a theme's relation text is one of these:

- a component header `name :` or `name =`;
- a relation `x << y`, `x <<p y`, `x >> y` or `x p>> y`;
- a unary relation `x <<[p]` or `[p]>> y`;
- a bare plugin name.

An operand is `plugin` or `theme.plugin`. The module doc-comment of
`geekcms/sequence_analyze.py` gives three things: the grammar, the meaning,
and a three-step algorithm that turns the relations of a component into an
execution order. The class meant to implement it is an empty stub, so this
project models the documented algorithm, stage by stage:

| module | stage |
|---|---|
| `Text`, `Lexer` | physical lines and their tokens |
| `Syntax` | classifying lines and assembling component blocks (the grammar) |
| `Operands` | step 1.3: `theme.plugin`, or `plugin` of the default theme |
| `Normalisation` | steps 1.1 to 1.5: the form `x <<p y`, HEAD/TAIL, the left-behind set |
| `Collation`, `Grouping` | step 2.1: groups keyed by `x`, sorted by key, entries sorted by priority |
| `Chains` | steps 2.2 and 2.3: the facts `x < y1 < … < yn`, grouped again |
| `Ordering` | step 3: the loop that builds the order (an imperative method) |
| `Resolver` | the whole pipeline, per component and per text |

Choices the doc-comment leaves open:

- The default theme, which the source derives from the directory the text
  was loaded from, is a parameter.
- Groups are "sorted with respect to x's value". Keys are compared theme
  first, then plugin name, each by character code. HEAD sorts before every
  plugin and TAIL after every plugin.
- Step 3 (`Ordering.GenerateOrder`) and its lemmas hold for any sequence of
  groups with distinct keys, whatever the order. Only the pipeline fixes
  that order to the sort above.
- A relation group is a set (lines 49 and 65). A relation written twice is
  held once, so repeating a line changes nothing
  (`Resolver.RepeatedLineChangesNothing`).
- `>> y` is read mechanically:
  - step 1.2 swaps the missing left operand with `y`;
  - step 1.4 then puts TAIL on the right;
  - so `>> y` normalises exactly like `y <<`.
  The semantics (line 32) call `>> y` the reverse of `x <<`. The
  mechanical reading does not give that reverse, and the model follows the
  algorithm.
- A relation line before the first header, or a line outside the grammar,
  stops the whole text.
- A conflict in step 3 stops only its own component. Every other component
  still gets its order.

Line 55 says that `x << y1` beside `x << y2`, two successors of one `x` at
the same priority, is a syntax error. Neither the grammar nor steps 2.1 to 3
has a step that rejects it. The model accepts such lines, and entries with
equal priority keep the order they were first written in
(`Grouping.TiesInWrittenOrder`). Step 2.2 then chains `y1 < y2`, so swapping
the two lines swaps `y1` and `y2` in the order.

The worked example in the semantics (lines 25-26) does not follow from the
algorithm. For `loader_a <<0 loader_b` and `loader_c <<1 loader_b`:

- steps 2.1 and 2.2 put `loader_a` and `loader_c` in groups of their own,
  each only preceding `loader_b`;
- step 3 then gives `loader_a, loader_c, loader_b` (keys in sorted order,
  then what is left behind);
- the comment promises `loader_c, loader_a, loader_b`.

The unary relations do not mean what lines 29-32 say either. `x <<` only
gives `(x, 0, TAIL)`, so `x` runs where its key sorts among the groups, not
before the other plugins. With `a << c` and `b <<` under default theme `t`,
every resolved order starts `t.a`, then `t.b`
(`Resolver.UnaryPrecedesNotFirst`).

The model follows the algorithm.

## Model

| member | source | states |
|---|---|---|
| Text.SplitLines | geekcms/sequence_analyze.py:35-36 | the physical lines of a text hold no newline and join back to the text |
| Text.SplitJoinLines | geekcms/sequence_analyze.py:35-36 | splitting newline-joined lines gives the lines back |
| Lexer.Decimal | geekcms/sequence_analyze.py:12-13 | the decimal spelling of a priority is non-empty, all digits, without a leading zero unless it is `0`, and reads back as that priority |
| Lexer.Lex | geekcms/sequence_analyze.py:3-15 | every token produced is well formed; a failure names a character at which no token can be read: one that is not a space, letter or digit, or the `0` that starts a number with leading zeros |
| Lexer.LexLiteral | geekcms/sequence_analyze.py:12-13 | a `decimalinteger` (no leading zero except in a run of zeros) followed by a non-digit is lexed whole, as its value |
| Lexer.LexLeadingZero | geekcms/sequence_analyze.py:12-13 | a run of digits such as `01`, with a leading zero and a non-zero digit, is not a `decimalinteger` and fails at its `0` |
| Lexer.LexToken | geekcms/sequence_analyze.py:12-15 | the spelling of any token, followed by anything that does not extend it, lexes back to that token |
| Lexer.LexRender | geekcms/sequence_analyze.py:3-15 | lexing tokens written with single spaces gives the same tokens |
| Lexer.RenderHasNoNewline | geekcms/sequence_analyze.py:6 | a written relation stays on one physical line |
| Operands.Resolve | geekcms/sequence_analyze.py:41-44 | an operand without a dot is a plugin of the default theme; with a dot, it splits at the first dot into a dot-free theme and the plugin |
| Operands.QualifiedOperandRoundTrip | geekcms/sequence_analyze.py:41-44 | `theme.plugin` with a dot-free theme resolves to (theme, plugin), whatever the default theme |
| Syntax.HeaderSeparatorsAgree | geekcms/sequence_analyze.py:4 | `name :` and `name =` followed by the same text parse alike, and as a header of `name` |
| Syntax.ClassifyExprTokens | geekcms/sequence_analyze.py:6-13 | the tokens of every well-formed binary, unary or bare expression classify back to that expression |
| Syntax.ClassifyItemTokens | geekcms/sequence_analyze.py:4-6 | the tokens of a well-formed relation classify as that relation line, never as a component header |
| Syntax.ClassifyLineTokens | geekcms/sequence_analyze.py:3-15 | the tokens of every well-formed line classify back to that line |
| Syntax.ParseRenderLine | geekcms/sequence_analyze.py:3-15 | parsing a written line gives the line back |
| Syntax.ParseOperatorSound | geekcms/sequence_analyze.py:12-13 | an operator read stands for exactly the tokens it was read from |
| Syntax.ClassifyExprSound | geekcms/sequence_analyze.py:6-13 | a classified relation has well-formed operands and its tokens are exactly the ones read |
| Syntax.ClassifyLineSound | geekcms/sequence_analyze.py:3-15 | a classified line is well formed; a relation line gives back the tokens read, a header its name, its separator and the rest of the line |
| Syntax.ParseLineSound | geekcms/sequence_analyze.py:3-15 | a line read is the classification of its tokens and is well formed; a line that is not a header gives back its tokens |
| Syntax.ParseLines | geekcms/sequence_analyze.py:35-36 | the lines parse exactly when each one does, and then each result is that line's parse; otherwise the error is that of the first line that does not parse |
| Syntax.AssembleMeaning | geekcms/sequence_analyze.py:4 | assembly fails exactly when a relation line comes before every header; otherwise the blocks are named by the headers in order and hold every relation written, in order |
| Syntax.AssembleSplit | geekcms/sequence_analyze.py:4 | assembling the lines in two parts, the second from the blocks of the first, gives the same result |
| Syntax.AssembleWithinBlock | geekcms/sequence_analyze.py:4-6 | lines without a header add their relations to the last block, in order, and change no other block |
| Syntax.AssembleKeepsEarlier | geekcms/sequence_analyze.py:4 | a block before the last one open is never changed by later lines |
| Syntax.AssembleOneBlock | geekcms/sequence_analyze.py:4-6 | a header and the lines up to the next header make one block holding the relations written on them, in order |
| Syntax.AssembleFromHeader | geekcms/sequence_analyze.py:4 | lines that start with a header leave every block read so far as it is |
| Syntax.AssembleBlock | geekcms/sequence_analyze.py:4-6 | the block of the k-th header is named by it and holds the relations written from that header up to the next one, in order |
| Syntax.ParseTextMeaning | geekcms/sequence_analyze.py:3-15 | a text fails with its first unreadable line's error, or else exactly when a relation line precedes every header; otherwise the blocks are named by the headers and hold every relation written, in order |
| Syntax.AssembleLayout | geekcms/sequence_analyze.py:4 | assembling the header-and-relation lines of some blocks gives those blocks back |
| Syntax.ParseRenderLines | geekcms/sequence_analyze.py:3-15 | written lines hold no newline and each parses back to its line |
| Syntax.ParseRenderText | geekcms/sequence_analyze.py:3-15 | parsing the written text of well-formed component blocks gives the blocks back |
| Normalisation.Extract | geekcms/sequence_analyze.py:37-39 | the left operand is missing exactly for `[p]>> y`, the right one exactly for `x <<[p]`, and the priority is the one written |
| Normalisation.ExtractInjective | geekcms/sequence_analyze.py:37-39 | step 1.1 loses nothing: different expressions give different raw relations |
| Normalisation.Orient | geekcms/sequence_analyze.py:40 | the result is always `<<` with a priority, 0 when none was written; `>>` swaps the operands and `<<` keeps them |
| Normalisation.NormaliseRaw | geekcms/sequence_analyze.py:45-46 | HEAD is never on the right and TAIL never on the left; the priority is the written one or 0 |
| Normalisation.Normalise | geekcms/sequence_analyze.py:37-46 | every relation written has a real plugin as x, and never HEAD as y |
| Normalisation.NormaliseBinary | geekcms/sequence_analyze.py:40-44 | `a <<p b` gives (a, p, b) and `a p>> b` gives (b, p, a), both operands resolved and 0 standing for a missing priority |
| Normalisation.MirroredSpellingsAgree | geekcms/sequence_analyze.py:23-24 | `a p>> b` and `b <<p a` give the same relation (b, p, a) |
| Normalisation.MissingPriorityIsZero | geekcms/sequence_analyze.py:27-28 | `<<` and `>>` without digits are the same as with priority 0 |
| Normalisation.UnaryRelationsAnchorTail | geekcms/sequence_analyze.py:40-46 | `x <<p` gives (x, p, TAIL), and `p>> x`, rewritten by steps 1.2 and 1.4, gives the same, not the reverse that line 32 describes |
| Normalisation.MissingLeftIsHead | geekcms/sequence_analyze.py:45 | a relation whose x is missing gets HEAD as x |
| Normalisation.MirroredLinesAgree | geekcms/sequence_analyze.py:23-24 | the lines `a >> b` and `b << a` give the same relation, b before a |
| Normalisation.DefaultPriorityLines | geekcms/sequence_analyze.py:27-28 | the lines `a << b` and `a << 0 b` give the same relation, of priority 0 |
| Normalisation.PrecedesLine | geekcms/sequence_analyze.py:20-22 | the line `a << b` gives the relation of `a << b` |
| Normalisation.FollowsLine | geekcms/sequence_analyze.py:23-24 | the line `a >> b` gives the relation of `a >> b` |
| Normalisation.PrecedesZeroLine | geekcms/sequence_analyze.py:25-28 | the line `a << 0 b` gives the relation of `a <<0 b` |
| Normalisation.RelationsMembers | geekcms/sequence_analyze.py:37-46 | every non-bare expression yields its relation, and every relation comes from one |
| Normalisation.RelationsInSourceOrder | geekcms/sequence_analyze.py:35-46 | the relations come in source order: a line written after the others adds its relation, if any, last |
| Normalisation.LeftBehindMembers | geekcms/sequence_analyze.py:37-39 | the set aside holds exactly the operands of the bare lines |
| Normalisation.LeftBehindAppend | geekcms/sequence_analyze.py:37-39 | a line written after the others adds its operand to the set aside exactly when it is bare |
| Collation.StrLessIrreflexive | geekcms/sequence_analyze.py:50 | no name sorts before itself |
| Collation.StrLessTransitive | geekcms/sequence_analyze.py:50 | the name order is transitive |
| Collation.StrLessTotal | geekcms/sequence_analyze.py:50 | of two different names one sorts first |
| Collation.RefLessIrreflexive | geekcms/sequence_analyze.py:50 | no group key sorts before itself |
| Collation.RefLessTransitive | geekcms/sequence_analyze.py:50 | the key order is transitive |
| Collation.RefLessTotal | geekcms/sequence_analyze.py:50 | of two different keys one sorts first |
| Collation.InsertKey | geekcms/sequence_analyze.py:50 | inserting a key adds exactly that key |
| Collation.InsertKeepsAscending | geekcms/sequence_analyze.py:50 | inserting a new key into ascending keys keeps them ascending |
| Collation.SortKeys | geekcms/sequence_analyze.py:50 | sorting distinct keys gives a permutation of them in strictly ascending order |
| Grouping.InsertByPriority | geekcms/sequence_analyze.py:50-51 | inserting an entry adds exactly that entry |
| Grouping.InsertPosition | geekcms/sequence_analyze.py:50-51 | into entries sorted by priority, the new entry goes after every entry of lower or equal priority and before every entry of higher priority, the others keeping their order |
| Grouping.InsertKeepsDistinct | geekcms/sequence_analyze.py:49 | inserting an entry not yet present keeps the entries free of repeats |
| Grouping.InsertKeepsSorted | geekcms/sequence_analyze.py:50-51 | insertion keeps a group's entries in non-decreasing priority |
| Grouping.InFlatten | geekcms/sequence_analyze.py:49 | a relation is among the groups' relations exactly when it is an entry of a group keyed by its x |
| Grouping.AddRelationKeys | geekcms/sequence_analyze.py:49 | adding a relation adds its x to the keys and no other key |
| Grouping.AddRelationWellGrouped | geekcms/sequence_analyze.py:49-51 | adding a relation keeps the keys distinct and every group non-empty, free of repeats and sorted by priority |
| Grouping.AddRelationFlatten | geekcms/sequence_analyze.py:49 | adding a relation adds it to the groups once when it is new, and adds nothing when it is already there |
| Grouping.AddPresentUnchanged | geekcms/sequence_analyze.py:49 | adding a relation the groups already hold leaves them unchanged |
| Grouping.GroupRelations | geekcms/sequence_analyze.py:49-51 | the groups have distinct keys, which are exactly the x's, and are non-empty, free of repeats and sorted by priority; together they hold each relation written exactly once |
| Grouping.GroupingIsPartition | geekcms/sequence_analyze.py:49-51 | a relation written is in the group of its x exactly once, however often it was written, and in no other group; a relation not written is in no group; at most one group has a given key |
| Grouping.RepeatedRelationIgnored | geekcms/sequence_analyze.py:49 | writing a relation again leaves the groups unchanged |
| Grouping.AtPriorityInsert | geekcms/sequence_analyze.py:50-51 | inserting into sorted entries puts the new entry last among those of its priority |
| Grouping.GroupOfAdd | geekcms/sequence_analyze.py:49-51 | adding a relation changes only the group of its x, and that one only when the entry is new |
| Grouping.TiesInWrittenOrder | geekcms/sequence_analyze.py:50-51 | the entries of a group with equal priority are the successors written with that priority, each once, in the order first written |
| Grouping.TiesInGroup | geekcms/sequence_analyze.py:50-51 | the same for each group of the result |
| Grouping.KeySeqIsKeys | geekcms/sequence_analyze.py:50 | the key sequence lists exactly the keys of the groups |
| Grouping.Arrange | geekcms/sequence_analyze.py:50 | rearranging groups is a permutation |
| Grouping.ArrangeKeys | geekcms/sequence_analyze.py:50 | rearranging keeps the keys, and keeps them distinct |
| Grouping.ArrangeFollowsOrder | geekcms/sequence_analyze.py:50 | arranged by a list naming every key once, the groups come exactly in that order |
| Grouping.SortGroups | geekcms/sequence_analyze.py:50-51 | sorting is a permutation of the groups, keeps their keys distinct, and puts the keys in strictly ascending order |
| Grouping.SortKeepsWellGrouped | geekcms/sequence_analyze.py:50-51 | sorting keeps every group whole, so well-formed groups stay well formed |
| Chains.Chain | geekcms/sequence_analyze.py:52-54 | a group with n successors gives n facts: x before the first successor, and each successor before the next |
| Chains.ChainReaches | geekcms/sequence_analyze.py:52-54 | the facts of a group link x to each of its successors through the successors before it |
| Chains.ExpandAll | geekcms/sequence_analyze.py:52-54 | the facts of all groups are exactly the facts of each group's chain |
| Chains.AsRelations | geekcms/sequence_analyze.py:56 | the facts become priority-0 relations: as many relations as facts, and a relation is present exactly when its fact is |
| Chains.Regroup | geekcms/sequence_analyze.py:56 | the regrouped facts are well grouped and keyed by the earlier plugins of the facts |
| Chains.RegroupSound | geekcms/sequence_analyze.py:56 | every successor in a regrouped group is a derived fact |
| Chains.RegroupComplete | geekcms/sequence_analyze.py:56 | every derived fact is a successor in the group of its earlier plugin |
| Chains.RegroupHoldsFacts | geekcms/sequence_analyze.py:56 | `a < b` was derived exactly when b is a successor in the regrouped group of a |
| Ordering.VisitSuccessors | geekcms/sequence_analyze.py:70-74 | for the group just appended, gives the first successor already in the order, or else adds every successor to the plugins set aside |
| Ordering.Flush | geekcms/sequence_analyze.py:76 | the plugins left behind are appended exactly once each, in some order |
| Ordering.GenerateOrder | geekcms/sequence_analyze.py:61-77 | fails exactly when some successor is the key of its own or an earlier group, and then with the first such conflict; otherwise gives the keys in group order, then once each the successors and plugins set aside that are not keys |
| Ordering.ExecutionOrderNoDuplicates | geekcms/sequence_analyze.py:61-77 | an execution order lists every plugin once |
| Ordering.ExecutionOrderMembers | geekcms/sequence_analyze.py:62-76 | an execution order holds exactly the keys, the successors and the plugins set aside in step 1.1 |
| Ordering.ExecutionOrderRespectsGroups | geekcms/sequence_analyze.py:63-74 | without conflict, every key comes before each of its successors |
| Resolver.RelationGroupsSorted | geekcms/sequence_analyze.py:48-51 | the groups of step 2.1 are well formed, ascending by key, and exactly the groups of the relations |
| Resolver.FactsMeaning | geekcms/sequence_analyze.py:52-54 | a fact of the component is exactly a link of the chain of one of its relation groups |
| Resolver.ExpandedFrom | geekcms/sequence_analyze.py:52-54 | expanding groups that are the same as a given list of groups gives exactly the links of that list's chains |
| Resolver.OrderedGroupsSorted | geekcms/sequence_analyze.py:56-58 | the groups handed to step 3 are well formed, ascending by key, and exactly the regrouped facts |
| Resolver.RepeatedLineChangesNothing | geekcms/sequence_analyze.py:49 | writing a line a second time changes neither the relation groups, nor the facts, nor the groups of step 3, nor the plugins set aside |
| Resolver.RepeatedLineSameGroups | geekcms/sequence_analyze.py:49 | writing a line a second time gives the same relation groups |
| Resolver.RepeatedLineSameLeftBehind | geekcms/sequence_analyze.py:37-39 | writing a line a second time gives the same plugins set aside |
| Resolver.BeforeTransitive | geekcms/sequence_analyze.py:53-54 | "executed earlier" is transitive in a duplicate-free order |
| Resolver.PathRespected | geekcms/sequence_analyze.py:52-54 | an order respecting every fact respects every chain of facts |
| Resolver.FactsRespected | geekcms/sequence_analyze.py:52-56 | a resolved order without conflict respects every fact of step 2.2 |
| Resolver.RelationsRespected | geekcms/sequence_analyze.py:20-24 | a resolved order without conflict puts x before y for every relation written |
| Resolver.ResolvedOrderIsValid | geekcms/sequence_analyze.py:17-24 | a resolved order without conflict lists every plugin once, respects every relation and fact, and holds every bare plugin |
| Resolver.UnaryPrecedesNotFirst | geekcms/sequence_analyze.py:29-32 | against the stated meaning, `b <<` beside `a << c` does not run `b` first: every resolved order starts `a`, `b` |
| Resolver.ResolveComponent | geekcms/sequence_analyze.py:57-77 | one component: fails exactly when its groups conflict, with the first conflict; otherwise gives a duplicate-free execution order of its groups |
| Resolver.ResolveComponents | geekcms/sequence_analyze.py:4 | every component gets its own outcome, in the order written |
| Resolver.ResolveText | geekcms/sequence_analyze.py:3-77 | a text that does not parse gives the parse error; otherwise every component gets its outcome |

## Left out

- The `SequenceParser` class (geekcms/sequence_analyze.py:81-84) has no behaviour. The model follows the doc-comment above it.
- Loading relation files and working out the default theme from their directory is I/O. The default theme is a parameter.
- Error messages carry no line number or line text. The parse errors are only the three kinds of `Syntax.ParseError`.
- The doc-comment never says that a syntax error stops only its own component, so a parse error stops the whole text.
- There is no check that an operand names a registered plugin. That registry belongs to code outside the relation language.
- There is no check for the same pair declared under two priorities. The algorithm has no such step.
- HEAD and TAIL stay in the order. The algorithm never removes them.
- Ordering.Flush: the order in which the plugins left behind are appended is left open, as the source treats them as a set. Only that each appears once is proved.
- Ordering.GenerateOrder: there is no claim that every input without cycles succeeds. Whether a successor is met too early depends on the group order.
- Resolver.ResolvedOrderIsValid: the order promised by the worked example at lines 25-26 is not proved. The algorithm gives a different order.
- Resolver.ResolvedOrderIsValid: the meaning at lines 29-32, `x <<` runs before every other plugin and `>> y` is its reverse, is not proved and does not hold. With `a << c` and `b <<`, `b` runs second (`Resolver.UnaryPrecedesNotFirst`).
- Grouping.TiesInWrittenOrder: the syntax error that line 55 names for two successors of one `x` at the same priority is not modelled, as no step of the grammar or of steps 2.1 to 3 rejects it. Such lines are accepted, and equal priorities are ordered as first written.
- Lexer.Lex: the `_` digit separators that Python 3 allows in a `decimalinteger` are not modelled. A priority is digits only.
- Identifiers are ASCII letters, digits and `_`. Unicode identifiers are not modelled.
