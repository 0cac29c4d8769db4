# Models of the algorithmic cores of hardinfo2

hardinfo2 is a system information and benchmark program. Most of it probes files and fills
widgets; a few parts compute. This project models those parts in Dafny and proves what they are
for. Each module follows one source file or one part of it; where the C code works by changing
things step by step, the model is a method over arrays, linked nodes or fields that is proved
equal to a specification function, and the main results are lemmas about that function.

- **Sensor formulas** (`ExprSyntax`, `Precedence`, `ShuntingYard`, `YardMeaning`, `YardHeight`,
  `PostfixMachine`, `Lexer`, `SensorFormula`, `MissingOperand`): a lexer, a shunting-yard converter and a stack
  machine. Formulas evaluate to the meaning of their syntax trees, for any number type and any
  operations, and the 500-slot arrays are large enough exactly up to a known depth.
- **Device-tree maps** (`StableOrder`, `DeviceTreeMap`, `DeviceTreeWalk`, `DeviceTreePlaces`):
  linked lists that are appended to, bubble-sorted in place at every level of a recursive walk, and
  searched. All that sorting amounts to one stable sort of what stands in the tree.
- **Keys and values** (`NaturalOrder`, `NaturalTokens`, `Strescape`, `KeyFileValue`, `KeyFields`,
  `KeyRoundTrip`, `KeyTexts`, `KeyLines`): the natural string order and the printed key language. The
  escapers and the printers of keys and lines are undone by the decoders exactly under stated
  conditions.
- **Benchmark threads** (`RangePartition`, `StopFlag`): handing out a range in 32-bit arithmetic,
  and the stop flag between workers and the thread that joins them, over every interleaving.
- **Derived data** (`LoadGraph`, `LimitedSearch`, `VendorMatch`, `VendorSearch`, `VendorLaws`,
  `VendorDuplicates`, `CpuBits`): a lazily recomputed maximum, weight-ordered rules with a limit,
  removal of duplicates, and a bitset that counts processors.

`CStrings` models C strings as sequences of non-zero bytes; `Seqs` holds facts about
concatenation. `dafny verify dfyconfig.toml` checks everything.

## Where the code differs from what is said about it

The models follow the code.

- A literal goes on over `-` signs (hardinfo2/expr.c:179), so `5-3` is one literal;
  `Lexer.LexPrint` says exactly which texts are read back.
- The code knows no signs. An operator that lacks its left operand takes the value computed last,
  and every operator still waiting takes the one before. That amounts to a zero exactly if nothing
  but zeros was computed before, so if only `(` precede, as in `(-@)*2`
  (`MissingOperand.MissingLeft`); `2*(-@)` is something else (`SensorFormula.InnerSign`).
- A `(` that is never closed is evaluated as an unknown operator, so that its formula counts as zero
  (`SensorFormula.UnclosedIsZero`, `UnclosedInner`); a `)` too many leaves the array
  (`Precedence.UnmatchedClose`).
- `natural_strcmp` is no order once a string has a `+` before a digit: each such string closes a
  cycle (`NaturalTokens.PlusMakesCycle`). A `-` before digits does not disturb the order.
- `gg_strescape` is documented to be undone by `g_strcompress` (includes/hardinfo.h:203-205);
  this fails when the backslash is excepted (`Strescape.RoundTrip`).
- `flatten_group` drops the header, and with it the `@` flag, of a field that has an escaped
  label but no tag, icon or other flag (hardinfo2/info.c:330); such a label is not read back as
  it was, unless it came in escaped and holds nothing to decode (`KeyRoundTrip.BareLabel`). A flag character at the start of a tag is read as part of
  the flags, and one inside a tag is also taken for a set flag (`KeyRoundTrip.KeyRecovered`).
- Names are escaped because of `=`, tags are not: a tag with `=` cuts its line in the wrong place.
  Values are escaped when printed and not decoded when read, so that reading and printing again
  changes every value that needed escaping (`KeyLines.LineRecovered`, `KeyLines.LineReprint`).
- `benchmark_parallel_for` may launch more workers than the `threads_used` it reports
  (`RangePartition.WorkersLaunched`).
- The load graph recomputes its maximum with every 22nd accepted sample, where the comment says
  20, and moves its samples to the left, where the comment says right (shell/loadgraph.c:292-303).
  The maximum, by which the scale is divided, becomes 0 after 22 samples of zero
  (`LoadGraph.FeedZeros`).
- The vendor list is sorted by weight, not by plain length (hardinfo2/vendor.c:42-49), and the two
  number-prefix rules use each other's kind of search (hardinfo2/vendor.c:545-554). The first of
  three passes tries all rules, not only those with parentheses as the comment has it
  (hardinfo2/vendor.c:474-478, 494-495; `VendorLaws.FullTextFirst`).

## Model

| member | source | states |
|---|---|---|
| `Precedence.WellFormedIsSum` | hardinfo2/expr.c:62-78 | The well-formed trees are those of the grammar by levels: sums of `+` and `-`, products of `*` and `/`, powers of `^`, and atoms, every level grouping to the left |
| `Precedence.ThreeOperands` | hardinfo2/expr.c:62-78 | Of any two operators between three operands, the second goes first exactly if it is a `^` behind anything else, or a `*` or `/` behind a `+` or `-` |
| `Precedence.BracketedWraps` | hardinfo2/expr.c:62-78 | Which operands of a bare tree are put in parentheses, by the operator characters |
| `Precedence.UnmatchedClose` | hardinfo2/expr.c:93-112 | A `)` too many at the end of a formula makes the conversion fail; a `(` behind it is forgotten with it |
| `Precedence.UnmatchedOpen` | hardinfo2/expr.c:91-114 | A `(` too many in front of a formula ends up as an operator behind it |
| `Precedence.UnmatchedInner` | hardinfo2/expr.c:91-114 | In `f op ( e` the `(` ends up behind `f e`, in front of the outer operator |
| `ExprSyntax.BracketedIsFaithful` | hardinfo2/expr.c:62-78 | The tree with these parentheses is well-formed and has the meaning and the post-order of the bare tree |
| `ExprSyntax.GrammaticalIsInfix` | hardinfo2/expr.c:80-115 | Every list in which operands and binary operators alternate and parentheses match is the infix notation of some well-formed tree, which is returned |
| `ExprSyntax.InfixIsGrammatical` | hardinfo2/expr.c:80-115 | The converse, in any context: behind the notation of a well-formed tree the list goes on as behind a single operand |
| `ExprSyntax.SignedPrints` | hardinfo2/expr.c:99-102 | The tree a leading sign stands for is well-formed, no deeper, and is written as the formula with a literal and the sign in front |
| `ShuntingYard.InfixToPostfix` | hardinfo2/expr.c:80-115 | The loops over the 500-slot stack give exactly the list of the abstract converter, for every token list, formula or not, that keeps inside the stack |
| `ShuntingYard.ReadToken` | hardinfo2/expr.c:91-108 | One token on the array, including the `t_sp` of -1 that an unmatched `)` leaves |
| `ShuntingYard.PopGroup` | hardinfo2/expr.c:94-97 | Pops down to the last `(`, in stack order |
| `ShuntingYard.PopOperators` | hardinfo2/expr.c:104-106 | Pops exactly the top entries of at least the operator's priority |
| `ShuntingYard.OutputFrame` | hardinfo2/expr.c:80-115 | What has gone to the postfix list never influences the rest of a conversion |
| `YardMeaning.YardReads` | hardinfo2/expr.c:88-109 | Reading a tree's notation on top of any stack it does not disturb pushes its right spine and emits the rest of its post-order |
| `YardMeaning.ConvertsTree` | hardinfo2/expr.c:80-115 | The infix notation of every well-formed tree converts to exactly its post-order |
| `YardMeaning.ConvertsSigned` | hardinfo2/expr.c:99-102 | With a sign in front, the result is the post-order of the formula with a literal in front, less that literal |
| `YardMeaning.ConvertsBehind` | hardinfo2/expr.c:99-100 | A literal put before any list goes to the front of the converted list, and neither fails where the other does not |
| `YardMeaning.ReadsSignedParen` | hardinfo2/expr.c:91-107 | The same for a sign just inside parentheses, at any place of a formula |
| `YardHeight.PeakBound` | hardinfo2/expr.c:82-108 | For any list of parenthesis depth m, formula or not, the stack never holds more than 4m+3 entries and the converter never leaves its array at the bottom |
| `YardHeight.TowerPeak` | hardinfo2/expr.c:82-108 | The bound is reached: at every depth some formula needs 4m+3 entries |
| `YardHeight.DepthLimit` | hardinfo2/expr.c:82-108 | The 500 slots suffice for all formulas of depth d if and only if d is at most 124 |
| `YardHeight.NestedConvertible` | hardinfo2/expr.c:82-108 | Any token list nested no deeper than 124 is converted inside the array |
| `PostfixMachine.PostfixEval` | hardinfo2/expr.c:135-161 | The evaluator's array and `sp` compute the top of the abstract stack, slot 0 being zero |
| `PostfixMachine.EvaluatesTree` | hardinfo2/expr.c:143-158 | Running a tree's post-order pushes the tree's meaning, on any stack and before any remaining input, for any carrier and operations |
| `PostfixMachine.EvaluatesRest` | hardinfo2/expr.c:138-158 | A post-order without its first literal takes the value in the top slot instead |
| `PostfixMachine.TreeRise` | hardinfo2/expr.c:138-160 | A formula of depth d never underflows and raises `sp` to at most 3d+4 |
| `PostfixMachine.EvalDepthLimit` | hardinfo2/expr.c:138-160 | The evaluator's 500 slots suffice for all formulas of depth d if and only if d is at most 165 |
| `Lexer.StringToInfix` | hardinfo2/expr.c:163-194 | The character loops give the list of the abstract lexer, or NULL at an invalid character |
| `Lexer.ReadLiteral` | hardinfo2/expr.c:177-181 | The literal loop copies the longest run of digits, dots and minus signs |
| `Lexer.FormulaChars` | hardinfo2/expr.c:169-186 | The operators, the characters of literals, the dot and the minus among them, and white space |
| `Lexer.LexFails` | hardinfo2/expr.c:186-190 | A text gives NULL exactly if some character of it belongs to no formula |
| `Lexer.LexPrint` | hardinfo2/expr.c:163-194 | Tokens printed with any white space lex back if and only if no literal is directly followed by a literal or a `-`; then every literal fits its buffer if and only if all are shorter than 32 |
| `SensorFormula.StringEval` | hardinfo2/expr.c:209-234 | The composition of the three stages, with the value of slot 0 for a NULL or empty list |
| `SensorFormula.TreeValue` | hardinfo2/expr.c:80-161 | Conversion followed by evaluation gives every well-formed tree of depth up to 124 its meaning, inside both arrays |
| `SensorFormula.GrammaticalValue` | hardinfo2/expr.c:80-161 | Every grammatical token list of depth up to 124 is evaluated as a tree that is written that way |
| `SensorFormula.Unambiguous` | hardinfo2/expr.c:80-161 | Two well-formed trees with one notation have one post-order and one meaning |
| `SensorFormula.FormulaValue` | hardinfo2/expr.c:163-234 | From text to value: a printed tree evaluates to its meaning over the numbers read from its literals |
| `SensorFormula.LeadingSign` | hardinfo2/expr.c:99-160 | A formula behind a sign has the value it has with a literal zero in front; the two conversions differ by that literal alone |
| `SensorFormula.InnerSign` | hardinfo2/expr.c:91-160 | A sign in parentheses behind an operand: in `f op (-e)` the minus takes the value of `f` as its left operand, and `op` is left with the zero of slot 0 |
| `SensorFormula.UnclosedIsZero` | hardinfo2/expr.c:91-160 | A formula behind a `(` that is never closed has the value zero, since the parenthesis is evaluated as an unknown operator |
| `SensorFormula.UnclosedInner` | hardinfo2/expr.c:91-160 | In `f op ( e` the value of both formulas is lost: the outer operator is applied to two zeros |
| `MissingOperand.ConvertsWithout` | hardinfo2/expr.c:80-115 | A formula that lacks any one operand converts to the post-order that lacks the same operand |
| `MissingOperand.EvaluatesWithout` | hardinfo2/expr.c:143-158 | Such a post-order, on any stack and before any remaining input, evaluates with every left operand that is pending at that place shifted to the next, down to the top of the stack |
| `MissingOperand.MissingLiteral` | hardinfo2/expr.c:80-161 | For any formula of depth up to 124 and any of its operands: without it both arrays still suffice, and the value is the one with the shifted operands and zero |
| `MissingOperand.MissingLeft` | hardinfo2/expr.c:80-115 | An operator whose left operand is missing, at any place: the list converts as with a literal zero in front of everything if and only if all that has been emitted by then are literal zeros; when the tokens before hold no literal zero, if and only if nothing but `(` precedes |
| `MissingOperand.MissingZero` | hardinfo2/expr.c:80-161 | Under that condition the value is that of the formula with the zero written out, whatever the numbers and operations are |
| `MissingOperand.BehindOpens` | hardinfo2/expr.c:91-160 | In particular behind nothing but `(`, as in `(-@)*2` |
| `MissingOperand.MissingZeroOnly` | hardinfo2/expr.c:80-161 | The condition is exact: over symbolic values the two values agree if and only if it holds |
| `MissingOperand.ZeroInFront` | hardinfo2/expr.c:80-115 | A formula, `0+-@`, in which something other than `(` precedes the sign and the two conversions still agree |
| `StableOrder.SortIsStable` | hardinfo2/dt_util.c:109-144 | The reference sort sorts, permutes, and keeps ties in order |
| `StableOrder.SortCharacterised` | hardinfo2/dt_util.c:109-144 | A list is the stable sort of another if and only if it is sorted and has the same ties in the same order |
| `StableOrder.ResortHarmless` | hardinfo2/dt_util.c:1142-1147 | Sorting before adding more makes no difference to a later sort |
| `StableOrder.SwapClass` | hardinfo2/dt_util.c:131-134 | Exchanging two neighbours in the wrong order leaves all ties alone |
| `CStrings.StrCmpBytes` | hardinfo2/dt_util.c:127-131 | The comparison of texts is the order of their bytes: by the first that differs, prefixes first |
| `DeviceTreeMap.SortedOrder` | hardinfo2/dt_util.c:109-131 | What sorted means: by rising v, or by labels in the order of bytes |
| `DeviceTreeMap.DtrMapAdd` | hardinfo2/dt_util.c:79-96 | A new node is linked behind all others, which stay as they are |
| `DeviceTreeMap.CompareNodes` | hardinfo2/dt_util.c:127-136 | Neighbours in the wrong order exchange v, label and path; the nodes stay linked |
| `DeviceTreeMap.Pass` | hardinfo2/dt_util.c:119-138 | One pass up to `top` on the nodes does what the pass on lists does, and `next_top` is the node of its last exchange |
| `DeviceTreeMap.PassSettles` | hardinfo2/dt_util.c:119-142 | After a pass everything behind its last exchange is in final place, and that place is strictly before the old `top`: the sort ends |
| `DeviceTreeMap.DtrMapSort` | hardinfo2/dt_util.c:111-144 | The in-place bubble sort leaves the same nodes, linked as before, holding the stable sort of the (v, label, path) entries |
| `DeviceTreeMap.DtrPhandleLookup` | hardinfo2/dt_util.c:146-158 | The path of the first entry with that handle; nothing for the two invalid handles |
| `DeviceTreeMap.DtrAliasLookup` | hardinfo2/dt_util.c:160-168 | The path of the first entry with that label |
| `DeviceTreeMap.DtrAliasLookupByPath` | hardinfo2/dt_util.c:170-188 | The label of the first entry with that path, for aliases and symbols |
| `DeviceTreeMap.InterleavingHarmless` | hardinfo2/dt_util.c:79-144 | Any run of adds and sorts that ends in a sort leaves one stable sort of everything inserted |
| `DeviceTreeMap.PhandleFirstInserted` | hardinfo2/dt_util.c:146-158 | After the sort a handle still finds the entry inserted first |
| `DeviceTreeMap.AliasFirstInserted` | hardinfo2/dt_util.c:160-168 | After the sort a label still finds the entry inserted first |
| `DeviceTreeMap.AliasByPathIsLeast` | hardinfo2/dt_util.c:170-178 | After the sort a path finds, of all its labels, the first in the order of bytes; nothing only if there is none |
| `DeviceTreeWalk.MapField.Record` | hardinfo2/dt_util.c:1096-1130 | One property adds one entry, its path completed by the trigger mode |
| `DeviceTreeWalk.MapField.MapIt` | hardinfo2/dt_util.c:1076-1148 | The recursive walk, which sorts after every directory, leaves one stable sort of the old entries followed by all properties in pre-order |
| `DeviceTreeWalk.MapField.ReadAliases` | hardinfo2/dt_util.c:1018-1074 | Reading a directory of labels leaves the stable sort, by label, of its entries that are paths |
| `DeviceTreeWalk.MapField.VisitAll` | hardinfo2/dt_util.c:1090-1137 | The loop over the sub-directories leaves a list with the ties of the old entries followed by all properties in pre-order |
| `DeviceTreeWalk.WalkStep` | hardinfo2/dt_util.c:1090-1147 | Recording one sub-directory and what is below it, then sorting, keeps ties in walk order |
| `DeviceTreeWalk.WalkLookup` | hardinfo2/dt_util.c:146-158 | After the walk a handle gives the first directory, in pre-order, that claims it |
| `DeviceTreePlaces.WalkInOrder` | hardinfo2/dt_util.c:1090-1137 | The walk finds what stands for the property of every directory below, for each the path written out name by name from the start, in the order of their places in the tree, parents first, and nothing else |
| `DeviceTreePlaces.WalkMembers` | hardinfo2/dt_util.c:1090-1137 | An entry is found exactly if it stands for the property of some place: the first word, or for interrupts of more than one word the second, with the trigger text that the third word names |
| `DeviceTreePlaces.HandleAtEarliest` | hardinfo2/dt_util.c:146-158 | After the walk a handle is found exactly if some property says it, and then at the earliest place that does |
| `DeviceTreePlaces.AliasesInOrder` | hardinfo2/dt_util.c:1029-1036 | Reading a directory of labels finds exactly the string properties that start with `/`, in their order, the name as label and the text as path |
| `NaturalOrder.NaturalStrcmp` | shell/shell.c:89-146 | The pointer loops compute the recursive comparison, NULL pointers included |
| `NaturalOrder.CompareNumbers` | shell/shell.c:104-138 | The numeric branch: the difference of two signed digit runs, and where they end |
| `NaturalOrder.CompareDigits` | shell/shell.c:131-135 | The innermost loop finds the first differing digit |
| `NaturalOrder.Antisymmetric` | shell/shell.c:89-146 | For all strings, NULL and signed numbers included, swapping the arguments negates the result, and equal arguments give 0 |
| `NaturalOrder.WithoutNumbers` | shell/shell.c:93-98 | NULL comes before every string, and where one of two strings has no digit, the order is that of bytes |
| `NaturalOrder.NumberDiffIsDifference` | shell/shell.c:104-138 | Two numbers of any length compare as integers do, except that a `-` counts even before a zero |
| `NaturalOrder.IntegersByValue` | shell/shell.c:89-146 | On two whole-string integers the sign is that of the integer difference if and only if they are not two zeros of which exactly one has a `-` |
| `NaturalTokens.CompareIsLexicographic` | shell/shell.c:89-146 | Without a `+` directly before a digit, the comparison is the lexicographic one on tokens, numbers being unbounded integers |
| `NaturalTokens.TotalPreorder` | shell/shell.c:89-146 | On such strings and NULL it is a total preorder, in which exactly the strings with equal tokens tie |
| `NaturalTokens.PlusMakesCycle` | shell/shell.c:101-138 | Every string with a `+` before a digit forms a strict cycle with two strings without, which are returned |
| `NaturalTokens.OrderExactly` | shell/shell.c:89-146 | Together with the strings without such a `+`, a string is ordered transitively if and only if it has none itself |
| `Strescape.EscapeTable.MakeExcmapDef` | hardinfo2/gg_strescape.c:24-46 | The table marks printable ASCII but quote and backslash |
| `Strescape.EscapeTable.MakeExcmap` | hardinfo2/gg_strescape.c:63-89 | The local table: `extra` overrides `exceptions`, which overrides the default |
| `Strescape.EscapeTable.GgStrescape` | hardinfo2/gg_strescape.c:48-139 | Table set-up and writing loop give the escaped text; the shared table is filled once |
| `Strescape.EscapeTable.Fill` | hardinfo2/gg_strescape.c:91-138 | The writing loop stays within its buffer of four bytes for every byte, and writes the escaped text |
| `Strescape.Escape` | hardinfo2/gg_strescape.c:65-67 | For every source, exceptions and extra bytes, the output has between one and four bytes for each byte of the source |
| `Strescape.RoundTrip` | hardinfo2/gg_strescape.c:48-139 | Decoding gives back every source if and only if the backslash is not excepted, or is listed as extra too |
| `Strescape.OutputBytes` | hardinfo2/gg_strescape.c:91-136 | Every output byte is one that is copied as it is, or belongs to an escape |
| `Strescape.NothingEscaped` | hardinfo2/gg_strescape.c:24-46 | Exactly the texts stay as they are that have no byte of `extra` and, besides the bytes of `exceptions`, only printable ASCII without quote and backslash |
| `Strescape.EscapedForms` | hardinfo2/gg_strescape.c:97-133 | What an escape looks like: the letters of the five control characters, quote and backslash behind a backslash, and three octal digits of the value for any other byte |
| `Strescape.LabelEscape` | includes/shell.h:249 | An escaped label has none of `=`, `$`, `#`, only printable ASCII, between one and four bytes for each, and decodes to the label |
| `KeyFileValue.ParseStringAsValue` | hardinfo2/gg_key_file_parse_string_as_value.c:27-112 | The loop with its leading-space flag writes the escaped field inside its buffer |
| `KeyFileValue.EscapeFrom` | hardinfo2/gg_key_file_parse_string_as_value.c:34-38 | With any separator, the escaped field is at least as long as the field and at most twice as long |
| `KeyFileValue.DecodeJoin` | hardinfo2/gg_key_file_parse_string_as_value.c:27-112 | Escaped fields joined by a usable separator decode to the same list, for every non-empty list |
| `KeyFileValue.Misread` | hardinfo2/gg_key_file_parse_string_as_value.c:47-106 | For every other separator a list is returned that is not read back |
| `KeyFileValue.ListRoundTrip` | hardinfo2/gg_key_file_parse_string_as_value.c:27-112 | All lists survive if and only if the separator is none of s, n, t, r, space, tab and backslash; the bar is usable |
| `KeyFileValue.OneLine` | hardinfo2/gg_key_file_parse_string_as_value.c:43-108 | No raw line break anywhere, and no space or tab in front, with any separator |
| `KeyFileValue.EscapeLed` | hardinfo2/gg_key_file_parse_string_as_value.c:49-98 | Leading blanks are escaped at the start and behind every separator, through line breaks, and nowhere else |
| `KeyFields.FlattenField` | hardinfo2/info.c:294-346 | One field's line: tag, escaping of the label, flags, header and value |
| `KeyFields.FlattenGroup` | hardinfo2/info.c:283-350 | Prints the group line and the fields' lines in the order asked for, or the computed text of a group without fields, and leaves the fields sorted and as they were printed |
| `KeyFields.FlattenFields` | hardinfo2/info.c:294-346 | The loop prints all lines and leaves each field as it was printed |
| `KeyFields.OrderedIsStable` | hardinfo2/info.c:225-257 | For all six comparisons the fields come out sorted, none is lost, and equal ones keep their order |
| `KeyTexts.OrderedBy` | hardinfo2/info.c:213-257 | The six orders of fields, by the bytes of names, values or tags, rising or falling, a missing tag first |
| `KeyTexts.GroupLineParts` | hardinfo2/info.c:287-288 | The line of a group stands between brackets; its name, and behind the last `#` its number, can be read off it |
| `KeyTexts.HeaderWhen` | hardinfo2/info.c:313-331 | A header is printed exactly for a field with a tag, an icon, or a flag other than that of an escaped label, and holds the flags and the tag given, empty or not |
| `KeyTexts.FlagsInOrder` | hardinfo2/info.c:331-336 | The flags stand in the order `@*!^` |
| `KeyTexts.ValueRead` | hardinfo2/info.c:298-344 | A value with the bar is printed raw, any other so that decoding gives it back |
| `KeyFields.KeyMiTag` | shell/shell.c:3366-3386 | The tag: what follows the flag characters, up to the closing `$` |
| `KeyFields.KeyGetComponents` | shell/shell.c:3404-3437 | Flags, tag, name, label and dis of any key; unset for an empty key |
| `KeyTexts.KeyParts` | shell/shell.c:3404-3437 | Of any key: flags and name make up the key; label and dis, with the first `#` between them, make up the name; the label is decoded if the flags say so |
| `KeyTexts.FlagsPart` | shell/shell.c:3407-3420 | The flags part runs from a `$` at the start to the next one; a key without two such has none |
| `KeyRoundTrip.ParseHeader` | shell/shell.c:3366-3437 | What is read of `$flags tag$name` for any tag, also one with a `$` or with flag characters |
| `KeyRoundTrip.KeyRecovered` | hardinfo2/info.c:313-345 | A printed header gives back flags, tag and name if and only if the tag has no `$`, does not start with a flag character and holds no flag that is not set; a generated tag always qualifies |
| `KeyRoundTrip.TagPlace` | hardinfo2/info.c:316-319 | Group and place of a field without tag can be read off its generated tag |
| `KeyRoundTrip.TagsDiffer` | hardinfo2/info.c:316-319 | Two generated tags are equal if and only if group and place are |
| `KeyRoundTrip.LineTagsDiffer` | hardinfo2/info.c:316-337 | No two lines of a printed group are read with the same generated tag |
| `KeyRoundTrip.HeaderLabel` | hardinfo2/info.c:320-337 | With a header, the label is the whole name if it held `=` or `$`, else the part before the first `#` |
| `KeyRoundTrip.BareLabel` | hardinfo2/info.c:320-337 | Without a header, the label is read back if and only if the name is not empty and, if the label came in escaped, holds no backslash before its first `#`, or else did not have to be escaped |
| `KeyRoundTrip.Reprint` | hardinfo2/info.c:636-660 | A key read by `info_unflatten` prints as the same key, in whatever group and place |
| `KeyLines.LineReads` | hardinfo2/info.c:341-344 | A printed key and value are read back from their line if and only if the key holds no `=` and no line end and ends in no blank, and the value holds no line end and starts with no blank |
| `KeyLines.PairsRead` | hardinfo2/info.c:294-346 | Any list of printed keys and values is read back, in order and nothing else, if and only if every one of them is |
| `KeyLines.LinesRead` | hardinfo2/info.c:294-346 | The lines of a group give back all keys and values if and only if every single line does |
| `KeyLines.ValuePlain` | hardinfo2/info.c:298-344 | A printed value is read back as printed if and only if, with a the bar in it, it holds no line end and starts with no blank, and without one it starts with no form feed |
| `KeyLines.LineRecovered` | hardinfo2/info.c:313-345 | The line of a field with a header gives back exactly one key, with flags, tag and name of the field, and the value as printed, if and only if the tag is read back from a key and has no `=` and no line end, and name and value can stand in a line |
| `KeyLines.LineReprint` | hardinfo2/info.c:636-660 | The field read from such a line prints as the same line if and only if the value holds a the bar or nothing that is escaped: values are read raw and escaped once more |
| `KeyRoundTrip.FlagsAgain` | shell/shell.c:3318-3364 | Asking the flags part of a key gives what asking the key gives |
| `RangePartition.ThreadsFor` | modules/benchmark.c:267-276 | The first loop ends with min(threads, items) threads, and with items div threads as chunk size |
| `RangePartition.Launch` | modules/benchmark.c:282-309 | The second loop hands out contiguous chunks of q items, the last below 2q, with no 32-bit wrap |
| `RangePartition.LaunchStep` | modules/benchmark.c:286-297 | What one launch adds to the chunks handed out so far |
| `RangePartition.BenchmarkParallelFor` | modules/benchmark.c:243-332 | For every thread count and every range, empty or reversed ones included: contiguous chunks cover exactly [start, end), each of q to 2q-1 items, handed to n div q workers (single items if no thread is asked for) |
| `RangePartition.ThreadsAskedFor` | modules/benchmark.c:260-276 | The threads used: as many as asked for, the cores for a negative and the logical processors for a zero number, but no more than there are items |
| `RangePartition.BenchmarkParallel` | modules/benchmark.c:222-236 | For all 32-bit counts: as many workers as threads are reported, with one item each, if and only if the number of threads is positive, or zero with a processor count that is not negative |
| `RangePartition.TooMany` | modules/benchmark.c:233-309 | A negative number of threads wraps to a range of which no worker count gives every reported thread one item |
| `RangePartition.ExactlyOnce` | modules/benchmark.c:282-309 | Each item of the range is in exactly one chunk, and no other item is in any |
| `RangePartition.WorkersLaunched` | modules/benchmark.c:267-309 | At least t and fewer than 2t workers, and exactly t if and only if the remainder is smaller than a chunk |
| `StopFlag.WorkerInvariant` | modules/benchmark.c:113-118 | In every reachable state a worker's count is the number of its tests that read 0, and at most one entered callback is missing |
| `StopFlag.MainInvariant` | modules/benchmark.c:151-188 | In every reachable state the result is the sum of the counts of the workers joined, all of which have finished |
| `StopFlag.JoinedResult` | modules/benchmark.c:105-188 | Over every schedule: the joined result is the number of callbacks behind which the flag still read 0; no fewer returned before the flag was set, and at most n entered callbacks are not counted |
| `StopFlag.CountedInTime` | modules/benchmark.c:113-118 | Each counted callback returned while the flag was not set, its worker doing nothing between that return and the counting test |
| `StopFlag.StepsAfterStop` | modules/benchmark.c:113-118 | Once the flag is set a worker makes at most three more steps |
| `StopFlag.EndsAfterStop` | modules/benchmark.c:177-188 | Once the flag is set no run goes on for more than 4n steps |
| `StopFlag.NoDeadlock` | modules/benchmark.c:151-188 | Until all workers are joined some thread can always move |
| `LoadGraph.LoadGraph.constructor` | shell/loadgraph.c:49-77 | Starts with a zero window and the maximum 1 |
| `LoadGraph.LoadGraph.Clear` | shell/loadgraph.c:119-133 | Goes back to that state |
| `LoadGraph.LoadGraph.Update` | shell/loadgraph.c:284-316 | Keeps the invariant: the window is the last samples, the counter is their number modulo 22, and the maximum is that of the window stretched back by the counter, or of all samples and 1 before the 22nd; negative samples change nothing |
| `LoadGraph.LoadGraph.TakeMaximum` | shell/loadgraph.c:300-316 | The counter and the maximum after one more sample, recomputed with every 22nd |
| `LoadGraph.LoadGraph.Shift` | shell/loadgraph.c:292-298 | The shifting loop drops the oldest sample and appends the new one |
| `LoadGraph.LoadGraph.WindowMax` | shell/loadgraph.c:305-309 | The recomputation finds the maximum of the window |
| `LoadGraph.StretchWindow` | shell/loadgraph.c:313-315 | Taking the maximum with the new sample stretches the window by it |
| `LoadGraph.MaxCoversData` | shell/loadgraph.c:119-133 | In every reachable state no stored sample exceeds the maximum, which is exact over the stretched window or, before the 22nd sample, over all samples and 1 |
| `LoadGraph.ScaleDivisor` | shell/loadgraph.c:318-319 | The divisor of the scale is 0 if and only if at least 22 samples have been taken and those in the stretched window are all zero |
| `LoadGraph.FeedZeros` | shell/loadgraph.c:284-319 | Such states are reached: after n samples of zero the divisor is 1 for n below 22, and 0 from then on |
| `LimitedSearch.LimitCutsOff` | hardinfo2/vendor.c:508-513 | In any such search, a limit only cuts off what the unlimited search goes on to find |
| `VendorMatch.LimitIsPrefix` | hardinfo2/vendor.c:468-565 | For every string, rule list and limit of at least 1, the limited result is the first entries of the unlimited one |
| `VendorMatch.FirstMatch` | hardinfo2/vendor.c:254-278 | On a string without `(`, the first entry that matches is the result; nothing if none does |
| `VendorMatch.VendorListOrder` | hardinfo2/vendor.c:44-49 | The list is sorted by falling weight, ties by falling file line |
| `VendorLaws.WeightIs` | hardinfo2/vendor.c:154-158 | The weight is the length of the match string, and one more for the two number rules |
| `VendorLaws.RuleMatches` | hardinfo2/vendor.c:514-555 | Where every kind of rule matches: the search it uses, and for the number rules a digit behind the match |
| `VendorLaws.WhenTried` | hardinfo2/vendor.c:488-496 | A rule is looked for in the text of the pass, a rule with a `(` only in pass 3, an entry without match string never |
| `VendorLaws.BlankedKeeps` | hardinfo2/vendor.c:503-506 | Of a buffer's bytes, blanks aside, exactly those outside the match are left, in their order |
| `VendorLaws.BlankedBuffers` | hardinfo2/vendor.c:502-506 | A match is blanked in the buffer of its own pass and of those to come, in no other |
| `VendorLaws.ParensBlanked` | hardinfo2/vendor.c:480-484 | The second of three passes sees spaces exactly in place of what stands in parentheses, closed or not |
| `VendorLaws.LookOrder` | hardinfo2/vendor.c:486-487 | Every pass goes through the whole list, the highest pass first |
| `VendorLaws.FoundFits` | hardinfo2/vendor.c:486-557 | If searches report true occurrences, the match strings found on a string without `(` have together, blanks aside, no more bytes than the string |
| `VendorLaws.WholeMatchEnds` | hardinfo2/vendor.c:508-513 | On a string without `(`, a first match of the whole string is the only result, whatever the limit |
| `VendorLaws.FullTextFirst` | hardinfo2/vendor.c:486-513 | A string with `(` is tried as it is first, with all rules: a first match of the whole of it is the only result |
| `VendorMatch.BestIsHeaviest` | hardinfo2/vendor.c:254-278 | On a string without `(`, the result is a matching rule without parentheses of the greatest weight, of these the last in the file; nothing only if no rule matches |
| `VendorSearch.BlankParensIn` | hardinfo2/vendor.c:480-484 | The nested loops blank what stands in parentheses, to the end if one is not closed, and choose the number of passes |
| `VendorSearch.BlankMatch` | hardinfo2/vendor.c:502-506 | A match is overwritten with spaces and the buffer stripped |
| `VendorSearch.TryVendor` | hardinfo2/vendor.c:487-555 | One rule on one pass: whether it matches, what is blanked, and whether the search ends |
| `VendorSearch.SearchPass` | hardinfo2/vendor.c:487-556 | One pass through the list |
| `VendorSearch.VendorsMatchCore` | hardinfo2/vendor.c:468-565 | All passes over the three buffers give the result of the abstract search |
| `VendorSearch.VendorMatchFirst` | hardinfo2/vendor.c:254-278 | The first entry of a search with limit 1; nothing for an empty string |
| `VendorDuplicates.DeepOrder` | hardinfo2/vendor.c:399-417 | The deep comparison is a total preorder, NULL first, in which exactly the rules with the same six texts tie |
| `VendorDuplicates.FirstDifference` | hardinfo2/vendor.c:399-417 | The first of the six texts that differs decides, by its bytes; missing texts and rules come first |
| `VendorDuplicates.RemoveDuplicatesDeep` | hardinfo2/vendor.c:419-438 | The two loops: each entry removes its duplicates behind it |
| `VendorDuplicates.KeepsFirsts` | hardinfo2/vendor.c:419-438 | What is left are exactly the entries that duplicate no earlier one, in their order |
| `VendorDuplicates.NoDuplicatesLeft` | hardinfo2/vendor.c:419-438 | No two entries that are left compare equal |
| `VendorDuplicates.NothingLost` | hardinfo2/vendor.c:419-438 | Every entry compares equal to one that is left, which is returned |
| `CpuBits.CpubitsCount` | hardinfo2/cpu_util.c:69-82 | The word and bit loops count the distinct ids that are set |
| `CpuBits.SetId` | hardinfo2/cpu_util.c:127-131 | Or-ing a bit into its word adds one id to the set and nothing else |
| `CpuBits.CountPacksAndCores` | hardinfo2/cpu_util.c:122-139 | The marking loop and the two counts give the numbers of distinct package ids and core ids, out-of-range ids counting as 0 |
| `CpuBits.IdsClamped` | hardinfo2/cpu_util.c:125-130 | Package ids, and core ids in blocks of 256 for every package, count as 0 if they do not fit 65536 bits |
| `CpuBits.CoresArePairs` | hardinfo2/cpu_util.c:125-134 | With package and core ids below 256, the core count is the number of distinct (package, core) pairs |
| `CpuBits.CountFromStr` | hardinfo2/cpu_util.c:83-98 | The loop that cuts the string up with NULs counts the items of the list, whatever bytes it holds, with the blanks and signs that `atoi` accepts |
| `CStrings.AtoiSigned` | hardinfo2/cpu_util.c:89-92 | Blanks and a sign in front of a number, as `atoi` reads them |
| `CpuBits.PrintedListCount` | hardinfo2/cpu_util.c:83-98 | A printed list of ordered ranges counts as the sum of their sizes, with or without a newline at the end |

## Left out

- User interface, file and sysfs reads, processes, network and D-Bus: what they return is a
  parameter (`Dir`, `AliasProp`, `Cpu`, thread counts).
- Floating-point rounding, `sscanf`, `powf`: numbers are an abstract type, and the number read from
  a literal is a function of its text. From a literal such as `.` the code reads no number and
  leaves a variable unset; the model gives it some value.
- Lexer.StringToInfix: what happens when a literal overruns its 32 bytes; `LexPrint` says when.
- ShuntingYard.InfixToPostfix: what happens once the 500-slot array has been left; the depth limits
  say when it is not.
- PostfixMachine.PostfixEval: the same for the evaluator's array.
- DeviceTreeMap.DtrMapSort: missing labels when sorting by label, on which the code calls `strcmp`.
- DeviceTreeMap.DtrPhandleLookup: the object that owns the list; the lookups are given the list.
- DeviceTreeMap.AliasFirstInserted: the C field `label` is named `alias`.
- DeviceTreeWalk.MapField.Record: properties with fewer 32-bit words than the code reads.
- DeviceTreeWalk.MapField.ReadAliases: aliases and symbols, whose code is the same, share one model.
- GLib: its list, sort, thread and atomic functions are modelled by their contracts,
  `g_strcompress` and the decoding of key-file lists as reference functions. GLib's own decoding of
  lists also drops an empty last piece.
- KeyLines.LinesRead: of what GLib does with a key file only the cuts at line ends and at the first
  `=` and the dropping of blanks there; not comments, group lines, a carriage return at a line end,
  brackets in keys, repeated keys, or the validation of UTF-8.
- KeyFields.FlattenGroup: NULL values, and group counts beyond the range of `%d`.
- KeyRoundTrip.BareLabel: labels marked as escaped that look like a key with a header; no label that
  was escaped has a `$`.
- Strescape.EscapeTable.GgStrescape: NULL exceptions and NULL extra bytes count as empty.
- KeyFields.KeyGetComponents: calls in which some results are not asked for. The UTF-8 searches are
  byte searches, which agree for ASCII characters.
- `Unflatten`: shell parameters and whatever else belongs to groups rather than keys.
- RangePartition.BenchmarkParallelFor: the callbacks, the sum of their results, and the timing.
- StopFlag.JoinedResult: workers without a callback, and the clock; the schedule sets the flag at
  any time.
- LoadGraph.LoadGraph.Update: the conversion of the sample to an integer, the scale and the drawing.
- The loader of the vendor file and the searches of `strstr_word.h`: `Finder` is any function to an
  optional position; a position so late that the match string would not fit counts as none.
- VendorSearch.VendorMatchFirst: the concatenation of the arguments.
- VendorDuplicates.RemoveDuplicatesDeep: the links of the GLib list; the list is a sequence that is
  reassigned.
- CpuBits.CountPacksAndCores: the cache, the sanity defaults and the count of nodes.
- CpuBits.CountFromStr: overflow of `int`.
- Allocation and release of memory.
- USB sorting, size and time formatting, chassis and memory tables: easy members.
