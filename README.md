# phpbench assertion parser, subject metadata and script templating, in Dafny

This project models three pieces of phpbench, the PHP benchmarking tool:

- **The assertion-expression parser** (`lib/Assertion/ExpressionParser.php`).
  It turns assertion strings into a small syntax tree. Examples are
  `mode.time < 5 seconds +/- 10%` and `mode.mem within 2% of baseline.mem`.
  The tree has four value nodes:
  - `PercentageValue`;
  - `TimeValue`;
  - `MemoryValue`;
  - `PropertyAccess`.

  It has two root nodes:
  - `Comparison`;
  - `WithinRangeOf`.

  The parser is modelled as pure functions over strings (`expression_parser.dfy`, with
  the syntax tree in `ast.dfy`). Each parser returns either nothing or the node
  together with the unconsumed rest of the input. Alternatives are ordered and each
  one backtracks fully.

  Each node has a canonical text (`Ast.NodeText`). That text is the reference the
  parser is proved against, in `parser_properties.dfy`. Parsing the text of any
  well-formed comparison gives back that comparison. Parsing the text of a
  within-node gives back its subject, range and anchor, but not its tolerance
  (see below).
- **Subject metadata** (`lib/Benchmark/Metadata/SubjectMetadata.php`). This is the
  mutable configuration record of one benchmark subject. It is modelled as a class
  with one field per PHP property (`subject_metadata.dfy`). Every setter states
  that it changes its own field and nothing else.
- **Script preparation in `Telespector`** (`lib/Benchmark/Telespector.php`). This
  covers:
  - resolving the bootstrap path;
  - the two existence checks, in order, with their messages;
  - forcing the `bootstrap` parameter;
  - building the `{{ key }}` token table.

  It is modelled in `telespector.dfy`. File existence is passed in as the set of
  paths that exist.

Assumptions about the parser-combinator library, whose code is not part of this
model:

- `whitespace()` consumes one or more spaces or tabs.
- `float()` reads `digits.digits`, and `integer()` reads `digits`. Neither accepts
  a sign or an exponent.
- `stringI()` compares ASCII letters without regard to case.
- `alphaChar()` accepts ASCII letters.
- `tryString()` does not check that the whole input was consumed.

Three behaviours of the code differ from what a reader of the grammar would expect. The model follows the code:

- **Trailing input is not rejected.** `parse` calls `tryString(...)->output()`
  (ExpressionParser.php line 42) with no end-of-input parser. So text after a complete
  expression is not a parse error. `ExpressionParser.Parse` returns that rest.
  `ParserProperties.RoundTrip` shows that blank-led text after a tolerance is
  handed back unchanged; without a tolerance it covers only the empty rest.
- **`WithinRangeOf` never carries a tolerance.** The `WithinRangeOf` node has a
  tolerance, and the grammar reads one, but the code builds the node from the three values alone (line 72) and
  drops any tolerance it parsed. The datatype keeps the field, and the parser
  always leaves it empty.
- **A unit word need not end the word.** `stringI` stops after the unit word and
  nothing checks what follows it (lines 77-88, 109-122). So `10 secondsx` is read as
  ten seconds with `x` left over, and `10 bytesize` as ten bytes with `ize` left
  over; `a.b < 10 secondsx` parses as `a.b < 10 seconds`.
  `ParserProperties.TimeValueExact` and `ParserProperties.MemoryValueExact` state
  this for any text after the unit word.

## Model

| member | source | states |
|---|---|---|
| ExpressionParser.Or | lib/Assertion/ExpressionParser.php:40-41 | `->or(...)`: ordered choice; succeeds when either alternative does, and the second is used only when the first fails |
| ExpressionParser.Str | lib/Assertion/ExpressionParser.php:93-97 | `string(w)` and `char(c)`: succeed exactly when the input starts with `w`, and the input is `w` followed by the rest |
| ExpressionParser.StrI | lib/Assertion/ExpressionParser.php:63 | `stringI(w)`: succeeds exactly when the input starts with `w` in any letter case, and consumes exactly `|w|` characters |
| ExpressionParser.Span1 | lib/Assertion/ExpressionParser.php:102-103 | `atLeastOne(...)` over characters: succeeds exactly when the first character passes the test; reads a non-empty run of passing characters, and the character after it does not pass |
| ExpressionParser.Whitespace | lib/Assertion/ExpressionParser.php:138 | `whitespace()` succeeds exactly when the input starts with a blank; everything it consumes is blanks, it consumes at least one character, and no blank is left at the head of the rest |
| ExpressionParser.OptionalWhitespace | lib/Assertion/ExpressionParser.php:142 | `whitespace()->optional()` never fails; everything it consumes is blanks, and no blank is left at the head of the rest |
| ExpressionParser.FloatP | lib/Assertion/ExpressionParser.php:110 | `float()` yields a numeral with a fraction; the input is its text `digits.digits` followed by a rest that does not start with a digit |
| ExpressionParser.IntegerP | lib/Assertion/ExpressionParser.php:110 | `integer()` succeeds exactly when the input starts with a digit; the input is the whole number's text followed by a rest that does not start with a digit |
| ExpressionParser.NumberP | lib/Assertion/ExpressionParser.php:110 | `float()->or(integer())` succeeds exactly when the input starts with a digit; the input is the numeral's text followed by the rest; the rest does not start with a digit, and a whole number is read only when no `.digit` follows |
| ExpressionParser.TimeUnitP | lib/Assertion/ExpressionParser.php:75-81 | succeeds exactly when the input starts, in any case, with `microseconds`, `milliseconds` or `seconds`; consumes exactly the unit word |
| ExpressionParser.MemoryUnitP | lib/Assertion/ExpressionParser.php:83-89 | succeeds exactly when the input starts, in any case, with `bytes`, `kilobytes`, `megabytes` or `gigabytes`; consumes exactly the unit word |
| ExpressionParser.ComparatorP | lib/Assertion/ExpressionParser.php:91-98 | succeeds exactly when the input starts with `<`, `=` or `>`; the input is the comparator's symbol followed by the rest; after `<` or `>`, a following `=` is taken into `<=` or `>=` (`==` is read as `=` with `=` left over) |
| ExpressionParser.DotSegments | lib/Assertion/ExpressionParser.php:100-105 | reads every further `.segment` there is; each segment is letters or `_`, and no `.segment` is left behind |
| ExpressionParser.PropertyAccessP | lib/Assertion/ExpressionParser.php:100-105 | a path has at least two segments; the input is the path's text followed by the rest; the path is read as far as it goes |
| ExpressionParser.PercentageP | lib/Assertion/ExpressionParser.php:125-132 | yields a well-formed percentage value and consumes input |
| ExpressionParser.TimeValueP | lib/Assertion/ExpressionParser.php:107-114 | yields a well-formed time value and consumes input |
| ExpressionParser.MemoryValueP | lib/Assertion/ExpressionParser.php:116-123 | yields a well-formed memory value and consumes input |
| ExpressionParser.ValueP | lib/Assertion/ExpressionParser.php:45-51 | yields a well-formed value and consumes input |
| ExpressionParser.SignP | lib/Assertion/ExpressionParser.php:150 | `string('+/-')->or(char('±'))` succeeds exactly when the input starts with `+/-` or `±`, and consumes input |
| ExpressionParser.ToleranceP | lib/Assertion/ExpressionParser.php:147-154 | succeeds only on input that starts with `+/-` or `±`, and yields a well-formed value; `ToleranceSignExact` gives the converse |
| ExpressionParser.OptionalTolerance | lib/Assertion/ExpressionParser.php:143 | a tolerance is present exactly when the tolerance parser succeeds, and is then the value it read with the rest it left; when absent, nothing is consumed |
| ExpressionParser.SpacedWord | lib/Assertion/ExpressionParser.php:62-68 | a keyword with blanks on both sides consumes input; on success the input starts with one or more blanks followed by the keyword, in any letter case |
| ExpressionParser.LastOperand | lib/Assertion/ExpressionParser.php:141-143 | the last value with its optional tolerance succeeds exactly when the value does |
| ExpressionParser.RangeAndAnchor | lib/Assertion/ExpressionParser.php:65-71 | the part of the within-form after ` within ` yields two well-formed values, the range and the anchor, and consumes input |
| ExpressionParser.WithinP | lib/Assertion/ExpressionParser.php:58-73 | yields a well-formed within-node without a tolerance |
| ExpressionParser.ComparisonP | lib/Assertion/ExpressionParser.php:134-145 | yields a well-formed comparison node |
| ExpressionParser.Parse | lib/Assertion/ExpressionParser.php:37-43 | yields a well-formed root node and the unconsumed rest; a within-node never has a tolerance |
| ParserProperties.Span1Exact | lib/Assertion/ExpressionParser.php:102-103 | a run of characters that all pass the test, followed by one that does not, is read as exactly that run |
| ParserProperties.BlankExact | lib/Assertion/ExpressionParser.php:138 | a single blank before a non-blank is consumed by required and optional whitespace alike |
| ParserProperties.IntegerExact | lib/Assertion/ExpressionParser.php:110 | `digits` followed by neither a digit nor `.` is read back as a whole number, by the float alternative failing first |
| ParserProperties.FractionExact | lib/Assertion/ExpressionParser.php:110 | `digits.digits` is read back by `float()->or(integer())` as a numeral with a fraction |
| ParserProperties.NumeralExact | lib/Assertion/ExpressionParser.php:110 | the text of any numeral is read back as that numeral, when neither a digit nor `.` follows |
| ParserProperties.TimeUnitExact | lib/Assertion/ExpressionParser.php:75-81 | each time unit word is read as its own unit, although `seconds` comes last in the alternatives |
| ParserProperties.MemoryUnitExact | lib/Assertion/ExpressionParser.php:83-89 | each memory unit word is read as its own unit |
| ParserProperties.MemoryWordIsNotTimeUnit | lib/Assertion/ExpressionParser.php:75-89 | no memory unit word is taken for a time unit |
| ParserProperties.TimeUnitsIgnoreCase | lib/Assertion/ExpressionParser.php:75-81 | two texts that differ only in letter case give the same time unit, or both none |
| ParserProperties.MemoryUnitsIgnoreCase | lib/Assertion/ExpressionParser.php:83-89 | two texts that differ only in letter case give the same memory unit, or both none |
| ParserProperties.OtherWordIsNoUnit | lib/Assertion/ExpressionParser.php:107-123 | a number followed by any run of blanks, none included (`10foo`, `10  foo`, `10\tfoo`), and then a word that begins with none of the seven unit words is neither a time value nor a memory value |
| ParserProperties.ComparatorExact | lib/Assertion/ExpressionParser.php:91-98 | each comparator symbol is read back as that comparator when no `=` follows |
| ParserProperties.TwoCharacterComparators | lib/Assertion/ExpressionParser.php:91-98 | `<=` and `>=` are read whole, never as `<` or `>` with a leftover `=` |
| ParserProperties.SymbolIsNotWord | lib/Assertion/ExpressionParser.php:62-64 | a comparator symbol is never the start of a keyword |
| ParserProperties.DotSegmentsStep | lib/Assertion/ExpressionParser.php:102-104 | proof helper: unfolds one `.segment` step of the repeated part, so that a dot, a segment and what the rest reads give that segment in front of the rest's segments |
| ParserProperties.DotSegmentsExact | lib/Assertion/ExpressionParser.php:100-105 | the dotted tail of any list of valid segments is read back as that list |
| ParserProperties.PathExact | lib/Assertion/ExpressionParser.php:100-105 | the text of a path of two or more valid segments is read back as that path |
| ParserProperties.NoDotNoPath | lib/Assertion/ExpressionParser.php:100-105 | text with no `.`, such as a lone `mode`, is not a property path |
| ParserProperties.ValueTextStart | lib/Assertion/ExpressionParser.php:45-51 | the text of a value starts with a digit exactly when the value is not a path, and with a letter or `_` otherwise |
| ParserProperties.PercentageExact | lib/Assertion/ExpressionParser.php:125-132 | a numeral followed by `%` is read back as that percentage |
| ParserProperties.WordIsNotPercentage | lib/Assertion/ExpressionParser.php:125-132 | a numeral followed by a blank and a word is not a percentage |
| ParserProperties.TimeValueSteps | lib/Assertion/ExpressionParser.php:107-114 | proof helper: unfolds the time-value parser, which yields the number and the unit it read and the rest after the unit |
| ParserProperties.NoTimeUnitSteps | lib/Assertion/ExpressionParser.php:107-114 | proof helper: unfolds the time-value parser, which fails when no time unit follows the number and its optional blanks |
| ParserProperties.MemoryValueSteps | lib/Assertion/ExpressionParser.php:116-123 | proof helper: unfolds the memory-value parser, which yields the number and the unit it read and the rest after the unit |
| ParserProperties.TimeValueExact | lib/Assertion/ExpressionParser.php:107-114 | a numeral, a blank and a time unit word are read back as that time value, whatever text follows the word, even letters |
| ParserProperties.MemoryValueExact | lib/Assertion/ExpressionParser.php:107-123 | a numeral, a blank and a memory unit word are not a time value, and are read back as that memory value, whatever text follows the word, even letters |
| ParserProperties.PercentageReadBack | lib/Assertion/ExpressionParser.php:45-51 | the value parser reads a percentage's text back as that percentage |
| ParserProperties.TimeReadBack | lib/Assertion/ExpressionParser.php:45-51 | the value parser reads a time value's text back, after the percentage alternative fails |
| ParserProperties.MemoryReadBack | lib/Assertion/ExpressionParser.php:45-51 | the value parser reads a memory value's text back, after the percentage and time alternatives fail |
| ParserProperties.PathReadBack | lib/Assertion/ExpressionParser.php:45-51 | the value parser reads a path's text back, after the three numeric alternatives fail |
| ParserProperties.ValueExact | lib/Assertion/ExpressionParser.php:45-51 | the text of every well-formed value is read back as that value, whatever blank-led text follows |
| ParserProperties.ValueAlternativeOrder | lib/Assertion/ExpressionParser.php:45-51 | the kind of value read says which alternatives failed first: percentage, then time, then memory, then path |
| ParserProperties.DigitIsNeverPath | lib/Assertion/ExpressionParser.php:45-51 | text starting with a digit, such as `10%` or `10 seconds`, is never read as a property path |
| ParserProperties.ToleranceExact | lib/Assertion/ExpressionParser.php:142-154 | the optional blank and a tolerance's text `+/- value` are read back as that tolerance, and what follows is returned |
| ParserProperties.ToleranceSteps | lib/Assertion/ExpressionParser.php:147-154 | proof helper: unfolds the tolerance parser, which yields the value read after the sign and the optional blanks |
| ParserProperties.ToleranceSignExact | lib/Assertion/ExpressionParser.php:150-152 | either sign, `+/-` or `±`, followed by any run of blanks (none included) and a value's text, is read as a tolerance of that value |
| ParserProperties.TrailerExact | lib/Assertion/ExpressionParser.php:142-154 | the optional blank and tolerance after the last value are read back, and what follows is returned |
| ParserProperties.LastOperandExact | lib/Assertion/ExpressionParser.php:141-143 | the last value of an expression and its tolerance are read back together |
| ParserProperties.SpacedWordExact | lib/Assertion/ExpressionParser.php:60-63 | a keyword between single blanks is consumed with both blanks |
| ParserProperties.KeywordExact | lib/Assertion/ExpressionParser.php:62-68 | a keyword between single blanks is read before a value's text, and the value's text is left; used for ` within ` and ` of ` |
| ParserProperties.SymbolHead | lib/Assertion/ExpressionParser.php:91-98 | the text of every comparator starts with `<`, `=` or `>` |
| ParserProperties.ComparatorIsNotWithin | lib/Assertion/ExpressionParser.php:58-63 | after a value, a comparator makes the within-form fail |
| ParserProperties.OperatorExact | lib/Assertion/ExpressionParser.php:138-140 | a comparator between two blanks, before a value's text, is read back |
| ParserProperties.ComparisonSteps | lib/Assertion/ExpressionParser.php:134-145 | proof helper: unfolds the comparison-form, which succeeds when each of its steps does and builds the node from left value, operator, right value and tolerance, in that order |
| ParserProperties.ComparisonFormExact | lib/Assertion/ExpressionParser.php:134-145 | the text of a comparison is read back by the comparison-form as that comparison, tolerance included |
| ParserProperties.ComparisonRoundTrip | lib/Assertion/ExpressionParser.php:37-43 | `Parse` reads the text of a comparison back as that comparison |
| ParserProperties.WithinSteps | lib/Assertion/ExpressionParser.php:58-73 | proof helper: unfolds the within-form, which succeeds when each of its steps does and builds the node from subject, range and anchor, leaving the tolerance out |
| ParserProperties.WithinHeadExact | lib/Assertion/ExpressionParser.php:60-64 | the subject's text and ` within ` are read back |
| ParserProperties.WithinTailExact | lib/Assertion/ExpressionParser.php:66-71 | ` of `, the anchor and its tolerance are read back, and what follows is returned |
| ParserProperties.WithinFormExact | lib/Assertion/ExpressionParser.php:58-73 | the text of a within-node is read back by the within-form as its subject, range and anchor |
| ParserProperties.WithinRoundTrip | lib/Assertion/ExpressionParser.php:58-73 | `Parse` reads the text of a within-node back as its subject, range and anchor, with no tolerance |
| ParserProperties.RoundTrip | lib/Assertion/ExpressionParser.php:37-43 | every well-formed node's text parses back to that node (a within-node without its tolerance); blank-led text after a tolerance is returned unconsumed |
| ParserProperties.WithinDropsTolerance | lib/Assertion/ExpressionParser.php:72 | a within-expression parses to the same node with or without a trailing tolerance |
| ParserProperties.LoneValueFails | lib/Assertion/ExpressionParser.php:37-43 | a lone value such as `5 seconds`, with no comparator and no `within ... of`, does not parse |
| ParserProperties.ComparisonHasOperator | lib/Assertion/ExpressionParser.php:134-145 | the comparison-form succeeds only on input that holds `<`, `=` or `>` somewhere |
| ParserProperties.WithinHasKeyword | lib/Assertion/ExpressionParser.php:58-73 | the within-form succeeds only on input in which `within`, in any letter case, starts somewhere |
| ParserProperties.SpacedWordAt | lib/Assertion/ExpressionParser.php:61-68 | the keyword of ` within ` / ` of ` starts after one or more blanks, and everything handed back lies past it |
| ParserProperties.RangeAndAnchorHasOf | lib/Assertion/ExpressionParser.php:64-71 | the part after ` within ` succeeds only if `of`, in any letter case, starts somewhere in it |
| ParserProperties.WithinHasBothKeywords | lib/Assertion/ExpressionParser.php:58-73 | the within-form succeeds only if `within` starts somewhere and `of` starts at a later position |
| ParserProperties.NoOperatorNoParse | lib/Assertion/ExpressionParser.php:37-43 | any input with no `<`, `=` or `>` and no `of` after a `within` does not parse, for example `5 seconds 6 seconds`, `a.b within 5 seconds` or `mode.withinx 5 seconds` |
| ParserProperties.ParseAlternativeOrder | lib/Assertion/ExpressionParser.php:37-43 | the within-form is tried first; the comparison-form is used only when the within-form fails |
| Metadata.SubjectMetadata.constructor | lib/Benchmark/Metadata/SubjectMetadata.php:23-121 | name and benchmark as given. Defaults: iterations `[1]`, revs `[1]`, warmup `[0]`, skip false, sleep 0, timeout 0; retry threshold, output time unit, precision and mode null; all lists empty; no executor |
| Metadata.Intersect | lib/Benchmark/Metadata/SubjectMetadata.php:166 | `array_intersect` keeps exactly the elements of the first list that occur in the second |
| Metadata.SubjectMetadata.InGroups | lib/Benchmark/Metadata/SubjectMetadata.php:164-167 | true exactly when the subject's groups and the given groups share an element; false when either is empty |
| Metadata.IntersectEmptyIffDisjoint | lib/Benchmark/Metadata/SubjectMetadata.php:166 | the intersection is empty exactly when the lists are disjoint, whichever list comes first |
| Metadata.SubjectMetadata.SetParameterSets | lib/Benchmark/Metadata/SubjectMetadata.php:136-139 | the parameter sets become the given ones; no other field changes |
| Metadata.SubjectMetadata.SetGroups | lib/Benchmark/Metadata/SubjectMetadata.php:169-172 | the groups become the given ones; no other field changes |
| Metadata.SubjectMetadata.SetBeforeMethods | lib/Benchmark/Metadata/SubjectMetadata.php:179-182 | the before-methods become the given ones; no other field changes |
| Metadata.SubjectMetadata.SetAfterMethods | lib/Benchmark/Metadata/SubjectMetadata.php:189-192 | the after-methods become the given ones; no other field changes |
| Metadata.SubjectMetadata.SetParamProviders | lib/Benchmark/Metadata/SubjectMetadata.php:199-204 | the providers become the given ones; no other field changes; the subject itself is returned |
| Metadata.SubjectMetadata.SetIterations | lib/Benchmark/Metadata/SubjectMetadata.php:211-214 | the iterations become the given ones; no other field changes |
| Metadata.SubjectMetadata.SetRevs | lib/Benchmark/Metadata/SubjectMetadata.php:221-224 | the revs become the given ones; no other field changes |
| Metadata.SubjectMetadata.SetSkip | lib/Benchmark/Metadata/SubjectMetadata.php:231-234 | the skip flag becomes the given one; no other field changes |
| Metadata.SubjectMetadata.SetSleep | lib/Benchmark/Metadata/SubjectMetadata.php:241-244 | the sleep becomes the given one; no other field changes |
| Metadata.SubjectMetadata.SetOutputTimeUnit | lib/Benchmark/Metadata/SubjectMetadata.php:251-254 | the output time unit becomes the given one; no other field changes |
| Metadata.SubjectMetadata.SetOutputTimePrecision | lib/Benchmark/Metadata/SubjectMetadata.php:261-264 | the output time precision becomes the given one; no other field changes |
| Metadata.SubjectMetadata.SetOutputMode | lib/Benchmark/Metadata/SubjectMetadata.php:271-274 | the output mode becomes the given one; no other field changes |
| Metadata.SubjectMetadata.SetWarmup | lib/Benchmark/Metadata/SubjectMetadata.php:281-284 | the warmup becomes the given one; no other field changes |
| Metadata.SubjectMetadata.SetRetryThreshold | lib/Benchmark/Metadata/SubjectMetadata.php:291-294 | the retry threshold becomes the given one; no other field changes |
| Metadata.SubjectMetadata.AddAssertion | lib/Benchmark/Metadata/SubjectMetadata.php:296-299 | the assertion is appended after the existing ones, whose order is kept; no other field changes |
| Metadata.SubjectMetadata.SetAssertions | lib/Benchmark/Metadata/SubjectMetadata.php:304-311 | afterwards the assertions are exactly the given list, in order, whatever was there before; no other field changes |
| Metadata.SubjectMetadata.SetExecutor | lib/Benchmark/Metadata/SubjectMetadata.php:326-329 | the executor becomes the given one; no other field changes |
| Metadata.SubjectMetadata.SetTimeout | lib/Benchmark/Metadata/SubjectMetadata.php:336-339 | the timeout becomes the given one; no other field changes |
| Benchmark.Lookup | lib/Benchmark/Telespector.php:58 | reading a key of a PHP array gives nothing exactly when the key is absent, and otherwise the value stored under it |
| Benchmark.Assign | lib/Benchmark/Telespector.php:58 | after `$array[$key] = $value` the key holds the value, the other keys keep theirs, and a new key adds one entry |
| Benchmark.AssignKeepsPositions | lib/Benchmark/Telespector.php:58 | an assignment overwrites in place: every existing entry keeps its key at its position |
| Benchmark.AssignAppends | lib/Benchmark/Telespector.php:58 | assigning to a new key appends its entry after all existing ones |
| Benchmark.AssignDistinct | lib/Benchmark/Telespector.php:58 | assignment keeps the keys of a PHP array distinct |
| Benchmark.LastSlash | lib/Benchmark/Telespector.php:38 | finds the last `/` of a path: no later character is a `/`, and there is none at all when nothing is found |
| Benchmark.Dirname | lib/Benchmark/Telespector.php:38 | the configuration directory is the part of the path before its last `/`: `/` at the root, `.` for a bare file name |
| Benchmark.Telespector.constructor | lib/Benchmark/Telespector.php:35-39 | keeps the bootstrap as given and fixes the configuration directory as the directory of the configuration path |
| Benchmark.Telespector.BootstrapPath | lib/Benchmark/Telespector.php:101-113 | no path for a falsy bootstrap (null, `""`, `"0"`); an absolute bootstrap unchanged; otherwise the configuration directory, `/` and the bootstrap; any path given is truthy |
| Benchmark.Truthy | lib/Benchmark/Telespector.php:44 | PHP truthiness of a string or null: false exactly for null, `""` and `"0"` |
| Benchmark.ResolvedBootstrapTruthy | lib/Benchmark/Telespector.php:43-44 | the resolved bootstrap path is truthy exactly when the configured bootstrap is |
| Benchmark.ResolvedBootstrapAbsolute | lib/Benchmark/Telespector.php:107-112 | with an absolute configuration directory, every resolved bootstrap path is absolute |
| Benchmark.Token | lib/Benchmark/Telespector.php:62 | a token is the key between `{{ ` and ` }}` |
| Benchmark.TokenInjective | lib/Benchmark/Telespector.php:62 | distinct keys give distinct tokens |
| Benchmark.TokenTable | lib/Benchmark/Telespector.php:60-63 | one token per parameter, in the parameters' order, each mapped to that parameter's value |
| Benchmark.TokenTableDistinct | lib/Benchmark/Telespector.php:60-63 | distinct parameter keys give a token table with distinct tokens |
| Benchmark.TokenTableLookup | lib/Benchmark/Telespector.php:60-63 | the token of a key stands for that key's value; the token of an absent key is not in the table |
| Benchmark.BuildTokens | lib/Benchmark/Telespector.php:60-63 | the `foreach` over the parameters builds exactly the token table: one token per parameter, in order, each with that parameter's value |
| Benchmark.Telespector.Execute | lib/Benchmark/Telespector.php:41-63 | a missing bootstrap file fails with an invalid-argument error before the template is looked at; then a missing template fails with a runtime error; each error carries its message; otherwise yields the token table of the parameters with `bootstrap` set to the resolved path |
| Benchmark.ExecuteTokens | lib/Benchmark/Telespector.php:58-63 | after `Execute`, the `bootstrap` token stands for the resolved path whatever the caller passed, and every other key's token stands for the caller's value |

## Left out

- `Telespector::execute` after line 63 is not modelled: reading the template, `str_replace`, the temporary script file, running the process, and decoding its JSON output. These are I/O and foreign calls. `Benchmark.Telespector.Execute` ends with the token table that `str_replace` would be given.
- `file_exists` is not modelled as a file-system call. It is membership in the set of existing paths, passed to `Execute`.
- Benchmark.Dirname: follows PHP's `dirname` for paths without trailing or repeated slashes only. It does not strip a trailing `/` or collapse `//`, and it has no Windows separators.
- Parameter values are modelled as strings or null only. PHP allows any value (numbers, arrays), but the code only copies values into the token table and never inspects them.
- Metadata.SubjectMetadata: the getters (`getName`, `getParameterSets`, `getBenchmark`, `getGroups`, `getIterations`, ..., `getAssertions`, `getExecutor`, `getTimeout`) are not separate members. Each returns its field unchanged, so the model reads the field directly. The name and benchmark are `const` fields, which no method can change.
- A parameter set is modelled as a map from name to string. The PHP code stores the array without looking inside it.
- `BenchmarkMetadata` and `ExecutorMetadata` are held as references to classes with no fields; their contents are not part of this model.
- The float fields (`retryThreshold`, `timeout`) are `real`. Only storage is modelled; no arithmetic is done on them.
- ExpressionParser.TimeUnitP and ExpressionParser.MemoryUnitP: the unit is recorded as an enumeration value, not as the matched text. How the source spelled it (for example `MegaBytes`) is not kept. `ParserProperties.TimeUnitsIgnoreCase` and `ParserProperties.MemoryUnitsIgnoreCase` state that case does not change the result.
- The combinator library's `float()` and `integer()` are modelled without a sign or an exponent. Magnitudes stay as digit text: converting them to numbers, and evaluating expressions, is not part of this model.
- A parse failure is `None`. The library's failure messages are not modelled.
- ParserProperties.PercentageExact, TimeValueExact, MemoryValueExact and RoundTrip: the read-back lemmas cover the canonical text. That text has single blanks and lower-case unit words. For texts with other spacing (such as `10seconds` or `10  seconds`) or other letter case (such as `10 SECONDS`), no lemma states which magnitude or unit is read. The value parsers' contracts say only that a well-formed value is read and input is consumed; `TimeUnitsIgnoreCase` and `MemoryUnitsIgnoreCase` say that case does not change the unit found, and `ToleranceSignExact` covers any run of blanks after a tolerance sign.
- ExpressionParser.PropertyAccessP: segments hold no digits. When a digit follows a complete second or later segment, the path ends before the digit and the rest is handed back: `a.b1` is read as `a.b` with `1` left over. When a digit comes in the first segment or straight after a dot, as in `a1.b` or `a.1b`, the path parser fails.
