# TemplateCommand text processing in Dafny

TemplateCommand (`tt`) creates files from templates. A template holds
tokens such as `[]FILE_NAME[]` or `[]FOR_EACH_FILE_IN_DIR{qml, h|||...}[]`.
The file to create is named on the command line, and the template is chosen
from the extensions in that name. This project models the text processing
at the core of the tool and proves properties of it:

- the bracket token scanner (`Parser`, `src/parser.rs`): a state machine
  that finds the first `[]NAME{...}[]` span, and the loop that collects
  every span;
- token parsing (`Tokens`, `src/token.rs`): the identifier, the greedy
  parameter blob, the `|||` groups and their `,` items, rebuilding a group;
- the earlier draft of token parsing (`ReplacementTokens`,
  `src/replacement_token.rs`);
- symbol substitution (`SymbolReplacer`, `src/symbol_replacer.rs`): the loop
  that replaces the leftmost `[]NAME[]` until none is left;
- name formatting (`Formatter`, `src/formatter.rs`): Pascal case and ASCII
  capitals;
- file-name helpers (`Util`, `src/util.rs`): the extension, the base name
  and the last path component, each regex written out as the leftmost,
  greedy match it finds;
- the names derived from the `-f` argument (`ProgramArgs`,
  `src/program_args.rs`);
- output names with platform, language and enumeration suffixes
  (`OutputFiles`, `src/output_file_description.rs`);
- template selection (`TemplateFileList`, `src/template_file_list.rs`):
  the search for the longest extension suffix that has a template. Which
  files exist is a parameter, a set of paths.

Text is `seq<char>`. `Text` holds the shared string operations:
`str::split`, `join`, the `[A-Z_]+` identifier search and ASCII
upper-casing. `Wrappers` holds `Option` and `Result`.

Where the source loops, the model is a method with the same loop. Each
such method is proved equal to a function, and the lemmas are stated about
that function. This holds for `FindFirstToken`, `FindAllTokens`,
`VariableFromString`, `RebuildString`, `TokenFromString`,
`ReplacementVariableFromString`, `ReplaceSymbols`,
`FormatFileNameAsPascalCase`, `StringInAllCaps` and
`FigureOutWhichTemplateToUse`.

## Model

| member | source | states |
|---|---|---|
| Parser.FirstToken | src/parser.rs:35-111 | a reported span lies in the text, starts at a `[`, ends just after a `]`, and holds another `]` in between |
| Parser.ScanFromSound | src/parser.rs:73-96 | from any state in which a pending `[` or an open token points back at a `[` already read, every span reported is sound and ends after the current position |
| Parser.FindFirstToken | src/parser.rs:35-111 | the character loop with its three flags, brace counter and start index computes `FirstToken`, so its span is sound |
| Parser.FindAllTokens | src/parser.rs:14-33 | the loop returns `AllTokens`: each next span is searched in the text after the running sum of the previous ends, and that sum never passes the end of the text |
| Parser.AllTokensAdvance | src/parser.rs:23-30 | one loop round keeps the account: the spans found so far, followed by the spans of the text after their ends, are all the spans, and the end moves forward |
| Parser.AllTokensDone | src/parser.rs:19-33 | when no token is left after the running end, the spans found are all of them |
| Parser.AllTokens | src/parser.rs:14-33 | there are never more spans than characters, so the search terminates |
| Parser.EndSumCons | src/parser.rs:26 | the running offset of a list of spans is the first end plus the offset of the rest |
| Parser.AllTokensLocated | src/parser.rs:23-30 | span `k` is relative to the text after the previous spans: it is the first token of that remainder, and shifted by the previous ends it opens on `[` and closes on `]` in the whole text |
| Parser.LocatedShift | src/parser.rs:26-29 | a span located in the remainder after the first token is located in the whole text once that token's end is added |
| Parser.TokenNeedsTwoClosingBrackets | src/parser.rs:79-110 | a token needs at least two `]`, so a text with fewer has no token at all |
| Parser.NameRun | src/parser.rs:97-105 | letters and `_` leave the scanner state unchanged once no `[` is pending |
| Parser.IdleRun | src/parser.rs:55-105 | outside a token, text without square brackets leaves the scanner state unchanged |
| Parser.ReadOpeningAndName | src/parser.rs:73-105 | after `[]` and a name, the scanner is inside a token that starts at 0 |
| Parser.BareToken | src/parser.rs:73-96 | `[]NAME[]` at the start of a text is its first token, whatever follows |
| Parser.EmptyBracesToken | src/parser.rs:55-86 | `[]NAME{}[]` at the start of a text is its first token: the braces are entered and left again |
| Parser.ParameterCharacterDropsToken | src/parser.rs:97-105 | inside the braces, a character that is not a letter, `_`, bracket or brace clears the token flag, and the text `[]NAME{cWORD}[]` has no token |
| Parser.NestedBracesToken | src/parser.rs:55-81 | in `[]NAME{a{b}c}[]` the inner braces only move the depth counter and only the outer `}` leaves the parameters, so the whole text is one token |
| Parser.NestedParameters | src/parser.rs:55-72 | in a token name, a parameter section `{a{b}c}` is read and left again with the state as before it |
| Parser.InnerBraceGroup | src/parser.rs:55-72 | inside the parameters, a nested `{x}` raises the depth and lowers it again, leaving the scanner state as it was |
| Parser.TokenWithNoParameters | src/parser.rs:128-136 | `[]FILE_NAME_AS_TYPE[]` gives the single span 0..21 |
| Parser.TokenWithEmptyBraces | src/parser.rs:138-146 | `[]FILE_NAME_AS_TYPE{}[]` gives the single span 0..23 |
| Parser.DashInParametersDropsToken | src/parser.rs:148-158 | `[]FILE_NAME_AS_TYPE{-Accessor}[]` gives no span at all |
| Parser.BracketsWithoutToken | src/parser.rs:121-126 | `some_array[] { // With a function }` gives no span |
| Parser.ProseWithoutToken | src/parser.rs:114-119 | prose without brackets gives no span |
| Parser.NoClosingBracketNoToken | src/parser.rs:79-95 | a text without `]` holds no token, since the name only opens on `]` after `[` |
| Parser.OneClosingBracketNoToken | src/parser.rs:79-95 | a text with a single `]` holds no token: a token needs the `]` that opens the name and the one that closes it |
| Text.FirstIdentifier | src/token.rs:74-84 | the regex `[A-Z_]+`: no match exactly when the text has no `[A-Z_]` character; otherwise the leftmost maximal run of them |
| Text.FirstIdentifierOfPrefix | src/token.rs:84 | a text that starts with an identifier followed by a non-identifier character has that identifier first |
| Text.JoinSplit | src/token.rs:106 | joining the pieces of `split` with the separator gives back the text |
| Text.SplitPiecesAvoidSeparator | src/token.rs:106 | no piece of `split` contains the separator |
| Text.SplitCharCount | src/token.rs:17 | splitting on one character gives one more piece than the text has occurrences of it |
| Text.SplitJoinChar | src/token.rs:17-45 | splitting the join of pieces without the separator character gives those pieces back |
| Text.DropEmpty | src/token.rs:20-23 | the kept pieces are non-empty pieces of the input, and nothing is dropped when no piece is empty |
| Text.ToUpper | src/formatter.rs:30 | ASCII `a`-`z` become `A`-`Z`, every other character is unchanged |
| Tokens.VariableOf | src/token.rs:15-28 | every item is non-empty and holds no `,`; there are at most one more items than commas |
| Tokens.VariableFromString | src/token.rs:15-28 | the loop that skips empty pieces computes `VariableOf` |
| Tokens.RebuildString | src/token.rs:31-45 | the one-item case, the empty case and the comma loop together compute the items joined with `,` |
| Tokens.RebuildRoundTrip | src/token.rs:31-45 | rebuilding the items of a text gives the text back when none of its `,` pieces is empty |
| Tokens.VariableOfRebuilt | src/token.rs:15-45 | splitting a rebuilt group gives the group back when its items are non-empty and free of `,` |
| Tokens.ParameterBlob | src/token.rs:75-97 | the greedy brace regex of `from_string`, whose group matches any character including line feeds: no match exactly when no `{` comes before a `}`; otherwise the text between the first `{` and the last `}` |
| Tokens.ParameterBlobOf | src/token.rs:75 | the blob of `a{b}c` is `b` when `a` has no `{` and `c` no `}` |
| Tokens.GroupsOf | src/token.rs:102-112 | one group per triple-bar piece, in order, each split as `VariableOf` |
| Tokens.GroupsCoverBlob | src/token.rs:106 | the triple-bar pieces of the blob hold no triple-bar and joined with it give the blob back, and there is one group per piece |
| Tokens.ParseToken | src/token.rs:71-118 | an error, with the identifier message, exactly when the text has no `[A-Z_]`; otherwise the first identifier, no variables exactly when the blob is missing or empty, and else the groups of the blob |
| Tokens.TokenFromString | src/token.rs:71-118 | the steps of `from_string` compute `ParseToken` |
| Tokens.VariablesFromGroup | src/token.rs:102-113 | the loop over the `|||` pieces builds one `TokenVariable` per piece, in order: the groups of the blob |
| Tokens.HasVariables | src/token.rs:50-52 | true exactly when the token has variables |
| Tokens.GetVariableAsString | src/token.rs:54-60 | `""` without variables; otherwise a text that splits back into group `index` |
| Tokens.GetVariableAt | src/token.rs:62-69 | no items without variables; otherwise the items of group `index` |
| Tokens.ParsedGroupText | src/token.rs:102-112 | group `k` read back is the `k`-th triple-bar piece of the blob without its empty `,` pieces, and that piece itself when it has none |
| Tokens.ParseBareIdentifier | src/token.rs:121-133 | `FILE_NAME` parses to that identifier and no variables |
| Tokens.ParseEmptyBraces | src/token.rs:177-187 | `FILE_NAME{}` parses to that identifier and no variables |
| Tokens.ParseIdentifierAndBlob | src/token.rs:71-118 | `NAME{blob}` parses to `NAME` and the groups of `blob`, or no variables when `blob` is empty |
| Tokens.SingleItemGroups | src/token.rs:102-112 | a blob without a bar or `,` is one group of one item |
| Tokens.ParseOneVariable | src/token.rs:135-151 | `FILE_NAME{-_model}` parses to one group holding `-_model` |
| Tokens.TwoGroupsShape | src/token.rs:102-112 | the blob `a,b`, triple bar, `c` gives the groups `[a, b]` and `[c]` |
| Tokens.GroupsOfPair | src/token.rs:106-111 | two pieces without a bar around one triple bar are two groups, in order |
| Tokens.VariableOfPair | src/token.rs:15-28 | two non-empty items without `,` around one `,` are exactly those two items |
| Tokens.ParseSingleItemShape | src/token.rs:71-118 | `NAME{x}` with a plain `x` parses to `NAME` and one group holding `x` |
| Tokens.ParseTwoGroupsShape | src/token.rs:71-118 | `NAME` with that blob in braces parses to `NAME` and the groups `[a, b]` and `[c]` |
| Tokens.ParseTwoGroups | src/token.rs:153-175 | the text of the test parses to `FOR_EACH_FILE_IN_DIR` with the groups `[qmldir, qrc]` and `[Some text]` |
| Tokens.SecondGroupShape | src/token.rs:102-112 | the blob `a`, triple bar, `b,c` has two groups, the second `[b, c]` |
| Tokens.RebuildSecondGroupShape | src/token.rs:54-60 | with that blob, the second group rebuilds to `b,c` |
| Tokens.RebuildSecondGroup | src/token.rs:189-196 | in the text of the test the second group rebuilds to `Some, text` |
| Tokens.SingleSecondGroupShape | src/token.rs:102-112 | the blob `a`, triple bar, `b` has two groups, the second `[b]` |
| Tokens.RebuildSingleGroupShape | src/token.rs:31-33 | a one-item group rebuilds to its item |
| Tokens.RebuildSingleVariable | src/token.rs:198-205 | in the text of the test the second group rebuilds to `Some` |
| ReplacementTokens.TrimStart | src/replacement_token.rs:20 | the leading characters skipped are white space and the next one is not |
| ReplacementTokens.TrimEnd | src/replacement_token.rs:20 | the trailing characters cut are white space and the one before them is not |
| ReplacementTokens.Trim | src/replacement_token.rs:20 | `str::trim`: the result is empty or neither begins nor ends with white space |
| ReplacementTokens.TrimIsSlice | src/replacement_token.rs:20 | the trimmed text is a slice of the text with only white space cut off on either side; it is empty exactly for an all-white-space text |
| ReplacementTokens.TrimAll | src/replacement_token.rs:18-21 | each item trimmed, in order |
| ReplacementTokens.ReplacementVariableOf | src/replacement_token.rs:13-26 | at most one more items than commas, and no item starts or ends with white space |
| ReplacementTokens.ReplacementVariableFromString | src/replacement_token.rs:13-26 | the loop that skips empty pieces and trims the rest computes `ReplacementVariableOf` |
| ReplacementTokens.TrimmedPrefixStep | src/replacement_token.rs:18-21 | one more piece adds nothing when it is empty and adds that piece trimmed otherwise |
| ReplacementTokens.TrimmedTokenVariable | src/replacement_token.rs:15-21 | the draft's items are those of `TokenVariable::from_string`, each trimmed |
| ReplacementTokens.SplitThree | src/replacement_token.rs:15 | three pieces without `,`, joined by `,`, split back into those pieces |
| ReplacementTokens.WhiteSpacePieceKept | src/replacement_token.rs:19-20 | the empty check comes before trimming, so a white-space piece is kept as an empty item |
| ReplacementTokens.WhiteSpaceTrimsToEmpty | src/replacement_token.rs:20 | a piece made only of white space trims to the empty text |
| ReplacementTokens.New | src/replacement_token.rs:35-40 | the identifier and `Some` of the groups |
| ReplacementTokens.ReplacementTokenFromString | src/replacement_token.rs:42-82 | always an error: the identifier message without a `[A-Z_]` character, `No implementation` otherwise |
| ReplacementTokens.DraftAgreesOnErrors | src/replacement_token.rs:51-81 | the draft fails with the same message where `Token::from_string` fails, and with `No implementation` where it succeeds |
| ReplacementTokens.BareIdentifierNotImplemented | src/replacement_token.rs:86-97 | `FILE_NAME` gives `No implementation` |
| SymbolReplacer.MatchEndAt | src/symbol_replacer.rs:4 | a match of `\[\][A-Z_]+\[\]` anchored at a position is a symbol there |
| SymbolReplacer.MatchEndAtExact | src/symbol_replacer.rs:4 | the anchored match exists exactly where a symbol starts, and it is the only symbol starting there |
| SymbolReplacer.FindSymbolFrom | src/symbol_replacer.rs:6-22 | the leftmost symbol from a position on; none exactly when there is none |
| SymbolReplacer.FindSymbol | src/symbol_replacer.rs:6-22 | `Regex::find`: the leftmost symbol; none exactly when the text holds none |
| SymbolReplacer.CreateTypeFromFileName | src/symbol_replacer.rs:41-43 | the file name unchanged |
| SymbolReplacer.CreateReplacementValue | src/symbol_replacer.rs:28-39 | the file name for `[]FILE_NAME[]` and `[]FILE_NAME_AS_TYPE[]`, the empty text for any other symbol |
| SymbolReplacer.ReplaceMatch | src/symbol_replacer.rs:15-20 | the text before the match, its value and the text after it, with the length that follows |
| SymbolReplacer.SymbolOpenCount | src/symbol_replacer.rs:4 | a symbol holds exactly two `[` |
| SymbolReplacer.ReplaceMatchOpenCount | src/symbol_replacer.rs:15-20 | with a file name free of `[`, one pass removes exactly two `[` |
| SymbolReplacer.ReplacementValueHasNoOpen | src/symbol_replacer.rs:28-39 | with a file name free of `[`, no replacement value holds a `[` |
| SymbolReplacer.ExpandSymbols | src/symbol_replacer.rs:3-26 | the result holds no symbol, and a text without one is returned unchanged |
| SymbolReplacer.ReplaceSymbols | src/symbol_replacer.rs:3-26 | the early return and the splice loop compute `ExpandSymbols`, so no symbol is left |
| SymbolReplacer.NoOpenNoSymbol | src/symbol_replacer.rs:4-10 | a text without `[` holds no symbol |
| SymbolReplacer.SymbolAfterPlainText | src/symbol_replacer.rs:13-16 | a symbol with no `[` before it is the leftmost match |
| SymbolReplacer.ExpandInOnePass | src/symbol_replacer.rs:14-23 | when the first pass leaves no `[`, the loop stops after it |
| SymbolReplacer.ReplaceFirstSymbol | src/symbol_replacer.rs:13-23 | a single symbol between texts without `[` is replaced by its value and the text around it is kept |
| SymbolReplacer.FileNameSymbolExpanded | src/symbol_replacer.rs:33 | a lone `[]FILE_NAME[]` is replaced by the file name, the text around it kept |
| SymbolReplacer.UnknownSymbolDeleted | src/symbol_replacer.rs:35-38 | a lone symbol other than the two known ones is deleted |
| SymbolReplacer.SelfReplacingFileName | src/symbol_replacer.rs:14-22 | with the file name `[]FILE_NAME[]`, the pass over `[]FILE_NAME[]` gives it back unchanged, so the loop never ends |
| Formatter.CapitaliseTailShape | src/formatter.rs:9-23 | the tail holds no `_`, and it is shorter than the input tail by its number of `_` |
| Formatter.PascalCaseShape | src/formatter.rs:2-26 | the first character upper-cased even when it is `_`, no `_` after it, and the length is the input's minus its `_` after position 0 |
| Formatter.FormatFileNameAsPascalCase | src/formatter.rs:2-26 | the loop with its underscore flag computes `PascalCase`; an empty name or a first character wider than one byte panics in the source |
| Formatter.CapitaliseTailBySplit | src/formatter.rs:11-22 | the tail is the first `_` piece, capitalised when an underscore came before it, then every later piece capitalised |
| Formatter.PascalCaseByWords | src/formatter.rs:8-22 | the first character upper-cased, the rest of the first word unchanged, every later word capitalised |
| Formatter.CapitaliseTailPlain | src/formatter.rs:18 | a tail without `_` is copied unchanged |
| Formatter.PascalCaseIdempotent | src/formatter.rs:2-26 | formatting twice is formatting once |
| Formatter.TwoWordsPascalCase | src/formatter.rs:8-22 | `a_b` becomes `a` and `b`, each with its first character upper-cased |
| Formatter.BuilderManager | src/formatter.rs:2-26 | `builder_manager` becomes `BuilderManager` |
| Formatter.StringInAllCaps | src/formatter.rs:28-32 | the length is kept, and every character is its ASCII upper-case |
| Formatter.AllCapsShape | src/formatter.rs:30 | no lower-case ASCII letter is left, and every other character is unchanged |
| Formatter.AllCapsIdempotent | src/formatter.rs:28-32 | capitalising twice is capitalising once |
| Util.ReplaceIfNotNone | src/util.rs:1-7 | the default without a value, the value otherwise |
| Util.LineEnd | src/util.rs:28 | what `.*` takes: the run up to the next line feed or the end |
| Util.ExtractExtension | src/util.rs:25-40 | none exactly when there is no `.`; otherwise what follows the first `.` up to the end of its line |
| Util.NameRunStart | src/util.rs:47 | the longest run of `[A-z0-9]` characters ending at a position |
| Util.NameRunFromStart | src/util.rs:47 | when every character before a position is in the class, the run reaches back to the start |
| Util.RemoveExtensions | src/util.rs:44-59 | none exactly when there is no `.`; otherwise the longest run of `[A-z0-9]` characters just before the first `.` |
| Util.LineEndOfOneLine | src/util.rs:28 | in a one-line text `.*` takes everything to the end |
| Util.BaseDotExtension | src/util.rs:28-47 | when everything before the first `.` is in the class, base name, `.` and extension give the name back |
| Util.NameAndExtension | src/util.rs:25-59 | `name.ext` gives the base `name` and the extension `ext` |
| Util.ExtensionAfterFirstDot | src/util.rs:25-40 | in a one-line name, the extension is everything after the first `.` |
| Util.ExtensionExamples | src/util.rs:98-112 | `file.ui.qml` gives `ui.qml` and `file`; `file.qml` gives `qml` and `file` |
| Util.ComponentStart | src/util.rs:65 | where the last path component starts: after the last `/` or line feed |
| Util.ExtractFileNameFromPath | src/util.rs:61-84 | none exactly when the text is empty or ends in `/` or a line feed; otherwise a non-empty suffix without `/` or line feed, preceded by one of them or the start |
| Util.ComponentStartAfter | src/util.rs:65 | after a separator, a name without one is the last component |
| Util.PathEndsInName | src/util.rs:65-83 | `dir/name` gives `name` |
| Util.BareName | src/util.rs:65-83 | a name without directory gives the name |
| Util.PathExamples | src/util.rs:86-96 | the five paths of the test, the one ending in `/` giving none |
| ProgramArgs.DotSplitOf | src/program_args.rs:98 | the `.` pieces hold no `.`, join back to the name, and are one more than its dots |
| ProgramArgs.DeriveNames | src/program_args.rs:95-106 | the name, or `""` without `-f`; the list is its `.` pieces; the extension is the last piece and the base name the first |
| ProgramArgs.NoFileNameArgument | src/program_args.rs:95-106 | without `-f` every derived name is `""` and the list is `[""]` |
| ProgramArgs.NameWithoutDot | src/program_args.rs:98-106 | a name without `.` is its own extension and base name |
| ProgramArgs.BaseAndExtensionAroundDots | src/program_args.rs:98-106 | the base name is the text before the first `.`, the extension the text after the last |
| ProgramArgs.ExtractExtensionIsListTail | src/program_args.rs:98-105 | for a one-line name with a `.`, the extension helper of `util.rs` gives all pieces but the first, joined: `b.c` for `a.b.c`, whose derived extension is `c` |
| OutputFiles.Suffix | src/output_file_description.rs:18-31 | `_` and the value when there is one, nothing otherwise |
| OutputFiles.NameExpandedWithEnumerations | src/output_file_description.rs:16-34 | the name, then the platform, language and enumeration suffixes in that order; the name is a prefix and the length adds up |
| OutputFiles.PlainNameUnchanged | src/output_file_description.rs:18-33 | without suffixes the expanded name is the name |
| OutputFiles.ExpandedNameGrows | src/output_file_description.rs:16-34 | the expanded name equals the name exactly when no suffix is present |
| OutputFiles.NameWithExtension | src/output_file_description.rs:12-14 | the expanded name, a `.`, and the extension at the end |
| TemplateFileList.FirstExistingSuffix | src/template_file_list.rs:52-64 | the first suffix with an existing template (the probed path is the root, `/tt.` and the suffix joined by `.`), every longer one missing; none exactly when every non-empty suffix is missing |
| TemplateFileList.FigureOutWhichTemplateToUse | src/template_file_list.rs:43-65 | the probe loop on a copy of the list returns the joined first existing suffix, or none; it probes once per suffix tried, at most once per extension |
| TemplateFileList.JoinedSuffixEndsJoin | src/template_file_list.rs:58-59 | the joined extensions of a suffix end the joined list |
| TemplateFileList.ChosenTemplateIsLongest | src/template_file_list.rs:52-64 | the chosen template exists, its extensions end the full combination, and for a non-empty list the empty suffix is never used |
| TemplateFileList.FullCombinationFirst | src/template_file_list.rs:46-52 | when the full combination exists it is chosen |
| TemplateFileList.CreateMatchingFile | src/template_file_list.rs:67-69 | never a file |

## Tests that disagree with the code

The model follows the code. Several tests in the source expect something
else:

- `big_test_multiple_tokens` (src/parser.rs:148-158) expects six tokens.
  The sixth candidate, `[]FILE_NAME_AS_TYPE{-Accessor}[]`, is not a token
  for this scanner. Inside the braces the `-` clears the token flag
  (src/parser.rs:99-101), and `Parser.DashInParametersDropsToken` shows
  that this text on its own gives no span.
- `token_with_sub_tokens_parses` and
  `token_with_sub_tokens_and_brackets_parses` (src/parser.rs:161-190)
  expect one span starting at 23. The `,` after `qml` clears the token
  flag in the same way (`Parser.ParameterCharacterDropsToken`). The next
  `[` then resets the start index, so no span starts at 23.
- The tests of `ReplacementToken::from_string` that expect `Ok`
  (src/replacement_token.rs:86-139 and 153-163) cannot hold: the function
  returns an error for every input (`ReplacementTokens.ReplacementTokenFromString`).
  Only `token_doesnt_parse_malformed` (src/replacement_token.rs:141-151),
  which expects an error, agrees with it.

## Left out

- SymbolReplacer.ReplaceSymbols: requires a file name without `[`. With
  such a name every pass removes two `[` and the loop ends. With other
  names the source may loop forever; `SymbolReplacer.SelfReplacingFileName`
  shows one such name.
- SymbolReplacer.ExpandSymbols: the same requirement, for the same reason.
- Formatter.FormatFileNameAsPascalCase: upper-cases ASCII letters only. The
  source applies Unicode `to_uppercase` to the first character and to each
  character after `_`; for a non-ASCII letter after `_` that mapping (which
  can yield several characters, of which the source keeps the first) is
  not modelled.
- Parser.IsAlphabetic: ASCII letters only. The source's `is_alphabetic`
  also accepts non-ASCII letters.
- Byte and character offsets: text is a sequence of characters.
  `find_all_tokens` slices at byte offsets that `find_first_token` counts
  in characters (src/parser.rs:29, 107). The two agree only on ASCII text,
  which is the only text the model treats.
- Integer widths: the `usize` counters are unbounded naturals.
- ReplacementTokens.ReplacementTokenFromString: the regex `\{(.*)\}`, the
  `|||` split and the `println!` lines only feed console output, and the
  result is the same error either way. They are left out.
- `ReplacementVariable::rebuild_string` (src/replacement_token.rs:29-31)
  takes no arguments, has an empty body and returns nothing, so there is
  nothing to model.
- Logging and console output (`println!`, `info!`, `warn!`, the verbose
  flag of the template search): they do not affect any result.
- TemplateFileList.FigureOutWhichTemplateToUse: file existence is a set of
  existing paths given as a parameter. The precondition excludes an empty
  list whose single probe fails, where `remove(0)` panics.
- `UnprocessedOutputFile::new` in src/template_file_list.rs: it reads the
  template file from disk.
- `get_current_time` and `get_current_date` (src/util.rs:9-23) read the
  wall clock.
- The Windows branch of the path regex (src/util.rs:67-68) is out; only
  the Unix branch is modelled.
- The command-line parsing of src/program_args.rs other than the names
  derived from `-f` goes through the `clap` library, which is not part of
  this model.
- The other files of the repository (src/main.rs, src/config.rs,
  src/file_manip.rs, src/file_harvester.rs, src/platform_list.rs,
  src/enumeration_list.rs, src/logger.rs,
  src/command_line_documentation.rs, src/platform_specific.rs,
  src/file_context.rs and the Sublime Text plugin) are orchestration, file
  I/O, JSON configuration and editor glue. They are not part of this
  model.
