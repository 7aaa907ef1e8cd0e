# novel-lighting text transformations in Dafny

This project models the three text transformations of the VS Code extension
novel-lighting, for writers of Japanese novels in Markdown or plain text, and
proves properties of each.

- **The draft compiler** (`NovelCompiler`, `novelcompiler.dfy`). The texts of the
  draft files are split into lines. A line classifier with three flags (`inDesc`,
  `inDialogue`, `inScene`) turns the lines into units: title, scene, sub-information,
  plain, dialogue, voice, thought, comment, break and description. The flags carry
  across file boundaries. The first matching pattern wins, and continuation lines
  are appended to the open unit. The pre-formatter maps each unit to at most one
  line. On the way it completes sentence-final punctuation (`。`) and closing
  brackets, or drops the unit. The lines are then laid out in the default layout
  or the web-novel layout, which adds blank lines between runs.
- **The character counter** (`CharCounter`, `charcounter.dfy`). It removes heading
  lines and, by the same pattern `/^#*\s./`, every line that starts with white space
  followed by another character; then all white space, ruby readings `《…》`, ruby bars `|`/`｜` and comments
  `<!--…-->` from the open document. The rest is measured in UTF-16 code units.
- **Ruby insertion** (`RubiCompiler`, `rubicompiler.dfy`). Entries of the ruby files
  that have both a term and a replacement are kept. Each one rewrites the first
  occurrence of its term in the compiled text, in order.

`text.dfy` (`Text`) holds what the three share: JavaScript's `split` and `join`,
the regular-expression classes `\s` and "line terminator", UTF-16 length and
subsequences.

Each loop of the source is a method with a `while` or `for` loop, proved equal to
a function that specifies it. The properties are lemmas about those functions.

- The regular expressions are predicates written by hand. Where the match is not
  obvious, a lemma relates the predicate to a direct statement of what the
  expression accepts.
- JavaScript's `\s` includes the ideographic space U+3000. Its `.` refuses only the
  four line terminators.
- A global lazy `replace` is a single left-to-right pass.
- `String.prototype.replace` with a string pattern replaces the leftmost
  occurrence only. Its `$$`, `$&`, `` $` `` and `$'` patterns in the replacement are
  modelled.

For the dialogue fragments `["「Hello", "world"]` the code at
`src/novelcompiler.ts:304-323` closes the first fragment with `。`, inserts no space
and gives `"「Hello。world」"` (`NovelCompiler.TwoLineUtteranceExample`).

## Model

| member | source | states |
|---|---|---|
| NovelCompiler.BeginHead3OverIsRegex | src/novelcompiler.ts:143 | the sub-information test accepts exactly the lines `/^###* .*/` matches: two or more leading `#` and then a space |
| NovelCompiler.BeginCommentIsRegex | src/novelcompiler.ts:149 | the comment test accepts exactly the lines holding `<!--`, then `-->>` with no line terminator in between (unanchored) |
| NovelCompiler.CommentOpenFromIsRegex | src/novelcompiler.ts:149 | scanning for `<!--` from any index agrees with "some later `<!--` is followed by `-->>` on the same line" |
| NovelCompiler.CommentCloseFromIsRegex | src/novelcompiler.ts:149 | scanning for the closing `-->>` agrees with "some `-->>` follows before any line terminator" |
| NovelCompiler.LineKindOf | src/novelcompiler.ts:165-228 | the patterns are tried in source order and the first match decides; a line is classified as empty exactly when it is the empty string |
| NovelCompiler.StepKeepsValid | src/novelcompiler.ts:153-228 | every line keeps the invariant: `inDesc` and `inDialogue` are never both set, an open description or dialogue block always has a last unit of that kind, units are well formed, and a scene unit is never followed by a break |
| NovelCompiler.ClassifyLine | src/novelcompiler.ts:165-228 | one iteration of the classifier loop gives the units and flags of the classifier step |
| NovelCompiler.ConvDocInfo | src/novelcompiler.ts:151-233 | the nested loop over files and lines gives the classifier run over all lines, and every unit but a break has a fragment |
| NovelCompiler.AppendToLast | src/novelcompiler.ts:213 | a continuation line is appended to the last unit's fragments and every other unit is unchanged |
| NovelCompiler.RunFromAppend | src/novelcompiler.ts:162-164 | the flags carry across file boundaries: running over `a + b` is running over `b` from where `a` ended |
| NovelCompiler.StepExtends | src/novelcompiler.ts:165-228 | a line only adds one unit at the end or extends the last unit's fragments, so existing units keep their place and kind |
| NovelCompiler.RunExtends | src/novelcompiler.ts:162-230 | over any run the units appear in input order, earlier units unchanged except for fragments added to the last one |
| NovelCompiler.StepFragments | src/novelcompiler.ts:165-228 | each non-empty line becomes exactly one fragment, an empty line none, and a line adds at most one unit |
| NovelCompiler.StepFragmentsContent | src/novelcompiler.ts:165-228 | one line adds exactly its own fragment to the units' fragments (the line, the text after `!P `, or the text between the first two colons of a `Name:` line), an empty line none |
| NovelCompiler.RunFragments | src/novelcompiler.ts:162-230 | over any run, the units' fragments read in order are the fragments of the non-empty lines, in input order |
| NovelCompiler.ClassifyFragments | src/novelcompiler.ts:151-233 | the classified units of the draft texts hold exactly the fragments of their non-empty lines, in order |
| NovelCompiler.RunCounts | src/novelcompiler.ts:162-230 | the total number of fragments equals the number of non-empty lines, and there are at most as many units as lines |
| NovelCompiler.SceneSwallowsBlankLines | src/novelcompiler.ts:219-222 | while `inScene` is set, any number of empty lines changes neither the units nor the flags |
| NovelCompiler.ContinuationAbsorbs | src/novelcompiler.ts:209-213 | while a description or dialogue block is open, plain text lines are appended to its last unit and no unit is created |
| NovelCompiler.ColonLineSplitsAtColons | src/novelcompiler.ts:198-203 | a line containing `:` becomes a dialogue unit whose speaker is the text before the first colon and whose one fragment is the text between the first and second colons |
| NovelCompiler.NoOpenerNoComment | src/novelcompiler.ts:149 | a line without `<` never matches the comment pattern |
| NovelCompiler.OrdinaryTextLine | src/novelcompiler.ts:209-218 | a line that starts with no mark and holds no `:` or `<` is ordinary text |
| NovelCompiler.SceneHeadingSwallowsBlankLine | src/novelcompiler.ts:169-173 | a scene heading, an empty line and a text line give a scene unit and a description unit, with no break between them |
| NovelCompiler.ClosedDialogueStillContinues | src/novelcompiler.ts:182-187 | `inDialogue` is set even when the closing bracket is on the same line, so the next text line joins the dialogue |
| NovelCompiler.NoDoubleArrowNoOpen | src/novelcompiler.ts:149 | a line with no `>` before its last character never matches the comment pattern |
| NovelCompiler.HtmlCommentIsText | src/novelcompiler.ts:204-218 | an HTML comment `<!--…-->` whose body holds no `>` and no `:` is classified as ordinary text |
| NovelCompiler.ColonCommentIsDialogue | src/novelcompiler.ts:198-208 | a comment that holds a colon is classified as a dialogue line, because the colon rule is tested first |
| NovelCompiler.Terminated | src/novelcompiler.ts:306-315 | what one fragment contributes extends the fragment by at most one character, and is empty exactly when the fragment is |
| NovelCompiler.CompleteDialogue | src/novelcompiler.ts:304-323 | the dialogue completion loop and its final rewrite give the completed dialogue |
| NovelCompiler.CompleteDesc | src/novelcompiler.ts:326-341 | the description completion loop and its final trim give the completed description |
| NovelCompiler.CloseUtteranceAfter | src/novelcompiler.ts:317-321 | by how the last fragment ends: after `、`, `」`, `』` or `）` the text is kept; a final `。` is replaced by the bracket; otherwise the bracket is appended (after `！`/`？` it replaces the added space) |
| NovelCompiler.TrimMarkSpaceAfter | src/novelcompiler.ts:337-339 | a description ends with its last fragment when that ends in `。`, `、`, `！` or `？` (the added space is trimmed), and otherwise with that fragment and `。` |
| NovelCompiler.DialogueEnding | src/novelcompiler.ts:304-323 | with only empty fragments the dialogue is empty; otherwise it ends with the last non-empty fragment (ends in `、」』）`), that fragment with its `。` replaced by the bracket, or that fragment and the bracket |
| NovelCompiler.DialogueRewritesOnlyLastChar | src/novelcompiler.ts:317-321 | the completed dialogue has the length of the suffixed concatenation and differs from it at most in its final character |
| NovelCompiler.DescriptionEnding | src/novelcompiler.ts:326-341 | with only empty fragments the description is empty; otherwise it ends with the last non-empty fragment or that fragment and `。`, and always in one of `。、！？` (never in `！　` or `？　`) |
| NovelCompiler.JoinedKeepsFragments | src/novelcompiler.ts:306-316 | the suffixed concatenation keeps every fragment's characters in order, and its length is the fragments' total length plus one per inserted `。` or space |
| NovelCompiler.DescriptionKeepsFragments | src/novelcompiler.ts:326-341 | the completed description keeps every character of its fragments in order |
| NovelCompiler.DescriptionDropsOnlyInsertedSpace | src/novelcompiler.ts:337-339 | the final trim removes only a space the loop inserted, never a character of a fragment |
| NovelCompiler.ClosedUtteranceUnchanged | src/novelcompiler.ts:311-312 | a single fragment that already ends in a closing bracket is returned unchanged |
| NovelCompiler.ClosedUtteranceExample | src/novelcompiler.ts:304-323 | `["hello」"]` completes to `"hello」"` |
| NovelCompiler.TwoLineUtteranceExample | src/novelcompiler.ts:304-323 | `["「Hello", "world"]` completes to `"「Hello。world」"` |
| NovelCompiler.SceneInfoFromDesc | src/novelcompiler.ts:291-296 | a scene heading's `## ` becomes `○` and the rest is kept, so putting `## ` back gives the heading; any other text is unchanged |
| NovelCompiler.ConvDocPreFormat | src/novelcompiler.ts:235-289 | the pre-formatting loop gives one line per shown unit, in unit order |
| NovelCompiler.PreFormattedAppend | src/novelcompiler.ts:245-286 | pre-formatting works unit by unit: the lines of `a + b` are the lines of `a` followed by those of `b` |
| NovelCompiler.PreFormattedLength | src/novelcompiler.ts:245-286 | there is exactly one line per shown unit: sub-information never, scenes only for screenplays, comments only when shown, every other unit always |
| NovelCompiler.BreakAndDescriptionLines | src/novelcompiler.ts:279-285 | a break gives the empty line; a description gives `　` and then its completed text, which is `　` alone exactly when every fragment is empty and otherwise ends in one of `。、！？` |
| NovelCompiler.FormatAsDefault | src/novelcompiler.ts:357-363 | the default layout loop writes every line followed by a line break |
| NovelCompiler.DefaultIsJoin | src/novelcompiler.ts:357-363 | the default layout is the lines joined by line breaks, with one after the last line |
| NovelCompiler.DefaultRoundTrip | src/novelcompiler.ts:357-363 | splitting the default layout at line breaks gives back the lines and a final empty piece |
| NovelCompiler.DefaultRenderingLength | src/novelcompiler.ts:357-363 | the default layout is as long as all the lines together plus one per line |
| NovelCompiler.FormatAsWebNovel | src/novelcompiler.ts:365-399 | the web layout loop, with its own two flags, gives the web layout |
| NovelCompiler.WebFromIsDefaultOfWebLines | src/novelcompiler.ts:365-399 | the web layout loop writes exactly the default layout of the reference list of web lines |
| NovelCompiler.WebLinesOnlyAddBlanks | src/novelcompiler.ts:365-399 | the web lines are the input lines with blank lines added: dropping empty lines from both gives the same list |
| NovelCompiler.WebRoundTrip | src/novelcompiler.ts:365-399 | splitting the web layout at line breaks and dropping empty lines gives back the non-empty input lines |
| NovelCompiler.WebLinesByPosition | src/novelcompiler.ts:371-393 | for every input, the web lines are the input lines in order. An empty line stays one empty line, and a title at index 0 is followed by a blank line. A blank line goes right before any other non-empty line exactly when it is a title, or when it is not a title and the nearest earlier non-empty line is missing or of another kind (a `「` line, a title, other text). The web layout is the default layout of those lines |
| NovelCompiler.WebSeparatesDialogue | src/novelcompiler.ts:371-393 | a text line followed by a `「` line is written with a blank line before each |
| NovelCompiler.FormatDocument | src/novelcompiler.ts:343-355 | the layout is chosen by name: `default`, `web`, otherwise the empty text |
| NovelCompiler.Compile | src/novelcompiler.ts:34-42 | the pipeline classifies the draft texts, pre-formats them with screenplay scenes exactly for the `screenplay` style, and lays them out |
| NovelCompiler.UnknownLayoutIsEmpty | src/novelcompiler.ts:343-355 | a layout name other than `default` and `web` compiles to the empty text |
| NovelCompiler.ClassifyNoLineBreak | src/novelcompiler.ts:162-164 | no fragment of any unit holds a line break, since the texts are split at line breaks first |
| NovelCompiler.PreFormattedNoLineBreak | src/novelcompiler.ts:245-286 | no pre-formatted line holds a line break when no fragment does |
| NovelCompiler.DefaultLayoutLines | src/novelcompiler.ts:34-42 | with the default layout, splitting the compiled text at line breaks gives the pre-formatted lines and a final empty piece, one line per shown unit |
| NovelCompiler.WebLayoutLines | src/novelcompiler.ts:34-42 | with the web layout, the non-empty lines of the compiled text are the non-empty pre-formatted lines |
| CharCounter.HeadingLikeIsRegex | src/charcounter.ts:64 | the skipped-line test accepts exactly the lines `/^#*\s./` matches: leading `#`s, one white-space character, then a character that is not a line terminator |
| CharCounter.HeadingAndIndentedLinesNotCounted | src/charcounter.ts:64 | `# 第一話` and a line indented with a full-width space are skipped, and an unindented sentence is kept |
| CharCounter.CompileText | src/charcounter.ts:60-75 | the line loop and the replace chain give the counted text |
| CharCounter.RemoveChars | src/charcounter.ts:70 | a global one-character `replace` keeps exactly the characters outside the deleted class |
| CharCounter.FindClose | src/charcounter.ts:71 | the lazy `(.+?)` stops at the first closing mark and fails at a line terminator |
| CharCounter.KeptTextDeletesOnly | src/charcounter.ts:62-68 | joining the kept lines without a separator keeps the text's characters in order |
| CharCounter.RemoveCharsDeletesOnly | src/charcounter.ts:70 | deleting a character class keeps the rest in order |
| CharCounter.StripSpansDeletesOnly | src/charcounter.ts:71 | deleting spans keeps the rest in order |
| CharCounter.CompiledTextDeletesOnly | src/charcounter.ts:60-75 | the counted text is a subsequence of the document |
| CharCounter.CompiledTextHasNoSpaceOrBar | src/charcounter.ts:69-73 | the counted text holds no white space and no ruby bar `\|` or `｜` |
| CharCounter.FirstSpanRemoved | src/charcounter.ts:71-73 | when the text before it holds no character that begins the opening mark, a span whose inner text is one non-empty line in which the closing mark occurs nowhere from index 1 on (in inner text + closing mark) before its own place is deleted with its content, and the scan goes on after it |
| CharCounter.RubyReadingRemoved | src/charcounter.ts:71 | when the text before it holds no `《`, a one-line ruby reading `《…》` is deleted together with its marks; its first character may itself be `》`, any later `》` ends the match |
| CharCounter.CommentRemoved | src/charcounter.ts:73 | when the text before it holds no `<`, a one-line comment `<!--…-->` is deleted with its body when `-->` does not occur early in body + `-->` (from index 1 on), hyphens included |
| CharCounter.NoDoubleHyphenNoEarlyClose | src/charcounter.ts:73 | a body without `--` (such as `2024-01-01` or `TODO-fix`) never lets `-->` close the comment early |
| CharCounter.HyphenatedCommentRemoved | src/charcounter.ts:73 | when the text before it holds no `<`, a one-line comment whose body has no `--`, such as `<!--2024-01-01-->`, is deleted with its body |
| CharCounter.RubyStripLeavesNoSpan | src/charcounter.ts:71 | after the ruby step no `《` is followed later by a `》` with something in between |
| CharCounter.CompiledTextHasNoRubySpan | src/charcounter.ts:69-73 | no ruby reading survives in the counted text, since the later steps only delete |
| CharCounter.CommentStripIsOnePass | src/charcounter.ts:73 | the comment step is one pass: removing an inner comment can leave a new comment that a second pass would remove |
| CharCounter.CountText | src/charcounter.ts:77-83 | the count is 0 exactly for the empty text, lies between the text's length and twice that, and is the length when every character is in the Basic Multilingual Plane |
| CharCounter.CountAtMostDocumentLength | src/charcounter.ts:60-83 | the count never exceeds the document's own UTF-16 length |
| RubiCompiler.GetRubiData | src/rubicompiler.ts:66-83 | the nested loop over files and entries keeps the records the filter specifies |
| RubiCompiler.KeptEntriesAppend | src/rubicompiler.ts:68-79 | the filter keeps order: the records of `a + b` are those of `a` followed by those of `b` |
| RubiCompiler.KeptRubiDataIsFilter | src/rubicompiler.ts:66-83 | reading file by file keeps the same records as one filter over all entries in file and then entry order |
| RubiCompiler.KeptEntriesMembers | src/rubicompiler.ts:72-78 | a record is kept exactly when some entry has a non-empty term and replacement, and it is that entry's term and replacement |
| RubiCompiler.KeptEntriesIdempotent | src/rubicompiler.ts:73-77 | every kept record is a rule without the unused fields, and filtering again changes nothing |
| RubiCompiler.IndexFrom | src/rubicompiler.ts:91 | the search finds the leftmost occurrence of the term, or reports that it does not occur |
| RubiCompiler.SubstitutionLiteral | src/rubicompiler.ts:91 | a replacement without `$` is inserted as written |
| RubiCompiler.ReplaceFirstAbsent | src/rubicompiler.ts:91 | a term that does not occur leaves the text unchanged |
| RubiCompiler.ReplaceFirstOccurrence | src/rubicompiler.ts:91 | only the leftmost occurrence is replaced; the text before and after it is kept verbatim |
| RubiCompiler.ReplaceFirstWithItself | src/rubicompiler.ts:91 | replacing a `$`-free term by itself, or by `$&`, leaves the text unchanged |
| RubiCompiler.ReplaceFirstLength | src/rubicompiler.ts:91 | with a `$`-free replacement the length changes by the difference of the two lengths, or not at all when the term is absent |
| RubiCompiler.CompileDocumentWithRubi | src/rubicompiler.ts:85-96 | the loop applies the entries in list order, skipping those without a term or a replacement |
| RubiCompiler.AddRubiToDocuments | src/rubicompiler.ts:37-45 | collecting the rules and applying them gives every parsed entry applied in file and entry order |
| RubiCompiler.ApplyRubiAppend | src/rubicompiler.ts:88-93 | entries apply in list order, each to the previous one's output |
| RubiCompiler.NoRulesNoChange | src/rubicompiler.ts:85-96 | an empty list, or entries that each lack a term or a replacement, leave the document unchanged |
| RubiCompiler.SkippedEntriesIrrelevant | src/rubicompiler.ts:90 | applying only the kept records gives the same text as applying all entries |
| RubiCompiler.RepeatedRuleReachesNextOccurrence | src/rubicompiler.ts:88-93 | one rule rewrites only the first `猫` of `猫と猫`, and the same rule twice rewrites both |
| RubiCompiler.MatchedTextPattern | src/rubicompiler.ts:91 | `$&` in a replacement stands for the term: for any non-empty term and `$`-free reading, the rule `\|$&` + reading turns term + rest into `\|` + term + reading + rest (so `\|$&《かんじ》` turns `漢字を書く` into `\|漢字《かんじ》を書く`) |

## Left out

- File discovery and reading are left out: the root and draft folders, the file listing and `readFileSync` (`src/novelcompiler.ts:15-31`, `src/novelcompiler.ts:49-139`). The compiler takes the list of file texts instead, and `nonCompile` (plain concatenation of those texts) is not modelled.
- Logging (`console.log`, `console.warn`) is left out.
- The character counter's editor plumbing is left out: the status bar (`update`, `show`, `hide`, `dispose`) and `CharCountUpdater`. The counter takes the document text instead.
- The ruby path checks and their warning messages, and the YAML parser, are left out. Ruby insertion takes the parsed entries of each file. A file that does not parse to a list is not modelled.
- RubiCompiler.RubiInfo: a YAML value other than a string (a number, a boolean) for the term or the replacement is not modelled; the fields are strings or missing. The template-literal conversion at `src/rubicompiler.ts:91` is therefore the identity.
- The files `src/outputter.ts`, `src/extension.ts` and `src/common.ts` (writing the result, command registration) are not part of this model.
- NovelCompiler.ConvDocPreFormat: requires well-formed units (`WellFormedUnit`). A break has no fragment and every other unit has at least one. A title, scene, sub-info, plain or comment unit has exactly one. A title's fragment starts with `# ` and a scene's with `## `. This is what `ConvDocInfo` always produces, and it is the only producer. On other input the source would read a missing fragment.
- NovelCompiler.CompleteDialogue: the closing bracket is a single character, which covers every bracket the source passes.
- Strings are sequences of code points. Only `CharCounter.CountText` measures UTF-16 units. Every mark the source matches or slices off is a single UTF-16 unit, so elsewhere the difference does not show.
- CharCounter.FirstSpanRemoved, CharCounter.RubyReadingRemoved, CharCounter.CommentRemoved, CharCounter.HyphenatedCommentRemoved: the text before the span must hold no character that begins the opening mark (`<` for comments, `《` for readings). That is stronger than "no match starts before the span". A `<` or `《` that starts no match is covered one character at a time by `CharCounter.StripSpansKeepsFront`, but no lemma covers such text as a whole.
- The `subject` recorded for a `Name:` line is kept in the unit but never read, as in the source.
