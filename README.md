# Commit message suggestions: a Dafny model of the `suggest` action

The tool looks at the uncommitted changes of a Git working tree and asks a
text-completion service for one conventional-commit message per distinct
changed line. This project models the tool's `suggest` action
(`src/index.ts`, the `action` callback) and proves what it promises.

The action runs in four steps:

1. It keeps the status entries whose working-directory status is not a
   space. If none are left, it prints `No changes found in Git project`
   and stops.
2. It builds the changed-line index in two nested loops. It reads each
   changed file and splits it on `'\n'`. It keeps the first `maxChanges`
   lines (100 by default) and trims each one. It inserts every non-blank
   trimmed line that is not yet a key, attributed to the file and the
   1-based line number.
3. It sends one completion request per key, in key order. The prompt holds
   the fixed instructions, the line, the file and the line number. It trims
   the reply's first choice and appends ` (file:line)`. A failed request is
   logged and the loop goes on.
4. It prints `Commit message suggestions:` and then the suggestions, one
   per line.

Modules:

- `Text` (`text.dfy`): ECMAScript `trim`, `split` and `join` with a
  one-character separator, and the decimal rendering of a line number.
- `Flatten` (`flatten.dfy`): generic lemmas that locate an element of a
  sequence of blocks laid end to end.
- `ChangeIndex` (`change_index.dfy`): the status filter (`Changed`) and the
  two index-building loops as methods (`BuildIndex`, `ScanFile`).
  - Both methods are proved against the specification predicate `IndexOf`.
  - `IndexOf` is stated over `Cells`: all scanned lines of all changed
    files, in scanning order, each trimmed and attributed.
  - The index is an insertion-ordered map: `keys` in insertion order,
    plus a `map` from key to attribution.
- `Dispatch` (`dispatch.dfy`): the request loop as the method
  `CollectSuggestions`, proved against the functions `Suggestions` and
  `FailureCount`.
  - The prompt and the rendering of a suggestion are functions.
  - The completion service is the parameter `complete`, which maps a
    prompt to `Completed(text)` or `Failed`.
- `Suggest` (`suggest.dfy`): the action as a whole (`Suggest`) and the
  printed lines (`Output`).

Behaviour of the code the model keeps:

- Only the working-directory status is tested. A file that is staged but
  unchanged in the working tree is skipped.
- An explicit `--max-changes 0` is honoured and scans no line, because the
  option string `"0"` is truthy.

## Model

| member | source | states |
|---|---|---|
| Text.Trim | src/index.ts:52 | `line.trim()`: drops the leading and then the trailing ECMAScript whitespace and line terminators; what it keeps and drops is stated by TrimShape, TrimFixedPoint and TrimEmpty. |
| ChangeIndex.Scanned | src/index.ts:49 | `contents.split('\n').slice(0, maxChanges)`; its shape is stated by ScannedIsCappedPrefix. |
| Text.Join | src/index.ts:83 | `pieces.join(sep)`: the pieces with one separator between neighbours; it is the inverse of Split by JoinSplit and SplitJoin. |
| Dispatch.ChangeInfo | src/index.ts:63 | The closing part of the prompt: the line, `File: <path>`, `Line number: <n>`, each followed by a line break; read back by ChangeInfoLines. |
| Dispatch.Prompt | src/index.ts:63 | The prompt: the fixed instruction text `Preamble`, character for character, followed by ChangeInfo; PromptsDistinct shows that different keys get different prompts. |
| Dispatch.Reply | src/index.ts:64-68 | The outcome of the completion request for a key: the service applied to the key's prompt. |
| Dispatch.Render | src/index.ts:69-71 | A suggestion: the trimmed message, a space, and `(file:line)`; read back by RenderReadBack. |
| Suggest.MaxChanges | src/index.ts:33 | The effective line cap: the given cap, or 100 when none is given. |
| ChangeIndex.Changed | src/index.ts:37 | Every file kept is in the status list with a working-directory status other than a space. Every such file is kept. The result is no longer than the input. |
| ChangeIndex.ChangedAppend | src/index.ts:37 | Filtering distributes over concatenation, so the changed files keep their status order. |
| ChangeIndex.ChangedEmpty | src/index.ts:37-39 | No changed file is left exactly when every entry has working-directory status `' '`. |
| ChangeIndex.UnmodifiedFileIgnored | src/index.ts:37 | An entry with status `' '` can be removed from anywhere in the status list without changing the files scanned. |
| ChangeIndex.ScannedIsCappedPrefix | src/index.ts:49 | The scanned lines are the first `min(maxChanges, number of lines)` pieces of the split contents. |
| ChangeIndex.FileCells | src/index.ts:49-54 | A file yields one cell per scanned line, and cell `i` is attributed to the file's path and line number `i + 1`. |
| ChangeIndex.FirstCell | src/index.ts:53 | Returns the position of the first scanned line whose trimmed text is `k`: it has that text and no earlier line does. Returns the number of lines when there is none. |
| ChangeIndex.IndexAppendNew | src/index.ts:53-54 | Inserting a non-blank line that is not yet a key keeps the index exact for the scanned lines plus that line, with the key appended last. |
| ChangeIndex.IndexAppendOld | src/index.ts:53 | A blank line, or one that is already a key, leaves the index exact and unchanged. |
| ChangeIndex.IndexExtend | src/index.ts:52-55 | One iteration of the inner loop. The index grows by the line exactly when the trimmed line is non-blank and new. Otherwise it stays as it was. |
| ChangeIndex.ScanFile | src/index.ts:51-56 | The inner loop turns the index of the lines scanned before a file into the index of those lines followed by the file's own scanned lines. |
| ChangeIndex.BuildIndex | src/index.ts:44-57 | Both loops together produce exactly the changed-line index of all scanned lines of all changed files. |
| ChangeIndex.KeysTrimmed | src/index.ts:49-54 | Every key is non-blank, is a fixed point of `trim`, and holds no line break. |
| ChangeIndex.KeysDistinct | src/index.ts:53-54 | No key occurs twice in the key order, and there are as many keys as map entries. |
| ChangeIndex.KeysBounded | src/index.ts:49-54 | There are no more keys than scanned lines, and no more scanned lines than `maxChanges` times the number of changed files. |
| ChangeIndex.AttributionSound | src/index.ts:49-54 | A key's attribution names a scanned file. Its line number is between 1 and that file's scanned-line count, which is at most `maxChanges`. That line trims to the key. |
| ChangeIndex.ScannedLineIsKey | src/index.ts:51-55 | Completeness: every scanned line that trims to a non-blank string is a key. |
| ChangeIndex.FirstOccurrenceWins | src/index.ts:47-57 | A line is attributed to its earliest occurrence, in file order and then line order. Later occurrences do not overwrite it. |
| ChangeIndex.IndexOfUnique | src/index.ts:44-57 | The scanned lines determine the index: the same keys in the same order, with the same attributions. |
| Text.TrimShape | src/index.ts:52 | `trim` keeps the infix that neither starts nor ends with whitespace. Everything cut off on either side is ECMAScript whitespace or a line terminator. |
| Text.TrimFixedPoint | src/index.ts:52 | A string is unchanged by `trim` exactly when it neither starts nor ends with a trimmable character. |
| Text.TrimIdempotent | src/index.ts:52 | Trimming twice is trimming once. |
| Text.TrimEmpty | src/index.ts:52-53 | A line is skipped as blank exactly when all its characters are trimmable. |
| Text.Split | src/index.ts:49 | `split` always yields at least one piece. |
| Text.SplitPiecesExcludeSeparator | src/index.ts:49 | No piece of `split('\n')` contains a line break. |
| Text.JoinSplit | src/index.ts:49 | Joining the pieces of a split with the separator gives back the contents. |
| Text.SplitJoin | src/index.ts:83 | Splitting the join of separator-free pieces gives back the pieces. |
| Text.Decimal | src/index.ts:63 | A line number renders as a non-empty string of decimal digits without a leading zero. |
| Text.DecimalRoundTrip | src/index.ts:70 | Reading the rendered line number back gives the number. |
| Dispatch.Suggestions | src/index.ts:59-80 | There are never more suggestions than keys. |
| Dispatch.FailureCount | src/index.ts:72-79 | There are never more failed requests than keys. |
| Dispatch.CollectSuggestions | src/index.ts:59-80 | The loop returns the suggestions and the failure count of all keys, and every key ends in exactly one of the two. |
| Dispatch.OutcomesAccounted | src/index.ts:61-79 | Suggestions plus failures equal the number of keys. There is one suggestion per successful request. |
| Dispatch.SuggestionsAppend | src/index.ts:61-71 | Each request is handled on its own: the suggestions of `a + b` are those of `a` followed by those of `b`. |
| Dispatch.FailureDoesNotAbort | src/index.ts:72-79 | A failed request leaves no trace. The suggestions are those of the keys before it followed by those of the keys after it. |
| Dispatch.SucceededSound | src/index.ts:61-71 | The successful positions are in range, strictly ascending (so key order is kept), and each one's request completed. |
| Dispatch.SucceededComplete | src/index.ts:61-71 | Every key whose request completed is among the successful positions. |
| Dispatch.SuggestionsExactly | src/index.ts:68-71 | The `m`-th suggestion is the trimmed completion of the `m`-th successful request, followed by ` (file:line)` for that key. |
| Dispatch.ChangeInfoLines | src/index.ts:63 | The change information in a prompt reads back line by line: the key, `File: <path>`, `Line number: <n>`, and an empty last line. |
| Dispatch.PromptsDistinct | src/index.ts:61-63 | Different keys are sent in different prompts, whatever their attributions. |
| Dispatch.RenderReadBack | src/index.ts:69-71 | A suggestion ends in `)`. The digits before it parse back to the line number, and what precedes them is `message (file:`. |
| Dispatch.RenderExample | src/index.ts:70 | The line `feat: add parser`, first seen at line 5 of `src/a.ts`, renders as `feat: add parser (src/a.ts:5)`. |
| Suggest.Suggest | src/index.ts:31-84 | The action reports no changes exactly when the filtered list is empty. Otherwise it reports the exact index of the scanned lines under the effective cap (given, or 100), with the suggestions and the failure count of that index. |
| Suggest.Output | src/index.ts:39-83 | One line is printed when nothing changed. Otherwise two are: the header and the joined suggestions. |
| Suggest.NothingChanged | src/index.ts:37-42 | When every entry is unmodified in the working tree, the action prints exactly `No changes found in Git project`. |
| Suggest.OutputListsSuggestions | src/index.ts:82-83 | When no suggestion holds a line break, the printed list splits back into the suggestions, in order. |
| Suggest.EachKeyItsOwnPrompt | src/index.ts:61-63 | Any two keys of an index are sent in different prompts, so a reply is never shared between lines. |

## Left out

- The command-line interface (commander), `.env` loading, the API key and the client construction are not modelled. They happen before the action body or outside it.
- The project path is left out. The Git status and the reads of file contents are not modelled: their results are the input `files`, each entry carrying its path, its working-directory status and its contents.
- The completion service is not modelled: it is the parameter `complete` from prompt to outcome. The model name `text-davinci-003` and the request options are not represented.
- Asynchrony is not modelled. The action awaits every call in turn, so it runs in sequence.
- Dispatch.CollectSuggestions: keeps only the number of failed requests, not the status, body or message the source logs for each one. The failure logs printed before the output lines are left out.
- Suggest.Suggest: takes the cap as an optional natural number. A string option that is negative or not a number is not modelled. `slice` would turn such a value into 0 or count from the end.
- Dispatch.Suggestions: a reply whose first choice has no `text` is not modelled. The source would render it as `undefined`. The model treats a reply as either a text or a failure.
- Suggest.Suggest: assumes every kept status entry can be read. A failed read is not modelled; an unstaged deletion, for example, passes the filter and then makes `readFileSync` throw. That error is not caught, so the action ends with no request sent and nothing printed, while the model reports `Suggested` for every input that has a changed file.
- ChangeIndex.BuildIndex: the key order is insertion order. `Object.keys` on the source's plain object lists integer-like keys first, in numeric order, so a changed line such as `42` would be dispatched earlier than modelled.
- ChangeIndex.BuildIndex: prototype properties are not modelled. The lookup `changedLines[line]` also sees them, so lines such as `constructor` or `toString` are never inserted, and `__proto__` is special.
- Strings are sequences of Unicode scalar values rather than UTF-16 code units. The characters `trim` and `split` look at are the same in both.
