# Greedy line differ

This project models `diffLines(oldStr, newStr)`, the line-based differ a note-taking
app uses to show what changed between two versions of a note. The differ
splits both texts on `'\n'`, as ECMAScript's `String.prototype.split` does, so
`""` is one empty line and a trailing `'\n'` gives a trailing empty line. It
then walks a cursor `i` over the old lines and a cursor `j` over the new lines.
On each iteration it takes the first branch that applies:

1. The two current lines are equal: it emits `unchanged` and advances both cursors.
2. The new line does not occur anywhere in the old lines, or the old lines are
   used up: it emits `added` and advances `j`.
3. The old line does not occur anywhere in the new lines, or the new lines are
   used up: it emits `removed` and advances `i`.
4. Otherwise (the substitution fallback): it emits `removed` and then `added`,
   and advances both cursors.

It is a cheap heuristic, not a longest-common-subsequence diff.

Three modules:

- `Lines` (`lines.dfy`) has `Split` and `Join` on `'\n'`. It proves that
  `Join` undoes `Split` for every text, and that `Split` undoes `Join` on
  non-empty lists of `'\n'`-free lines.
- `DiffUtils` (`diff_lines.dfy`) has the edit-script datatype and the method
  `DiffLines`, the source's `while` loop with its four branches. `DiffLines`
  is proved against the function `Diff`, which states the same loop one
  iteration at a time. `OldSide` and `NewSide` project a script onto the lines
  it keeps from each text.
- `DiffProperties` (`diff_properties.dfy`) proves what the differ guarantees:
  - coverage of both texts;
  - the length bounds;
  - identical texts giving an all-unchanged script;
  - what the whole-list membership tests imply about each added and removed line;
  - worked cases.

The script functions and lemmas are generic over the line type.
`DiffLines` uses them with lines as strings.

Two behaviours of the code that a quick reading of its branches might not suggest:

- The membership tests on lines 11 and 14 use `includes` over the whole line
  array, not only the lines after the cursor. The model does the same.
  `DiffProperties.SwappedLines` shows the effect: for `"x\ny"` against
  `"y\nx"`, the second iteration takes the substitution fallback, although
  `"x"` is no longer among the old lines still to come.
- For `"a\nb"` against `"a\nc"`, one might expect unchanged `a`, removed
  `b`, added `c`. But the code tests for an added line before a removed one,
  and `"c"` does not occur among the old lines. So the result is unchanged
  `a`, added `c`, removed `b`, as `DiffProperties.ReplacedLastLine` states.

## Model

| member | source | states |
|---|---|---|
| Lines.Split | src/diffUtils.js:3-4 | splitting on '\n' yields at least one line, and no line contains a '\n' |
| Lines.JoinSplit | src/diffUtils.js:3-4 | joining the split lines with '\n' gives the text back, for every text |
| Lines.SplitJoin | src/diffUtils.js:3-4 | splitting the join of a non-empty list of '\n'-free lines gives the list back |
| DiffUtils.Choose | src/diffUtils.js:8-17 | the branch taken: unchanged exactly when both lines exist and are equal; added only with a new line that is absent from all old lines or with the old lines used up; removed only with an old line that is absent from all new lines or with the new lines used up; the fallback only with both cursors in bounds, on two different lines, each occurring in the other list |
| DiffUtils.Cursors | src/diffUtils.js:7-22 | after one iteration both cursors are still in bounds, neither moves back, and their sum grows (the loop's termination measure decreases) |
| DiffUtils.EmittedSides | src/diffUtils.js:9-21 | the old-side lines of one iteration's operations are exactly the old lines it moves `i` past; the same holds for the new side and `j` |
| DiffUtils.Emitted | src/diffUtils.js:9-20 | one iteration emits at least one operation, and no more than the lines it moves the cursors past |
| DiffUtils.DiffFrom | src/diffUtils.js:7-23 | the operations the loop emits from cursors `i`, `j` until both reach the end: none exactly when both cursors are already at the end, and at most as many as the lines left in both lists |
| DiffUtils.Step | src/diffUtils.js:7-22 | one iteration keeps the loop invariants: what is emitted so far covers the old lines before `i` and the new lines before `j`, and it is followed by the rest of the script |
| DiffUtils.DiffLines | src/diffUtils.js:2-25 | the result is the edit script `Diff` of the split texts; its unchanged and removed lines are the old text's lines, and its unchanged and added lines are the new text's lines; joining either side with '\n' rebuilds that text |
| DiffProperties.CoverageFrom | src/diffUtils.js:7-22 | from any cursors, the rest of the script covers the rest of each line list exactly once and in order |
| DiffProperties.Coverage | src/diffUtils.js:3-24 | the old side of the script is the old lines and the new side is the new lines |
| DiffProperties.Length | src/diffUtils.js:9-21 | the script's length is the old line count plus the new line count minus the number of unchanged operations; it is at least each line count and at most their sum |
| DiffProperties.SelfFrom | src/diffUtils.js:8-10 | diffing a list against itself from equal cursors gives one unchanged operation per remaining line, carrying that line |
| DiffProperties.Identical | src/diffUtils.js:3-10 | a text diffed against itself gives one unchanged operation per line of the text, carrying that line |
| DiffProperties.AllUnchangedIff | src/diffUtils.js:3-21 | every operation is unchanged if and only if the two texts are equal |
| DiffProperties.AddedFrom | src/diffUtils.js:11-21 | from any cursors, an added line that occurs among the old lines was added after all remaining old lines, or right after the removal of a different old line that occurs among the new lines |
| DiffProperties.AddedOccurringInOld | src/diffUtils.js:11-21 | in the whole script, an added line that occurs among the old lines comes after every old line, or completes a substitution pair |
| DiffProperties.RemovedFrom | src/diffUtils.js:14-21 | from any cursors, a removed line that occurs among the new lines was removed after all remaining new lines, or right before the addition of a different new line that occurs among the old lines |
| DiffProperties.RemovedOccurringInNew | src/diffUtils.js:14-21 | in the whole script, a removed line that occurs among the new lines comes after every new line, or opens a substitution pair |
| DiffProperties.EmptyTexts | src/diffUtils.js:3-10 | diffing "" against "" gives a single unchanged operation on the empty line |
| DiffProperties.ReplacedLast | src/diffUtils.js:8-16 | for lists [x, y] and [x, z] of distinct lines, the script is unchanged x, added z, removed y |
| DiffProperties.ReplacedLastLine | src/diffUtils.js:8-16 | "a\nb" against "a\nc" gives unchanged "a", added "c", removed "b" |
| DiffProperties.Swapped | src/diffUtils.js:11-21 | for lists [x, y] and [y, x] of distinct lines, both iterations take the substitution fallback: removed x, added y, removed y, added x |
| DiffProperties.SwappedLines | src/diffUtils.js:11-21 | "x\ny" against "y\nx" gives removed "x", added "y", removed "y", added "x" |

## Left out

- `src/App.jsx` is not part of this model. It holds the React component state, the `localStorage` persistence, alerts and confirmations, the file download and the theme switching. It is all UI and I/O, with no algorithm of its own.
- Markdown rendering is delegated to the external `react-markdown` library, whose source is not available.
- The inline highlight/superscript/subscript annotator and per-note version history are not part of this model. No source file available here implements them.
- JavaScript strings are sequences of UTF-16 code units, and a Dafny `char` is a Unicode scalar value. Well-formed UTF-16 text corresponds one-to-one to a sequence of scalar values. `'\n'` never occurs inside a surrogate pair, so the split points and `===` on lines agree with the model. Strings with lone surrogates have no counterpart in the model.
- The result objects `{ type, text }` are modelled as the datatype `DiffOp` with a `Kind`. The `push` onto the result array is modelled as appending to a sequence.
