# UniqueInt in Dafny

UniqueInt reads a text file of candidate integers, one per line, and writes a
second file. The output lists each distinct integer in the range [-1023, 1023]
once, in ascending order. It does this in `processFile` in `UniqueInt.js`:

- the text is split on `'\n'`;
- each line is trimmed;
- a line is skipped if it is empty or still holds whitespace after trimming;
- the remaining text must match `isInteger` (`^-?\d+$`) and is parsed base 10;
- a value inside [MIN_INTEGER, MAX_INTEGER] is recorded once, with a boolean
  presence array indexed by `value - MIN_INTEGER` to detect repeats;
- the recorded values are sorted ascending and written joined by `'\n'`, with one
  more `'\n'` at the end.

The model has four modules:

- `Text` covers the JavaScript string operations the program uses: `trim`,
  `split('\n')`, the field count of `split(/\s+/)`, and `join`.
- `Decimal` covers `isInteger`, `parseInt(s, 10)` on accepted text, and the
  decimal rendering of a number.
- `Sorting` is an in-place insertion sort on an `array<int>`. It stands for
  `Array.prototype.sort((a, b) => a - b)`, with ordering lemmas beside it.
- `UniqueInt` holds the constants and the per-line specification `LineValue`.
  The `forEach` loop is a method over an `array<bool>` presence array.
  `ProcessContent` is the whole body between reading and writing. `Output` is the
  specification function from input text to output text, and the lemmas about
  the whole transformation sit next to it.

The output convention follows the code: `join('\n') + '\n'`, so an empty result is
written as the one-character text `"\n"`, not as an empty file.

## Model

| member | source | states |
|---|---|---|
| Decimal.IsInteger | UniqueInt.js:10-12 | the `isInteger` test `/^-?\d+$/`; `Decimal.IntegerCharacters` characterises it character by character in both directions |
| Decimal.IntegerCharacters | UniqueInt.js:10-12 | `isInteger` holds exactly when the text is non-empty, starts with a digit or with a `-` followed by more text, and every later character is a digit (so no `+`, `.`, exponent or space) |
| Decimal.IntegerHasNoWhitespace | UniqueInt.js:10-12 | text accepted by `isInteger` holds no whitespace, so it is a single field |
| Decimal.ParseInteger | UniqueInt.js:34 | `parseInt(cleanedLine, 10)` on text `isInteger` accepted; `Decimal.ParseRender` makes it the inverse of rendering and `Decimal.LeadingZeros` shows leading zeros add nothing |
| Decimal.Render | UniqueInt.js:50 | `String(n)` for each number in the join: text `isInteger` accepts, which `Decimal.ParseRender` reads back as `n` |
| Decimal.ParseRender | UniqueInt.js:33-34 | every integer renders to text `isInteger` accepts, and parsing that text gives the integer back |
| Decimal.LeadingZeros | UniqueInt.js:34 | leading zeros do not change the parsed value ("007" reads as 7) |
| Decimal.RenderNat | UniqueInt.js:50 | the rendering of a natural number is a non-empty digit string whose base-10 value is that number, with no leading zero (0 renders as the single digit "0") |
| Text.Trim | UniqueInt.js:29 | the trimmed line has no whitespace at either end |
| Text.TrimSlice | UniqueInt.js:29 | the trimmed line is a slice of the line with only whitespace before and after it |
| Text.TrimPadded | UniqueInt.js:29 | trimming whitespace-padded text whose ends are not whitespace gives that text back, which pins the result of trim down uniquely |
| Text.FieldCount | UniqueInt.js:30 | `split(/\s+/).length` is at least 1, and it is exactly 1 iff the text holds no whitespace |
| Text.Split | UniqueInt.js:28 | `split('\n')` gives at least one piece; `Text.SplitPieces`, `Text.JoinSplit` and `Text.SplitJoin` pin the pieces down |
| Text.Join | UniqueInt.js:50 | `join('\n')`: the parts with one separator between neighbours; `Text.JoinSnoc`, `Text.JoinSplit` and `Text.SplitJoin` characterise it |
| Text.JoinSplit | UniqueInt.js:28 | joining the pieces of `split('\n')` with `'\n'` restores the text, so no input character is lost between lines |
| Text.SplitJoin | UniqueInt.js:28 | splitting a `'\n'`-join of one or more newline-free pieces gives the pieces back (zero pieces join to `""`, which splits to one empty piece) |
| Text.SplitPieces | UniqueInt.js:28 | no line produced by `split('\n')` holds a newline |
| Text.JoinSnoc | UniqueInt.js:50 | joining one more part appends the separator and that part |
| UniqueInt.LineValue | UniqueInt.js:29-38 | what one line contributes after trim, the empty and field-count checks, `isInteger`, `parseInt` and the range check; `UniqueInt.LineValueAccepts` characterises it |
| UniqueInt.LineValueAccepts | UniqueInt.js:29-38 | a line contributes a value iff its trimmed text passes `isInteger` and parses into [MIN_INTEGER, MAX_INTEGER], and then it contributes the parsed value; the empty and multi-field checks reject nothing more |
| UniqueInt.PaddedLineValue | UniqueInt.js:29-30 | whitespace around a line, such as a trailing `\r`, does not change what it contributes |
| UniqueInt.LineValuesMembers | UniqueInt.js:28-43 | a value is among the contributed values iff some line contributes it, and every contributed value lies in the range |
| UniqueInt.Dedup | UniqueInt.js:39 | the Set's insertion order holds no repeats and has the same members as the values fed to it |
| UniqueInt.AscendingMembers | UniqueInt.js:46 | the listing is strictly increasing and holds exactly the members that lie in the given bounds |
| UniqueInt.Record | UniqueInt.js:38-40 | the Set after one line: its value is added when it has one not yet recorded; `UniqueInt.RecordLine` is proved equal to it |
| UniqueInt.PresenceAdd | UniqueInt.js:38-40 | recording a new in-range value whose slot is clear keeps the presence array and the recorded values in step |
| UniqueInt.RecordLine | UniqueInt.js:29-42 | one `forEach` step records exactly the line's value when it is new; the presence array stays in step; no slot other than the value's own changes; every index used is inside the array |
| UniqueInt.CollectUnique | UniqueInt.js:24-43 | the collected values are the first occurrences of the accepted values in line order; each is recorded exactly once and lies in the range; a value is collected iff some line contributes it |
| Sorting.Insert | UniqueInt.js:46 | inserting the next element into the sorted prefix extends the sorted prefix by one, only permutes that prefix, and leaves everything after it unchanged |
| Sorting.InsertionSort | UniqueInt.js:46 | the array ends sorted ascending and is a permutation of its input |
| Sorting.DistinctCounts | UniqueInt.js:24 | a sequence is duplicate-free iff no value occurs in it more than once |
| Sorting.PermutationDistinct | UniqueInt.js:46 | a permutation of a duplicate-free sequence is duplicate-free |
| Sorting.StrictlyIncreasingUnique | UniqueInt.js:46 | two strictly increasing sequences with the same members are equal |
| UniqueInt.SortedDedupListing | UniqueInt.js:46 | a sorted permutation of the collected values is strictly increasing and equals the ascending listing of the accepted values |
| UniqueInt.ProcessContent | UniqueInt.js:24-50 | the sorted numbers are strictly increasing, lie in the range, and are exactly the values of the accepted lines; the written text is their serialisation |
| UniqueInt.Serialise | UniqueInt.js:50 | `sortedNumbers.join('\n') + '\n'`; `UniqueInt.SerialiseLines` and `UniqueInt.SplitSerialise` characterise it |
| UniqueInt.Output | UniqueInt.js:24-50 | the whole transformation from input text to output text; `UniqueInt.ProcessContent` ties it to the loop, the presence array and the sort |
| UniqueInt.SerialiseLines | UniqueInt.js:50 | the written text is each number's rendering followed by a newline, and exactly `"\n"` when there are no numbers |
| UniqueInt.RenderedLineValue | UniqueInt.js:29-38 | an output line read back as input contributes exactly the number it was written for |
| UniqueInt.LineValuesRendered | UniqueInt.js:28-43 | reading back rendered in-range numbers line by line gives the numbers in order |
| UniqueInt.SplitSerialise | UniqueInt.js:50 | splitting the written text on `'\n'` gives one line per number and then the empty line after the final newline (two empty lines when there are no numbers) |
| UniqueInt.OutputFixedPoint | UniqueInt.js:24-50 | running the transformation on its own output reproduces that output |
| UniqueInt.SameLinesSameOutput | UniqueInt.js:24-46 | reordering or repeating input lines does not change the output: inputs with the same set of lines give the same text |

The constants MIN_INTEGER = -1023, MAX_INTEGER = 1023 and TOTAL_RANGE = 2047
(UniqueInt.js:5-7) are `UniqueInt.MIN_INTEGER`, `UniqueInt.MAX_INTEGER` and
`UniqueInt.TOTAL_RANGE`. `TOTAL_RANGE` is the length of the presence array.

## Left out

- `fs.readFile` and `fs.writeFile` and their error callbacks (UniqueInt.js:17-21, 50-56) are asynchronous file I/O. `ProcessContent` starts from the text that was read and returns the text to be written.
- The `console.log` and `console.error` diagnostics (UniqueInt.js:16, 22, 47, 54) only observe the run and are left out.
- The hard-coded example paths and the top-level call (UniqueInt.js:61-65) are left out.
- Decimal.ParseInteger: JavaScript numbers are IEEE doubles. The model's values are mathematical integers, so it leaves out the precision loss and `Infinity` that `parseInt` gives for very long digit strings. Such values fail the range check in both cases. It also leaves out `-0` for `"-0"`, which selects the same slot and prints as `0`.
- Text.IsWhitespace: the model uses the ECMAScript WhiteSpace and LineTerminator code points as Unicode scalar values. JavaScript strings are UTF-16, but every one of these code points lies in the Basic Multilingual Plane, so the difference does not show.
- Sorting.InsertionSort: `Array.prototype.sort` is a library call whose algorithm is not part of this model. It is modelled by an insertion sort with the same contract, sorted and a permutation, under the numeric comparator `a - b`.
- UniqueInt.Dedup: the JavaScript `Set` is modelled as the sequence of its members in insertion order. That sequence is what `Array.from` returns.
