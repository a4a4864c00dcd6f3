# ExcelDataCleaner: text and grid logic in Dafny

ExcelDataCleaner is a small React application. It loads a spreadsheet, cleans the text cells of its first worksheet, and offers the result as a new `.xlsx` download. It also previews a grid in which modified cells are highlighted and titled with their original value. This project models the three pieces of that application that are plain text and grid logic, and proves properties of them:

- **ExcelReader** (`excel_reader.dfy`):
  - the character filter `removeSpecialCharacters`, which keeps only ASCII letters, digits and space;
  - the loop in `handleFile` that applies that filter in place to every worksheet entry whose key does not start with `!` and whose `v` is a string;
  - `s2ab`, which turns the codec's binary string into a byte buffer, one byte per UTF-16 code unit, masked with `0xFF`.
- **ExcelPreview** (`excel_preview.dfy`): the projection of a `string[][]` grid into display cells. Each cell gets:
  - the positional id `"{row}-{col}"`;
  - the `modified` mark when `modifiedCells` has that id as an own key;
  - the title `"Valor original: " + originalCells[id]` when marked.
- **RegExp.escape** (`regexp_escape.dfy`): puts a backslash in front of each of `\ ^ $ * + ? . ( ) | [ ] { }` and copies every other character.

All strings are sequences of UTF-16 code units (`CodeUnits.Str`, in `code_units.dfy`), as JavaScript's `length`, `charCodeAt` and regular expressions without the `u` flag see them.

The worksheet is a class `ExcelReader.Worksheet`. Its field `cells` maps each own key of the worksheet object to what the loop finds there: an object whose `v` is a string, any other entry on which reading `.v` does not throw (an object whose `v` is not a string, or a primitive, whose `.v` is `undefined`), or `undefined` or `null`. The loop is the method `RemoveSpecialCharactersInPlace`. It reports failure exactly when reading some `.v` would throw. When it succeeds, it is proved equal to the function `CleanedSheet` of the old map. `s2ab` is the method `S2ab`, which fills a fresh `array<Byte>` in a `for` loop. It is proved equal to the function `LowBytes`.

The preview and `RegExp.escape` are functions, because the source computes them with `map` and `replace`, without mutation. Dafny values are immutable, so the preview cannot change `data` or either record.

Each operation has a partner:
- The filter: its fixed points, idempotence, per-character counts, subsequence and concatenation laws.
- The loop: `CleanedSheet` and its idempotence.
- `s2ab`: the inverse reading `BinaryString`.
- Cell ids: the parser `ParseCellId`, with a round-trip.
- Escaping: `Unescape`, with round-trips in both directions over the well-formed escaped strings.

In these files `removeSpecialCharacters` deletes accented letters outright. It does not fold them to their base letter, so `Niño#1` becomes `Nio1` (`RemoveExample`). `modifiedCells` and `originalCells` are filled by an accent-folding normaliser that is not in these files, so it is not part of this model. The model follows the code.

## Model

| member | source | states |
|---|---|---|
| ExcelReader.IsAllowed | src/components/ExcelReader/ExcelReader.tsx:11 | the kept class `[a-zA-Z0-9 ]` is case-sensitive ASCII: no code unit at or above 128 is kept |
| ExcelReader.RemoveSpecialCharacters | src/components/ExcelReader/ExcelReader.tsx:10-12 | every code unit of the result is in `a-z`, `A-Z`, `0-9` or space, and the result is never longer than the input |
| ExcelReader.RemoveIsSubsequence | src/components/ExcelReader/ExcelReader.tsx:11 | the result is a subsequence of the input: the filter only deletes and keeps relative order |
| ExcelReader.RemoveCounts | src/components/ExcelReader/ExcelReader.tsx:11 | each allowed code unit occurs in the result as often as in the input; each disallowed one does not occur at all |
| ExcelReader.RemoveConcat | src/components/ExcelReader/ExcelReader.tsx:11 | the global replace works per code unit: cleaning `a + b` is cleaning `a` followed by cleaning `b` |
| ExcelReader.RemoveFixedPoint | src/components/ExcelReader/ExcelReader.tsx:11 | a string is returned unchanged if and only if it holds only allowed code units |
| ExcelReader.RemoveIdempotent | src/components/ExcelReader/ExcelReader.tsx:11 | cleaning a cleaned string changes nothing |
| ExcelReader.RemoveExample | src/components/ExcelReader/ExcelReader.tsx:11 | `Niño#1` is cleaned to `Nio1`: the accented letter and the symbol are deleted, not folded |
| ExcelReader.IsMetaKey | src/components/ExcelReader/ExcelReader.tsx:29 | `cell[0] !== '!'` fails exactly for keys whose first code unit is `!`; the empty key (whose `[0]` is `undefined`) is not a `!` key |
| ExcelReader.Throws | src/components/ExcelReader/ExcelReader.tsx:29 | reading `worksheet[cell].v` throws only under a key not starting with `!` (the `&&` short-circuits first) and only when the entry is `undefined` or `null` |
| ExcelReader.SheetThrows | src/components/ExcelReader/ExcelReader.tsx:27-33 | the loop meets a throwing read exactly when some key not starting with `!` holds `undefined` or `null`; otherwise no such key does |
| ExcelReader.CleanEntry | src/components/ExcelReader/ExcelReader.tsx:29-30 | one iteration that does not throw: an entry whose key does not start with `!` and whose value is a string gets the cleaned string; any other entry is left as it was |
| ExcelReader.CleanedSheet | src/components/ExcelReader/ExcelReader.tsx:27-33 | after a loop that runs to its end the key set is unchanged; every non-`!` string entry holds the cleaned old value; `!` entries and non-string values are untouched |
| ExcelReader.CleanedSheetIsClean | src/components/ExcelReader/ExcelReader.tsx:27-31 | after the loop, every text under a non-`!` key holds only allowed code units |
| ExcelReader.CleanedSheetIdempotent | src/components/ExcelReader/ExcelReader.tsx:27-33 | running the loop over an already cleaned worksheet changes nothing, and cleaning does not change whether the loop throws |
| ExcelReader.Worksheet.constructor | src/components/ExcelReader/ExcelReader.tsx:24-25 | the worksheet object holds the given entries |
| ExcelReader.Worksheet.RemoveSpecialCharactersInPlace | src/components/ExcelReader/ExcelReader.tsx:27-33 | the in-place loop succeeds exactly when no entry under a key not starting with `!` is `undefined`/`null` (reading `.v` throws otherwise, and `catch` abandons the load); on success it leaves exactly `CleanedSheet` of the old entries, whatever order it visits the keys in; in every case the key set is unchanged and each entry is either untouched or cleaned |
| ExcelReader.LowByte | src/components/ExcelReader/ExcelReader.tsx:54 | `charCodeAt(i) & 0xFF` equals the code unit exactly when the code unit is below 256 |
| ExcelReader.LowBytes | src/components/ExcelReader/ExcelReader.tsx:51-56 | one byte per code unit, as many bytes as `s` has code units; byte `i` is code unit `i` modulo 256 |
| ExcelReader.S2ab | src/components/ExcelReader/ExcelReader.tsx:51-56 | s2ab returns a freshly allocated buffer whose contents are `LowBytes(s)` |
| ExcelReader.BinaryString | src/components/ExcelReader/ExcelReader.tsx:38-39 | a binary string (what `XLSX.write` with `type: 'binary'` hands to s2ab) has one code unit per byte, equal to it |
| ExcelReader.LowBytesOfBinaryString | src/components/ExcelReader/ExcelReader.tsx:38-54 | s2ab of a binary string recovers exactly the bytes the string was made of |
| ExcelReader.LowBytesLossless | src/components/ExcelReader/ExcelReader.tsx:54 | reading the bytes back as a binary string gives `s` if and only if every code unit of `s` is below 256 |
| ExcelReader.LowBytesConcat | src/components/ExcelReader/ExcelReader.tsx:54 | the conversion works per code unit and distributes over concatenation |
| ExcelPreview.Decimal | src/components/ExcelPreview/ExcelPreview.tsx:19 | an index prints as one or more decimal digits with no leading zero |
| ExcelPreview.DecimalRoundTrip | src/components/ExcelPreview/ExcelPreview.tsx:19 | the decimal text of an index reads back as that index |
| ExcelPreview.CellId | src/components/ExcelPreview/ExcelPreview.tsx:19 | the id is `Decimal(row)`, then `-`, then `Decimal(col)`, with the `-` right after the row digits; the row part has no `-` |
| ExcelPreview.CellIdRoundTrip | src/components/ExcelPreview/ExcelPreview.tsx:19 | splitting an id at its first `-` and reading both halves gives back (row, col) |
| ExcelPreview.CellIdInjective | src/components/ExcelPreview/ExcelPreview.tsx:19 | two positions have the same id if and only if they are the same position |
| ExcelPreview.CellIdExample | src/components/ExcelPreview/ExcelPreview.tsx:19 | the cell at row 12, column 3 has id `12-3` |
| ExcelPreview.OriginalText | src/components/ExcelPreview/ExcelPreview.tsx:25 | `${originalCells[cellId]}` gives the recorded value, or `undefined` when the key is missing |
| ExcelPreview.RenderCell | src/components/ExcelPreview/ExcelPreview.tsx:18-30 | a `<td>` shows the cell's text, is marked iff `modifiedCells` has its id, has title `Valor original: ` plus the original text when marked and an empty title otherwise |
| ExcelPreview.RenderRow | src/components/ExcelPreview/ExcelPreview.tsx:18 | a row renders to as many display cells as it has cells, each showing its source text |
| ExcelPreview.Render | src/components/ExcelPreview/ExcelPreview.tsx:16-31 | same number of rows, each row as long as its source row, texts unchanged; a cell is marked iff `modifiedCells` has its id; a marked cell's title is `Valor original: ` plus `originalCells[id]` (or `undefined`), and an unmarked cell's title is empty |
| ExcelPreview.MarksIgnoreOriginals | src/components/ExcelPreview/ExcelPreview.tsx:20-24 | whether a cell is marked does not depend on `originalCells` |
| ExcelPreview.NoModificationsRendersPlain | src/components/ExcelPreview/ExcelPreview.tsx:16-31 | with an empty `modifiedCells`, every cell shows its text, unmarked, with an empty title |
| ExcelPreview.OneCellPerKey | src/components/ExcelPreview/ExcelPreview.tsx:19-20 | a record entry marks only its own cell: removing the key of one marked cell unmarks that cell and leaves every other cell as it was |
| ExcelPreview.TwoCellExample | src/components/ExcelPreview/ExcelPreview.tsx:16-31 | in a two-cell row where only the first id is in `modifiedCells`, the first cell is marked and titled with its original value, and the second is plain although `originalCells` has an entry for it |
| RegExpEscape.IsMeta | src/typings.d.ts:8 | the class `[\\^$*+?.()\|[\]{}]` holds only ASCII code units and neither `-` nor `/` |
| RegExpEscape.EscapeUnit | src/typings.d.ts:8 | the replacement `\\$&` of one code unit: a metacharacter becomes a backslash followed by itself; any other code unit becomes itself alone |
| RegExpEscape.Escape | src/typings.d.ts:7-9 | the escaped string is as long as the input plus the number of metacharacters in it |
| RegExpEscape.Unescape | src/typings.d.ts:8 | removing the backslashes never makes a string longer |
| RegExpEscape.EscapeAt | src/typings.d.ts:8 | at any position, a metacharacter is emitted as a backslash then itself, and any other code unit (`-` and `/` included) is copied |
| RegExpEscape.EscapeConcat | src/typings.d.ts:8 | `escape(a + b) == escape(a) + escape(b)` |
| RegExpEscape.EscapeFixedPoint | src/typings.d.ts:8 | a string is returned unchanged if and only if it holds no metacharacter |
| RegExpEscape.CountMetaZero | src/typings.d.ts:8 | a string in which no metacharacter is counted holds none |
| RegExpEscape.UnescapeEscape | src/typings.d.ts:8 | removing the backslash in front of each escaped code unit recovers the original string |
| RegExpEscape.EscapeWellEscaped | src/typings.d.ts:8 | in an escaped string, every metacharacter follows a backslash and every backslash is followed by a metacharacter |
| RegExpEscape.EscapeUnescape | src/typings.d.ts:8 | every well-formed escaped string is the escape of its unescaping |
| RegExpEscape.EscapeInjective | src/typings.d.ts:8 | two strings have the same escape if and only if they are equal |
| RegExpEscape.EscapeExample | src/typings.d.ts:8 | `-/.` escapes to `-/\.` |

## Left out

- Browser file I/O (`FileReader`, `onload`, `onerror`, `readAsArrayBuffer`) is left out: it is asynchronous browser input with no logic of its own.
- The spreadsheet codec `XLSX.read`, `XLSX.write`, `book_new` and `book_append_sheet` is left out: it is a foreign library whose code is not part of this model. The worksheet is an input map, and the written string is an input to `S2ab`.
- `downloadFile` (`Blob`, `saveAs`) is left out: it only triggers a download.
- The React parts are left out: `useState`/`setData`, the JSX markup, `key` attributes, CSS class strings, the `darkMode` toggle and `console.error` logging. The `modified` class is modelled as the boolean `DisplayCell.modified`.
- The accent-folding normaliser that produces `modifiedCells` and `originalCells` is not part of this model. Both records are inputs to `Render`.
- Regular-expression semantics are left out. Each `replace` is modelled as the per-code-unit function it amounts to. The model does not prove that the escaped text, used as a pattern, matches the literal text.
- The worksheet loop's `for ... in` also visits inherited enumerable properties, which `hasOwnProperty` then skips. The model holds own properties only, so this filter is implicit.
- An entry that is an object without a string `v`, or a primitive (number, string, boolean) whose `.v` reads as `undefined`, is modelled as `Other`. An entry that is `undefined` or `null` is modelled as `NoObject`. On a key not starting with `!`, reading its `.v` throws. The loop then stops with `ok == false`, and `handleFile` only logs the error and skips `setData`. Nothing from this file is exported, but a buffer from an earlier successful load stays in `data` and stays downloadable. The model does not say which entries were cleaned before the throw, because that depends on the visiting order. It says only that each entry is either untouched or cleaned.
- Each worksheet entry is modelled as a value. A cell object shared between a key starting with `!` and a cell key is therefore not modelled: the source's in-place `.v` write would change it under both keys. The spreadsheet codec does not produce such sharing.
- LowByte: `& 0xFF` is written as `% 0x100`. The two agree on every code unit (0..0xFFFF).
- `String(s)` in `RegExp.escape` is the identity on strings, and strings are the only input the declared type allows.
