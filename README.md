# BLM reader in Dafny

A model of the Rightmove BLM reader in `blm/__init__.py`. The model takes
the text of a BLM file and returns the file's headers, its field names and
its records, or the first failure. A BLM file has three blocks:

- **`#HEADER#`**: `KEY : value` lines.
- **`#DEFINITION#`**: the field names, separated by the header value `EOF`.
- **`#DATA#` … `#END#`**: the records, separated by the header value `EOR`.
  The fields of a record are separated by `EOF`.

Files:

- `text.dfy` (module `Text`) models the Python string operations the reader
  uses:
  - substring search;
  - `str.split`, with a split/join round trip;
  - `str.strip`.
- `blocks.dfy` (module `Blocks`) replaces the three regular-expression
  searches with explicit searches. It proves that each search picks the
  match the regular expression engine picks:
  - the leftmost start;
  - then the shortest group for the lazy `.*?` patterns;
  - or the longest group for the greedy `.*` pattern.
- `blm.dfy` (module `Blm`) models the three parsers and `read`:
  - `parse_headers` is a method with a loop over the lines and a
    dictionary accumulator.
  - `parse_definitions` is a function, because the source has no loop
    there.
  - `parse_data` is a method with the source's two nested loops. The inner
    loop is `WriteRecord`.
  - Each method is proved equal to a specification function (`HeadersOf`,
    `DataOf`, `RowsToRecords`, `ListingOf`). The lemmas state what those
    functions mean.
- `samples.dfy` (module `Samples`) holds worked cases on concrete text.

Each Python exception becomes a variant of `Blm.Error`:

| Exception in the source | `Blm.Error` variant |
|---|---|
| `IndexError` on `parts[1]` | `MalformedHeaderLine` |
| `KeyError` on `EOF`/`EOR` | `MissingKey` |
| `ValueError` from `split('')` | `EmptySeparator` |
| `IndexError` on `data[i]` | `IndexOutOfRange` |
| the generic exceptions for a missing block | `MissingHeader`, `MissingDefinition`, `MissingData` |
| the generic exceptions for a missing argument | `HeadersNotSet`, `DefinitionsNotSet` |

Failures are checked in the order the source raises them.

## Behaviour worth knowing

- **A short row before a record row.** `parse_data` writes each record
  to `data[i]`, where `i` is the index of the ROW. So a row with at most one
  field that comes before a row with several fields makes the write go past
  the end of `data` (blm/__init__.py:99-107). A reader might expect such
  rows to be skipped; the code fails instead, and so does the model, with
  `IndexOutOfRange`:
  - `Blm.RowsToRecordsShape` proves exactly when this happens;
  - `Samples.EarlyShortRow` shows one case.

  Short rows are harmless only after the last record (`Blm.TrailingShortRow`,
  `Samples.TrailingEmptyRow`).
- **A `#` inside a delimiter.** The header and definition blocks each end
  at the first `#` after their marker (blm/__init__.py:34, 64).
  - No header key or value read from a file contains `#`
    (`Blm.HeadersHaveNoHash`). So a file can never set `EOF` or `EOR` to a
    delimiter that contains `#`.
  - A header line `EOR : '|#|'` is cut after `EOR : '|`. The header block
    ends there, so `EOR` is `|` and any header lines after it are lost
    (`Samples.HashInHeaderValue`).
  - The definition block is cut inside its final `|#|`, which leaves a
    trailing `|` piece.
  - Through `read`, that `|` equals the `EOR` of `|`, so it is dropped. A
    file whose field names are Name, Address and Price then yields those
    three names, but only because `EOR` itself is wrong
    (`Samples.HashInDelimiterWholeFile`).
  - Only when `parse_definitions` is called directly with headers in which
    `EOR` really is `|#|` does the leftover `|` stay, as a fourth field name
    (`Samples.HashInDelimiter`).
- **A missing `EOF`.** `parse_definitions` fails with "headers not set"
  only when the headers are empty (blm/__init__.py:61-62). A missing `EOF`
  is a `KeyError`, raised only after the definition block has been found
  (blm/__init__.py:69, `MissingKey("EOF")`).
- **A missing `EOR`.** In `parse_data`, the code looks up `EOR` before it
  looks up `EOF` (blm/__init__.py:97, 100).
- **An empty list of names.** The code has no separate failure for it.
  `parse_data` then fails with `DefinitionsNotSet` (blm/__init__.py:87-88).

## Model

| member | source | states |
|---|---|---|
| `Text.FindFrom` | blm/__init__.py:34 | the first occurrence at or after a position: it is an occurrence, none lies before it, and None means there is none at all |
| `Text.FindLastFrom` | blm/__init__.py:90 | the last occurrence at or after a position: none lies after it, and None means there is none |
| `Text.SplitJoin` | blm/__init__.py:69 | joining the pieces of `s.split(sep)` with `sep` gives back `s` |
| `Text.SplitFirst` | blm/__init__.py:44 | the first piece of a split is a prefix of the text with no separator starting inside it; if more pieces follow, a separator starts right after it and the rest is the split of the remaining text |
| `Text.SplitSecond` | blm/__init__.py:44 | no separator starts inside the second piece, and one starts right after it unless it is the last piece |
| `Text.SplitChars` | blm/__init__.py:40 | the pieces of a split hold only characters of the text |
| `Text.SplitPieces` | blm/__init__.py:44 | a split has one piece exactly when the separator does not occur, and no piece contains the separator |
| `Text.TrimStartSpec` | blm/__init__.py:43 | `lstrip` removes a prefix made only of white space, and what remains does not start with white space |
| `Text.TrimEndSpec` | blm/__init__.py:43 | `rstrip` removes a suffix made only of white space, and what remains does not end with white space |
| `Text.StripSpec` | blm/__init__.py:46 | `strip` returns the infix between leading and trailing white space, and the infix neither starts nor ends with white space |
| `Text.StripEmpty` | blm/__init__.py:43 | `line.strip() == ''` holds exactly when the line is all white space |
| `Blocks.LazySpan` | blm/__init__.py:34 | `<open>(.*?)<close>` matches at the leftmost `open` and the nearest `close` after it; no match means there is no `open` … `close` pair anywhere |
| `Blocks.GreedySpan` | blm/__init__.py:90 | `<open>(.*)<close>` matches at the leftmost `open` and the last `close` after it; no match means there is no pair |
| `Blocks.LazyGroup` | blm/__init__.py:64-67 | the lazy group is missing exactly when there is no match; otherwise it is the text between the end of the lazy match's opening marker and its closing `#`, and it never contains that `#` |
| `Blocks.DefinitionBlockSpan` | blm/__init__.py:64-67 | the definition block is the text from just after the first `#DEFINITION#` up to the next `#`, so it holds no `#`; it is missing exactly when no match exists |
| `Blocks.GreedyGroup` | blm/__init__.py:90-93 | the data group is missing exactly when no `#DATA#` is followed by an `#END#`; otherwise it is the text between the end of the greedy match's `#DATA#` and its `#END#` |
| `Blocks.HeaderBlockSpan` | blm/__init__.py:34-37 | the header block is the text from just after the first `#HEADER#` up to the next `#`, so it holds no `#`; it is missing exactly when no match exists |
| `Blocks.DataBlockSpan` | blm/__init__.py:90-93 | the data block runs from the first `#DATA#` to the last `#END#` after it, and no `#END#` starts later |
| `Blm.Unquote` | blm/__init__.py:45 | one leading and one trailing quote (`'` or `"`) are removed, each independently; a lone quote is removed once; other text is unchanged |
| `Blm.ParseHeaders` | blm/__init__.py:25-48 | the loop computes `HeadersOf`: MissingHeader without a header block; MalformedHeaderLine when a non-blank line has no " : "; otherwise the entries of the lines, applied in order |
| `Blm.EntriesStep` | blm/__init__.py:42-46 | one loop step adds the entry of line `i`, if it has one, to the dictionary of the earlier lines |
| `Blm.EntryLayout` | blm/__init__.py:44-46 | a header line is key, " : ", value, then nothing or " : " and discarded text; the key ends at the first " : " of the line and the value at the second, since no " : " starts inside either; the entry is the stripped key and the stripped, unquoted value |
| `Blm.EntriesKeys` | blm/__init__.py:42-46 | a key is in the headers exactly when some non-blank line with a " : " has that key |
| `Blm.EntriesLastWins` | blm/__init__.py:46 | of several lines with the same key, the last one sets the value |
| `Blm.EntriesOverwrite` | blm/__init__.py:46 | a later entry adds or overwrites its key and leaves every other key's value unchanged |
| `Blm.HeaderLinesSkipBlank` | blm/__init__.py:43 | inserting a blank or white-space-only line anywhere among the header lines changes neither the headers nor the failure |
| `Blm.EntriesSkipBlank` | blm/__init__.py:43 | a blank line adds no entry wherever it stands |
| `Blm.EntriesChars` | blm/__init__.py:42-46 | a character that no header line holds appears in no key and no value |
| `Blm.HeadersHaveNoHash` | blm/__init__.py:34-46 | no header key or value read from a file contains `#`, because the header block ends at the first `#` |
| `Blm.ParseDefinitions` | blm/__init__.py:51-74 | checks in order: HeadersNotSet for empty headers, MissingDefinition, a missing `EOF`, an empty `EOF`, a missing `EOR`; it succeeds exactly when none of these applies; on success the names are the stripped `EOF` pieces of the block in order, one fewer exactly when the last stripped piece equals `EOR` |
| `Blm.ZipContents` | blm/__init__.py:105-107 | setting `names[k]` to `values[k]` in turn gives a dictionary whose keys are the names, where a repeated name keeps its last value |
| `Blm.RecordContents` | blm/__init__.py:105-107 | for any list of fields, the record's keys are the names at the first min(fields, names) positions; a name holds the field at its last position among those; fields past the names are dropped, and names past the fields are absent (the fields are stripped by `Fields`, line 100) |
| `Blm.DataNeedsDefinitionsAndBlock` | blm/__init__.py:87-93 | `parse_data` fails with DefinitionsNotSet on an empty list of names, and with MissingData when no `#DATA#` is followed by `#END#`; success implies both are present |
| `Blm.ParseData` | blm/__init__.py:77-109 | computes `DataOf`: the errors in source order (no names, no data block, `EOR` missing or empty, `EOF` missing or empty), then the records of the stripped `EOR`-separated rows |
| `Blm.ParseRows` | blm/__init__.py:95-109 | the nested row and field loops compute `RowsToRecords`, and fail with IndexOutOfRange where the source indexes past the end of `data` |
| `Blm.WriteRecord` | blm/__init__.py:105-107 | the field loop sets `data[i]` to the record of the row when `i` is within `data`, and otherwise fails on its first write |
| `Blm.RowsToRecordsShape` | blm/__init__.py:97-107 | reading the rows fails exactly when a row with at most one field precedes a row with more; otherwise the record rows are exactly the first `len(data)` rows, and record j is made from row j |
| `Blm.ShortRowBeforeRecordRow` | blm/__init__.py:107 | when a record row at index `i` comes after fewer than `i` records, some row before it is short, and a short row precedes a record row |
| `Blm.KindsStep` | blm/__init__.py:99-103 | each row keeps the loop's invariant: no short row before a record row, and `len(data)` equals the number of record rows so far |
| `Blm.TrueLead` | blm/__init__.py:99-107 | when no short row precedes a record row, a row is a record row exactly when its index is below the number of record rows |
| `Blm.TrailingShortRow` | blm/__init__.py:102 | a row with at most one field at the end (such as the empty piece after a final `EOR`) changes nothing |
| `Blm.Read` | blm/__init__.py:18-22 | computes `ListingOf`: headers, then definitions, then data, stopping at the first failure |
| `Blm.ListingWellFormed` | blm/__init__.py:18-22 | a successful read has non-empty `EOF` and `EOR` headers and at least one field name, and every key of every record is a field name |
| `Blm.ListingNeedsHeader` | blm/__init__.py:34-37 | text without `#HEADER#` fails with MissingHeader before anything else is read |
| `Samples.QuotedHeaderLine` | blm/__init__.py:44-46 | the header line for `EOR` whose value is a three-character delimiter in single quotes gives the key `EOR` and the delimiter without its quotes |
| `Samples.RaggedRow` | blm/__init__.py:105-107 | names A, B, C and a row with the two fields x and y give the record {A: x, B: y}, with no key C |
| `Samples.EarlyShortRow` | blm/__init__.py:99-107 | an empty row before a two-field row makes the row loop (`RowsToRecords`) fail with IndexOutOfRange |
| `Samples.TrailingEmptyRow` | blm/__init__.py:97-103 | a two-field row followed by an empty last row gives exactly one record |
| `Samples.HashInDelimiter` | blm/__init__.py:64-72 | given headers whose `EOR` contains `#`, the definition block is cut at that `#`, and the stray character before it becomes a fourth field name after Name, Address and Price |
| `Samples.HashInHeaderValue` | blm/__init__.py:34-46 | any file that begins with `#HEADER#`, a newline, `EOF : '|*|'`, a newline and `EOR : '|#` has its header block cut at that `#`, giving exactly `EOF` = `|*|` and `EOR` = `|`, whatever follows |
| `Samples.CutEorNames` | blm/__init__.py:64-72 | with `EOR` = `|`, a definition block cut inside its final `|#|` gives exactly Name, Address and Price, because the leftover `|` equals `EOR` |
| `Samples.HashInDelimiterWholeFile` | blm/__init__.py:18-20 | for a whole file declaring `EOR : '|#|'`, the headers `read` gets have `EOR` = `|`, and the definitions it then gets are the three names |

## Left out

- **File access.** The existence check and file read in `read`
  (blm/__init__.py:14-17) are left out. `Read` takes the file's text, so
  `InputNotFound` is not modelled.
- **The regular-expression engine and its flags.** Each search is a
  substring search proved to choose the same match as the lazy or greedy
  pattern. `.` matching newlines is implicit, since the searches ignore
  lines.
- **Other white space.** `strip` removes only the six ASCII white-space
  characters. Python also strips U+001C to U+001F, U+0085 and the Unicode
  space characters (for example U+00A0 and U+2028).
- **Exception types and messages.** They are replaced by the `Blm.Error`
  variants.
- **Dictionary insertion order.** Headers and records are Dafny maps, which
  are unordered. Python dicts keep insertion order, so the model does not
  capture the order of header keys or record keys.
- **`del definitions[-1]` on an empty list.** It cannot happen, because
  a split always has at least one piece.
