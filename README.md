# Library catalog: CSV ingestion, filter and HTML escaping

This project is a Dafny model of the logic of `library.js`, a small browser
catalog. The page loads a CSV file of books and links, keeps the records and the
set of categories in two globals, filters the records by category and free-text
search, and escapes every field before writing it into the page.

The model has five modules:

- `Text`: the JavaScript string built-ins the code relies on.
  - `trim` removes the ECMAScript WhiteSpace and LineTerminator characters.
  - `toLowerCase` is modelled on ASCII only.
  - `split` on one character, with `Join` as its inverse.
  - `includes`.
  - The default order of `Array.prototype.sort`, as a lexicographic order.
  - The sort of the category set, as a recursive insertion into a strictly
    ascending sequence.
- `Csv`: what `parseCsvData` computes.
  - Header resolution: a naive split, trim and lower-case, then `indexOf`.
  - The per-line quote state machine, as the reference function `RawFields` and
    as the loop `ScanRow`.
  - The padding loop `PadValues`, and the record built from a line.
  - `Parse`, the value-level result: the records, or the header error.
- `Catalog`: the globals `allLibraryData` and `uniqueCategories` as fields of the
  class `LibraryStore`.
  - `ParseCsvData` is the imperative `parseCsvData`.
  - `MapRows` is the `map` over the data lines. It adds each category as its line
    is read.
  - The JavaScript `Set` is an insertion-ordered sequence without duplicates.
    `Collect` specifies its contents after a sequence of `add` calls.
- `Search`: the predicate and `.filter` of `filterAndSearch`.
- `Html`: `escapeHtml`, with a decoder for the five entities. The decoder
  states the round trip.

Behaviour kept as the code has it:

- The thrown `Error` is the outcome `Failed(MissingRequiredHeaders)`. It does not
  say which names are missing: the code logs a fixed message naming all four
  required headers.
- The header line is split on every comma, so quotes in the header are not
  honoured.
- `uniqueCategories` is never cleared, so categories from an earlier load stay in
  the set.
- A header failure happens before any assignment, so the store keeps its previous
  state.
- A quote in the middle of an unquoted field switches to the quoted state
  instead of being kept.

## Model

| member | source | states |
|---|---|---|
| Text.Trim | library.js:43-44 | `trim`: the leading and then the trailing ECMAScript WhiteSpace and LineTerminator characters are dropped |
| Text.TrimProperties | library.js:43-44 | `trim` leaves no whitespace at either end and cuts only whitespace, so the result is a contiguous slice of the input |
| Text.TrimIdempotent | library.js:151 | trimming twice equals trimming once |
| Text.TrimAllWhitespace | library.js:151 | a string of whitespace only trims to the empty string |
| Text.Lower | library.js:44 | `toLowerCase`, character by character: `A` to `Z` become `a` to `z`, every other character is kept |
| Text.LowerProperties | library.js:151 | lower-casing keeps the length, leaves no upper-case letter and is idempotent |
| Text.Split | library.js:43 | `split` gives at least one piece, and no piece contains the separator |
| Text.SplitCount | library.js:43 | `split` gives one more piece than the input has separators |
| Text.JoinSplit | library.js:43 | joining the pieces of a split with the separator gives back the input |
| Text.SplitJoin | library.js:43 | splitting a join of separator-free pieces gives back exactly those pieces |
| Text.Includes | library.js:160-162 | `includes` holds exactly when the term occurs at some position of the text |
| Text.IncludesEmpty | library.js:159-162 | the empty term occurs in every text |
| Text.Less | library.js:101 | the default order of `sort` on strings: compare the first differing character, and a proper prefix comes first |
| Text.LessIrreflexive | library.js:101 | the sort order is irreflexive |
| Text.LessTransitive | library.js:101 | the sort order is transitive |
| Text.LessTotal | library.js:101 | any two different strings are ordered one way or the other |
| Text.SortDistinct | library.js:101 | sorting distinct strings gives a strictly ascending sequence with the same elements and the same length |
| Text.SortedUnique | library.js:101 | two strictly ascending sequences with the same elements are equal, so the sorted set is determined by its contents |
| Csv.Lines | library.js:43 | `csvText.trim().split('\n')`: the whole input is trimmed once, then split on every newline |
| Csv.HeaderNames | library.js:44 | the first line split on every comma, each name trimmed and then lower-cased |
| Csv.IndexOf | library.js:47-50 | `indexOf` is -1 exactly when the name is absent, and otherwise is its first position |
| Csv.ResolveHeader | library.js:44-56 | the header resolves exactly when all four names occur after trim and lower-casing, and each column is the first position of its name |
| Csv.MaxIndex | library.js:85 | `Math.max` of the four column positions |
| Csv.RawFields | library.js:62-82 | the state machine always emits at least one field, also after an unterminated quote |
| Csv.ScanRow | library.js:62-82 | the character loop, with its skip over a doubled quote, computes the reference scan of the line |
| Csv.ScanFields | library.js:62-82 | the fields of a data line: the quote state machine from the unquoted state with an empty field, each emitted field trimmed |
| Csv.ScanFieldsTrimmed | library.js:76-82 | a scanned row is never empty, and no field has whitespace at either end |
| Csv.PlainRun | library.js:78-80 | characters that are not a quote, and outside quotes not a comma, are appended to the current field unchanged |
| Csv.QuotedComma | library.js:75-80 | inside quotes a comma is kept in the field |
| Csv.DoubledQuote | library.js:68-71 | inside quotes `""` appends one quote and consumes both characters |
| Csv.LoneQuoteCloses | library.js:67-74 | inside quotes a quote that is not doubled closes the quotes and is dropped, whatever follows, so `"ab"cd` reads as `abcd` |
| Csv.UnquotedComma | library.js:75-77 | outside quotes a comma ends the field and starts an empty one |
| Csv.QuoteInsideUnquotedField | library.js:67-74 | a quote in the middle of an unquoted field toggles the state and is not kept |
| Csv.UnterminatedQuote | library.js:65-82 | after an unterminated quote the rest of the line, commas included, is the last field |
| Csv.QuotedRoundTrip | library.js:62-82 | fields written in quotes with doubled quotes and joined by commas scan back to exactly those fields before trimming |
| Csv.PlainRoundTrip | library.js:62-82 | fields without quotes or commas, joined by commas, scan back to exactly those fields before trimming |
| Csv.QuotedRowScan | library.js:62-82 | a row of quoted fields reads back as the trimmed fields |
| Csv.CommaInQuotes | library.js:67-82 | `"a,b"`-shaped fields keep their comma |
| Csv.QuotedCommaExample | library.js:67-82 | the line `"a,b"` reads as the single field `a,b` |
| Csv.EmbeddedQuotes | library.js:67-82 | doubled quotes inside a quoted field read back as single quotes |
| Csv.EscapedQuoteExample | library.js:67-82 | the line `"He said ""hi"""` reads as `He said "hi"` |
| Csv.Padded | library.js:85-87 | a row that already reaches past the largest column is kept; a shorter one gets `''` appended until it does |
| Csv.PadValues | library.js:85-87 | the padding loop computes the padded row |
| Csv.PaddedProperties | library.js:85-87 | the padded row reaches past the largest column, keeps the scanned fields as an unchanged prefix, and adds only empty strings |
| Csv.ToRecord | library.js:84-97 | the record of a data line: the padded row read at the title, category, description and url positions |
| Csv.RowsToRecords | library.js:59-98 | `lines.slice(1).map(...)`: one record per data line, in line order |
| Csv.Parse | library.js:40-98 | the value `parseCsvData` computes: the header error when the first line does not resolve, otherwise the records of the lines after it |
| Csv.RecordFields | library.js:89-97 | each record field is the scanned value at its column, or empty when the row is too short |
| Csv.ParseFailsIffHeaderIncomplete | library.js:44-56 | parsing fails exactly when one of the four names is missing from the header |
| Csv.ParseRecordsInLineOrder | library.js:43-98 | on success there is one record per line after the header, in line order, built from that line |
| Csv.EmptyInputFails | library.js:43-56 | the empty input fails, because its only header name is the empty string |
| Csv.HeaderOnlyGivesNoRecords | library.js:43-59 | a resolvable header line alone gives zero records |
| Csv.EmptyLineGivesEmptyRecord | library.js:62-97 | an empty data line still gives a record, with all four fields empty |
| Catalog.ParseRow | library.js:62-97 | the callback of the `map` builds the record of its line |
| Catalog.CategoriesOfMembers | library.js:89-90 | a category is collected exactly when some record carries it |
| Catalog.WithCategory | library.js:90 | `uniqueCategories.add(category)`: the category is appended when it is not yet present, and otherwise nothing changes |
| Catalog.Collect | library.js:89-90 | the set after one `add` per record, in record order |
| Catalog.WithCategoryProperties | library.js:90 | `add` keeps the set free of duplicates and adds exactly the new category |
| Catalog.CollectProperties | library.js:89-90 | after the `map` the set is free of duplicates and holds the old categories plus those of the records, and nothing else |
| Catalog.LibraryStore.constructor | library.js:11-12 | the page starts with no records and an empty category set |
| Catalog.LibraryStore.AddCategory | library.js:90 | `uniqueCategories.add` appends the category unless it is already present |
| Catalog.LibraryStore.MapRows | library.js:59-98 | the records are those of the data lines, in order, and the category set has gained each record's category in line order |
| Catalog.LibraryStore.ParseCsvData | library.js:40-102 | fails exactly on a header error and then leaves both globals untouched; otherwise the records are the parsed ones, and the categories are the old ones plus the new ones, without duplicates and sorted ascending |
| Catalog.CollectRepeated | library.js:89-90 | records with categories `a`, `b`, `a` collect into a duplicate-free set holding exactly `a` and `b` |
| Catalog.SortedPairExample | library.js:101 | a strictly ascending sequence holding exactly `Sci-Fi` and `History` is `History`, `Sci-Fi` |
| Catalog.CategoryIndexExample | library.js:89-101 | a first load of records with categories `Sci-Fi`, `History`, `Sci-Fi` leaves the sorted category set as exactly `History`, `Sci-Fi` |
| Search.CategoryMatch | library.js:156 | the category condition: `all` is selected, or the record's category equals the selection exactly |
| Search.SearchMatch | library.js:159-162 | the search condition: the term is empty, or it occurs in the lower-cased title, description or category |
| Search.Matches | library.js:154-165 | the callback of `.filter`: both the category and the search condition hold |
| Search.NormalizeSearch | library.js:151 | the search input lower-cased and then trimmed |
| Search.FilterRecords | library.js:154-165 | `.filter` with the normalised term: the matching records, in their original order |
| Search.FilterAndSearch | library.js:150-165 | what `filterAndSearch` hands to `displayItems`: the filter applied with the normalised search input and the selected category |
| Search.FilterIsSubsequence | library.js:154-165 | the filter returns a subsequence of the data in its original order |
| Search.FilterCounts | library.js:154-165 | every occurrence of a matching record is kept, and no occurrence of a record that does not match |
| Search.FilterMembership | library.js:154-165 | a record is in the result exactly when it is in the data and both the category and the search condition hold |
| Search.FilterKeepsAll | library.js:154-165 | when every record matches, the data comes back unchanged |
| Search.ShowAllWhenBlank | library.js:151-165 | with `all` selected and a search box holding only whitespace, every record is returned, in order |
| Search.CategoryOnly | library.js:156 | with an empty search, exactly the records of the selected category are kept |
| Search.SearchIgnoresCase | library.js:151 | only the lower-cased search input matters |
| Search.TitleMatch | library.js:159-160 | a record whose lower-cased title contains the normalised term is found |
| Search.DuneExample | library.js:159-160 | the title `Dune` is found by the search `dune` |
| Html.ReplaceAll | library.js:178-182 | `s.replace(/c/g, r)`: every occurrence of the character `c` becomes `r`, left to right, and the replacements are not rescanned |
| Html.Chain | library.js:177-182 | the five global replacements `&`, `<`, `>`, `"`, `'`, in that order |
| Html.EscapeHtml | library.js:175-183 | `escapeHtml`: `''` for the empty string, otherwise the five replacements of `Chain` |
| Html.ReplaceAllAbsent | library.js:178-182 | replacing a character that does not occur changes nothing |
| Html.ReplaceAllKeepsOut | library.js:178-182 | a replacement stage introduces no character its replacement lacks |
| Html.EscapeHtmlSafe | library.js:175-183 | the empty input gives `''`, and the output contains none of `<`, `>`, `"`, `'` |
| Html.ChainChar | library.js:177-182 | on one character the chain gives that character's entity, because `&` is replaced first |
| Html.ChainIsEscapeChars | library.js:177-182 | the chain of five global replacements equals escaping character by character |
| Html.UnescapeChar | library.js:177-182 | decoding an escaped character gives that character back, whatever follows |
| Html.EscapeRoundTrip | library.js:175-183 | decoding the five entities of the escaped text gives back the original |
| Html.EscapePlainText | library.js:175-183 | text without the five special characters is left as it is |

## Left out

- `initializeLibrary` is left out. Its `fetch`, HTTP status check and error message in the page are network and DOM I/O.
- `populateCategoryFilter` and `displayItems` are left out. They build DOM elements with `innerHTML`.
- The event listeners, the `DOMContentLoaded` hook and the `console.error` logging are left out.
- The thrown exception is not modelled as control flow. `ParseCsvData` returns `Failed` instead, and the state is as it was when the throw happened.
- Text.Lower: lower-cases ASCII letters only. The JavaScript `toLowerCase` follows the full Unicode case mapping, which is not modelled.
- Strings are sequences of Unicode scalar values, while a JavaScript string is a sequence of UTF-16 code units and may hold a lone surrogate. Lone surrogates are not modelled. For well-formed text, trimming, splitting, the quote scan and `includes` give the same results as on code units, because the quote, the comma and every trimmed whitespace character lie in the Basic Multilingual Plane and are not surrogates.
- Text.Less: compares Dafny characters, which are Unicode scalar values. The JavaScript `sort` compares UTF-16 code units, and the two orders differ only for characters outside the Basic Multilingual Plane.
- Html.EscapeHtmlSafe: the guard for `null` and `undefined` is not modelled, because a Dafny `string` is always a string. The guard's effect on the empty string is modelled.
- Catalog.LibraryStore.ParseCsvData: states the new category set by its properties: the elements, no duplicates, and ascending order. It does not state the value as an expression. `Text.SortedUnique` shows that these properties determine the sequence.
