# PDF page operations, modelled in Dafny

The toolkit is a small PDF utility. Its page operations take documents from
disk, copy selected pages into a fresh writer and save the writer under a new
name. They are:

- **extract**: keep the pages named by a list of range tokens;
- **delete**: keep every page *not* named by a list of range tokens;
- **merge**: concatenate several documents;
- **split**: cut a document into numbered parts of a fixed size;
- **compress**: build a Ghostscript command line for one of five quality
  levels.

The user types page ranges as one string such as `"1-5, 8-10"`. That string
is cut at commas and each piece is stripped to give a token. A token is
`<start>-<end>`: 1-indexed and inclusive, each side read by Python's `int()`.
Each operation catches its own exceptions and reports them. So an operation
either produces the pages it would write or names the error it caught, and on
an error nothing is written.

The model works on values:

- a document is the sequence of its pages (`PageSelection.Page` is opaque);
- the filesystem is a map from path to document;
- a writer is the sequence of pages added to it so far.

Each operation is a method that runs the toolkit's own loops. It is proved
equal to a specification function (`ExtractResult`, `DeleteResult`, `Merged`,
`SplitResult`, `GsCommand`). The properties the toolkit relies on are then
proved about those functions as lemmas.

The Python library behaviour the operations depend on is modelled in `PyText`:

- `str.split` (an empty string gives `[""]`);
- `str.strip` over Python's whitespace set (`str.isspace`), and `str.strip(chars)` over any set;
- `int()` on ASCII digits with an optional `+`, ignoring the whitespace `int()` itself skips: every `str.isspace` character except the four separators U+001C..U+001F, which `int()` rejects;
- `str()` of a natural number;
- negative list indexing;
- floor division.

Modules:

| file | module | contents |
|---|---|---|
| outcomes.dfy | `Outcomes` | the errors the operations catch; `Result`, `Option` |
| python_text.dfy | `PyText` | `split`, `strip`, `int()`, `str()` |
| page_ranges.dfy | `PageRanges` | `parse_page_ranges` and range-token parsing |
| page_selection.dfy | `PageSelection` | what extract, delete, merge and split produce, and their properties |
| pdf_operations.dfy | `PdfOperations` | the four page operations as methods with their loops |
| compress.dfy | `Compress` | quality-level fallback and the Ghostscript command |

## Model

| member | source | states |
|---|---|---|
| `Compress.EffectiveLevel` | utils/pdf_operations.py:19-28 | a level outside the quality map's keys 1..5 falls back to 3; a level inside is kept; the result is always a key of the map |
| `Compress.Preset` | utils/pdf_operations.py:19-29 | levels 1, 2, 3, 4, 5 select /prepress, /printer, /ebook, /screen, /ebook; any other level selects /ebook |
| `Compress.GsCommand` | utils/pdf_operations.py:34-55 | the command has 17 arguments at level 5 and 10 otherwise; it starts with `gs`, ends with the output-file option and then the input path, and carries the chosen preset seventh from the end |
| `Compress.BuildCommand` | utils/pdf_operations.py:26-55 | building the list after the fallback, then splicing the seven downsampling options at index 3 when the level is 5, gives exactly `GsCommand` |
| `Compress.CompressPdf` | utils/pdf_operations.py:30-55 | a missing input gives FileNotFound; otherwise the result is the Ghostscript command for the requested level |
| `Compress.DownsampleOnlyAdds` | utils/pdf_operations.py:46-55 | the level-5 command is the level-3 command with the seven downsampling options inserted after its first three arguments, and nothing else differs |
| `Compress.InvalidLevelIsDefault` | utils/pdf_operations.py:26-28 | any level outside 1..5 builds the same command as level 3 |
| `PageRanges.ParsePageRanges` | utils/pdf_operations.py:197-203 | there is one token per comma in the input, plus one |
| `PageRanges.ParsePageRangesPieces` | utils/pdf_operations.py:203 | the comma-separated pieces rejoin to the input, and each token is its piece less surrounding whitespace only |
| `PageRanges.ParsePageRangesTokens` | utils/pdf_operations.py:203 | no token has whitespace at either end, and no token contains a comma |
| `PageRanges.ParsePageRangesOfJoin` | utils/pdf_operations.py:197-203 | parsing the comma-join of trimmed, comma-free tokens gives those tokens back |
| `PageRanges.ParseRange` | utils/pdf_operations.py:89 | a token that does not unpack into two integers is rejected with an error naming that token |
| `PageRanges.ParseRangeOneDash` | utils/pdf_operations.py:89 | a token without exactly one dash is rejected, because the split does not give two values |
| `PageRanges.ParseFormatRange` | utils/pdf_operations.py:89 | formatting a range as `<start>-<end>` and parsing it gives that range back, when both numbers have at most 4300 digits |
| `PageRanges.ParseRangeTooLong` | utils/pdf_operations.py:89 | a token `1-D` whose D is a run of more than 4300 digits is rejected with an error naming the token, although `1` is a valid start |
| `PageRanges.ParseRangeSeparator` | utils/pdf_operations.py:89 | `1<c>-5` with c one of U+001C..U+001F is rejected with an error naming the token: `parse_page_ranges` leaves c inside the token and `int()` does not skip it |
| `PageRanges.ParseRangeHalfOpen` | utils/pdf_operations.py:89 | `-N` and `N-` are rejected, because `int('')` fails |
| `PageRanges.ParseRanges` | utils/pdf_operations.py:85-89 | every token of the list is read as a range: on success there is one range per token; on failure the error is `BadRangeToken` of one of the tokens |
| `PageRanges.ParseEach` | utils/pdf_operations.py:85 | parsing a token list either fails or gives one value per token |
| `PageRanges.ParseEachOk` | utils/pdf_operations.py:85 | parsing the list succeeds if and only if every token parses, and then value i is token i's value |
| `PageRanges.ParseEachAll` | utils/pdf_operations.py:85 | when every token parses to its value, the list parses to the list of those values |
| `PageRanges.ParseEachFirstError` | utils/pdf_operations.py:85 | when the list fails, it reports the error of the first bad token |
| `PageRanges.ParseEachError` | utils/pdf_operations.py:85 | a failed list reports the error of one of its own tokens |
| `PageRanges.FormatRangeClean` | utils/pdf_operations.py:203 | a formatted range has no surrounding whitespace and no comma |
| `PageRanges.ParseFormattedRanges` | utils/pdf_operations.py:85-89 | parsing the formatted tokens of a list of ranges gives that list back, when no number has more than 4300 digits |
| `PageRanges.ParseTypedRanges` | utils/pdf_operations.py:85-89 | typing ranges as one comma-separated string, then running `parse_page_ranges` and the token parser, gives the ranges back, when no number has more than 4300 digits |
| `PageSelection.PyIndex` | utils/pdf_operations.py:92 | `reader.pages[i]` with Python's negative indexing always names a page of the document |
| `PageSelection.Picks` | utils/pdf_operations.py:90-95 | the pages the inner loop adds for `range(lo, hi)`, skipping indices past the end; an empty document gives none |
| `PageSelection.Extracted` | utils/pdf_operations.py:88-95 | the ranges' pages, range after range; an empty document extracts nothing |
| `PageSelection.ExtractResult` | utils/pdf_operations.py:82-101 | a missing input gives FileNotFound; success needs every token to parse; the only errors are FileNotFound, a bad token, or IndexError at index -1 |
| `PageSelection.PicksSlice` | utils/pdf_operations.py:90-95 | from a non-negative start, a range copies the contiguous pages it covers in order, with indices past the end skipped |
| `PageSelection.PicksFromZero` | utils/pdf_operations.py:90-92 | a range starting at page 0 first copies the last page (Python index -1), then the range from page 1 |
| `PageSelection.ExtractedAppend` | utils/pdf_operations.py:88-95 | the pages extracted for a concatenation of range lists are the two extractions one after the other |
| `PageSelection.ExtractOneRange` | utils/pdf_operations.py:88-95 | one range with start at least 1 gives the slice from `start - 1` to `end`, both capped at the document length |
| `PageSelection.ExtractWholeDocument` | utils/pdf_operations.py:88-95 | the range `1-<page count>` extracts the whole document |
| `PageSelection.ExtractFromZero` | utils/pdf_operations.py:88-95 | on a non-empty document the range `0-<end>` gives the last page, then pages 1..end |
| `PageSelection.Interval` | utils/pdf_operations.py:147 | the set holds exactly the integers of `range(lo, hi)` |
| `PageSelection.RangeIndices` | utils/pdf_operations.py:147 | a token's indices are exactly the integers of `range(start - 1, end)` |
| `PageSelection.Excluded` | utils/pdf_operations.py:144-147 | the excluded set is the union of every token's indices, none of them below -1 |
| `PageSelection.Kept` | utils/pdf_operations.py:151-154 | the pages whose index is not excluded, in order; never more pages than were scanned |
| `PageSelection.DeleteResult` | utils/pdf_operations.py:140-160 | success exactly when the input exists and every token parses, and then the result is no longer than the input; otherwise FileNotFound or a bad token |
| `PageSelection.ExcludedCovers` | utils/pdf_operations.py:144-147 | an index is excluded if and only if some range token covers it |
| `PageSelection.ExcludedBySet` | utils/pdf_operations.py:144-147 | the excluded set depends only on which ranges occur, not on their order or repetition |
| `PageSelection.KeptIgnoresOutside` | utils/pdf_operations.py:151-154 | excluded indices outside the document, such as -1 or past the end, change nothing |
| `PageSelection.KeptIsComplement` | utils/pdf_operations.py:151-154 | the kept pages are exactly the non-excluded indices in increasing order, each mapped to its page |
| `PageSelection.DeleteOneRange` | utils/pdf_operations.py:144-154 | deleting `a-b` keeps the pages before `a - 1` and those from `b` on |
| `PageSelection.ExtractComplement` | utils/pdf_operations.py:88-95 | extracting `1-(a-1)` and `(b+1)-<page count>` gives the pages before and after `a-b` |
| `PageSelection.DeleteIsExtractOfRest` | utils/pdf_operations.py:133-160 | deleting `a-b` gives the same pages as extracting its complement |
| `PageSelection.Merged` | utils/pdf_operations.py:118-125 | every existing input contributes its pages, so the merge is at least as long as each existing input |
| `PageSelection.MergedAppend` | utils/pdf_operations.py:118-125 | merging a concatenation of file lists is merging each list, one after the other |
| `PageSelection.MergedSkipsMissing` | utils/pdf_operations.py:119-121 | a file that does not exist contributes nothing to the merge |
| `PageSelection.MergedTwo` | utils/pdf_operations.py:118-125 | merging two existing files gives the first file's pages followed by the second's |
| `PageSelection.FloorDiv` | utils/pdf_operations.py:171 | the quotient is Python's `//`: it rounds toward negative infinity for either sign of the divisor |
| `PageSelection.PartCount` | utils/pdf_operations.py:171 | `num_parts` is never negative for a positive part size |
| `PageSelection.PartPages` | utils/pdf_operations.py:180-184 | a part holds at most k pages, and none when k is not positive |
| `PageSelection.PartName` | utils/pdf_operations.py:187 | a part's file name starts with the base name and ends in `.pdf`, and is at least ten characters longer than the base name |
| `PageSelection.PartNameNumber` | utils/pdf_operations.py:187 | between the base name and `.pdf` a part's name holds `_part` and then only digits, which read back as the part number |
| `PageSelection.Parts` | utils/pdf_operations.py:179-187 | exactly `count` parts are produced |
| `PageSelection.SplitResult` | utils/pdf_operations.py:168-195 | success exactly when the input exists and the part size is not 0; otherwise FileNotFound, checked before ZeroDivisionError |
| `PageSelection.PartsAt` | utils/pdf_operations.py:179-187 | part p is named `<base>_part<p+1>.pdf` and holds `range(p*k, min((p+1)*k, total))` |
| `PageSelection.PartCountIsCeiling` | utils/pdf_operations.py:171 | for a positive part size k, the part count is the ceiling of total over k: it is at least 0, count*k reaches total, and count*k stays below total + k |
| `PageSelection.JoinedParts` | utils/pdf_operations.py:179-185 | the first `count` parts, concatenated, are the first `min(count*k, total)` pages |
| `PageSelection.SplitCoversDocument` | utils/pdf_operations.py:171-185 | with a positive part size, the parts concatenated are the whole document: every page appears once, in order |
| `PageSelection.SplitPartSizes` | utils/pdf_operations.py:179-185 | every part is a contiguous, non-empty slice of at most k pages, and every part before the last has exactly k pages |
| `PageSelection.PartNamesDistinct` | utils/pdf_operations.py:187 | different part numbers give different file names, so no part overwrites another |
| `PageSelection.SplitNegativeEmpty` | utils/pdf_operations.py:180-184 | a negative part size makes every part empty |
| `PdfOperations.ExtractPages` | utils/pdf_operations.py:75-101 | the result is `ExtractResult`: FileNotFound, the first bad token, or IndexError for a 0-start range on an empty document; otherwise the extracted pages, which alone are written to the output path |
| `PdfOperations.CopyRanges` | utils/pdf_operations.py:88-95 | the loop over ranges builds `Extracted`, or fails with IndexError at index -1 when a range starts at 0 on an empty document |
| `PdfOperations.CopyRange` | utils/pdf_operations.py:90-95 | the inner page loop appends the pages of one range to the writer, skipping indices past the end |
| `PdfOperations.MergePdfs` | utils/pdf_operations.py:103-131 | the output is written with the pages of every existing input, in order, and missing inputs are skipped |
| `PdfOperations.DeletePages` | utils/pdf_operations.py:133-160 | the result is `DeleteResult`: FileNotFound, the first bad token, or the pages outside every range, which alone are written to the output path |
| `PdfOperations.CollectExcluded` | utils/pdf_operations.py:144-147 | the token loop builds `Excluded` of the parsed ranges, or stops at the first bad token with its error |
| `PdfOperations.KeepPages` | utils/pdf_operations.py:151-154 | the page loop keeps, in order, exactly the pages whose index is not excluded |
| `PdfOperations.SplitPdf` | utils/pdf_operations.py:162-195 | the result is `SplitResult`: FileNotFound, ZeroDivisionError for a part size of 0, or `max(num_parts, 0)` named parts |
| `PdfOperations.CopyPart` | utils/pdf_operations.py:180-185 | one part's page loop copies exactly `PartPages`, the pages of `range(p*k, min((p+1)*k, total))` |
| `PyText.Split` | utils/pdf_operations.py:203 | `str.split` always gives at least one piece |
| `PyText.SplitCount` | utils/pdf_operations.py:203 | there is one more piece than separators, and no piece holds the separator |
| `PyText.JoinSplit` | utils/pdf_operations.py:203 | joining the pieces with the separator gives the string back |
| `PyText.SplitWithout` | utils/pdf_operations.py:203 | a string without the separator splits into itself alone |
| `PyText.SplitAt` | utils/pdf_operations.py:203 | splitting at the first separator gives the part before it, then the split of the rest |
| `PyText.SplitJoin` | utils/pdf_operations.py:203 | splitting a join of separator-free pieces gives those pieces back |
| `PyText.LeadingSpaceSpan` | utils/pdf_operations.py:203 | the prefix `lstrip(chars)` removes is all in the set, and is followed by a character outside it or the end of the string |
| `PyText.TrailingSpaceSpan` | utils/pdf_operations.py:203 | the suffix `rstrip(chars)` removes is all in the set, and is preceded by a character outside it or the start of the string |
| `PyText.StripChars` | utils/pdf_operations.py:203 | `str.strip(chars)` removes characters and never adds any, so the result is no longer than its input |
| `PyText.Strip` | utils/pdf_operations.py:203 | `str.strip()` is `strip(chars)` over the `str.isspace` set; it removes characters and never adds any, so the result is no longer than its input |
| `PyText.StripIsTrimmed` | utils/pdf_operations.py:203 | the result of `strip(chars)` has no character of the set at either end |
| `PyText.StripWithin` | utils/pdf_operations.py:203 | stripping, over any set, adds no character |
| `PyText.StripPadded` | utils/pdf_operations.py:203 | `strip(chars)` of a core with no character of the set at its ends, padded on both sides with characters of the set, gives that core |
| `PyText.StripMargins` | utils/pdf_operations.py:203 | every string is whitespace, then its stripped form, then whitespace |
| `PyText.StripSurrounded` | utils/pdf_operations.py:203 | a string surrounds its stripped form with whitespace only |
| `PyText.StripTrimmed` | utils/pdf_operations.py:203 | `strip(chars)` of a string with no character of the set at either end changes nothing |
| `PyText.NatToString` | utils/pdf_operations.py:187 | `str(n)` is non-empty, all digits, has no leading zero unless n is 0, and its digits read back as n |
| `PyText.ParseInt` | utils/pdf_operations.py:89 | `int()` accepts a string only if, once stripped of the whitespace `int()` skips (which leaves U+001C..U+001F in place), it is not empty, ends in a digit and has at most 4300 digits after an optional `+` |
| `PyText.ParseIntOfNatToString` | utils/pdf_operations.py:89 | `int(str(n)) == n` for every n whose numeral has at most 4300 digits |
| `PyText.ParseIntTooLong` | utils/pdf_operations.py:89 | `int()` rejects a numeral of more than 4300 digits, Python's default conversion limit |
| `PyText.ParseIntBlank` | utils/pdf_operations.py:89 | `int()` of an empty string, or of one made only of `str.isspace` characters, fails |
| `PyText.ParseIntSeparator` | utils/pdf_operations.py:89 | a numeral followed by one of U+001C..U+001F is a numeral to `strip()` but a ValueError to `int()` |
| `PyText.NatToStringInjective` | utils/pdf_operations.py:187 | different numbers have different decimal forms |

## Left out

- PDF parsing and writing (PyPDF2's `PdfReader` and `PdfWriter`). A document is its page sequence. Corrupt files and write failures are not modelled.
- Running Ghostscript (lines 57-59) and the size report after it (lines 61-67). `CompressPdf` returns the command it would run and does not model the "output file was not created" error.
- The `tqdm` progress bars and every printed message and warning, including the warning for a skipped page.
- The page total at line 85 feeds only the progress bar. It is modelled only for its one effect: every token is parsed before any page is copied.
- `PageSelection.ExtractResult`, `PdfOperations.ExtractPages`: a failure inside `tqdm` itself is not modelled. When the page total at line 85 reaches 2**1024 or more (a token such as `1-` followed by 309 nines), drawing the bar overflows a float conversion; `extract_pages` then reports an error and writes nothing, while the model writes the pages.
- The first pass of `merge_pdfs` (lines 112-115) only counts pages for the progress bar.
- Split's output directory (lines 173-176): the `input()` prompt, `os.path.dirname`, `os.makedirs` and `os.path.join`. Parts are returned as named values, not written to paths.
- The base name at line 172 (`os.path.splitext` and `os.path.basename`) is a parameter of `SplitPdf`.
- `PyText.ParseInt`: underscores between digits and non-ASCII decimal digits, which Python's `int()` also accepts, are rejected. Non-ASCII whitespace is skipped directly rather than first read as a space, which has the same effect. The conversion limit is fixed at Python's default of 4300 digits; a limit changed through `sys.set_int_max_str_digits` is not modelled.
- Exceptions other than those in `Outcomes.Error`, such as I/O errors, permission errors and memory errors.
- `PageSelection.Picks`: an index below `-len(pages)` adds nothing. It would raise IndexError, and `ExtractResult` reports that case first; with non-negative range starts it arises only for a 0-start range on an empty document.
- `PyText.Strip`, `PyText.StripChars`: their own contracts only bound the length. What `strip()` returns is pinned down by `StripMargins`, `StripIsTrimmed` and `StripPadded`.
- `PyText.ParseInt`: its own contract states only the shape of an accepted string. Its value on `str(n)` and its rejection of blank strings are the lemmas `ParseIntOfNatToString` and `ParseIntBlank`.
- `PageSelection.Merged`: its own contract is a length bound. The contents of a merge are stated by `MergedAppend`, `MergedSkipsMissing` and `MergedTwo`.
- `PageSelection.Picks`, `PageSelection.Extracted`, `PageSelection.Kept`, `PageSelection.PartPages`: their own contracts are bounds. Their contents are stated by `PicksSlice`, `ExtractedAppend`, `KeptIsComplement` and `SplitPartSizes`.
