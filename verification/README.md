# zbynek-legal-format in Dafny

zbynek-legal-format is a command-line tool for putting legal document bundles together. It
joins PDF files into exhibit books and category books, stamps page numbers and exhibit labels,
splits and zips the results, and keeps an index table (TSV or XLSX) of which file landed on
which page under which exhibit id. This project models the bookkeeping behind those commands:
the counters, the page-index arithmetic, the index-table updates and the small string codecs.
The PDF, spreadsheet, compression and cloud libraries are reduced to values and oracles:

- a PDF is its list of pages, or just a page count;
- the files on disk are a map from path to page count, or an existence predicate;
- the byte size of a saved document part or of a compressed file is a function parameter;
- a spreadsheet is a list of sheets of optional cells.

One Dafny module models each source file:

| module (file) | models |
|---|---|
| `JoinExhibitModel` (join_exhibit.dfy), `JoinExhibitExtract` (join_extract.dfy), `JoinExhibitConfig` (join_config.dfy), `ExhibitId` (exhibit_id.dfy) | `command/JoinExhibitCommand`: the exhibit book, its page and exhibit counters, link retargeting, `--extract`, the index write-back, the config sheet, exhibit labels and `parseExhibitId` |
| `DocIndexModel` (doc_index.dfy) | `command/DocIndexCommand`: filing the index's files into categories, the `TABMAP` parser and the write-back |
| `PdfSplitModel` (pdf_split.dfy), `FileNames` (file_names.dfy) | `command/PdfSplitCommand`: the page-offset map and the search for part boundaries under a page cap and a size limit; the numbered output names |
| `PdfJoinModel` (pdf_join.dfy) | `command/PdfJoinCommand`: numbering, alignment padding and the range report |
| `AddPageNumbersModel` (add_page_numbers.dfy) | `command/AddPageNumbersCommand`: `-p`/`-f` parsing, the mark filter, the counter and the rotation rule |
| `PdfReplaceModel` (pdf_replace.dfy) | `command/PdfReplaceCommand`: `-m`/`-a` parsing, validation, the page operations and the metadata merge |
| `ZipModel` (zip.dfy) | `command/ZipCommand`: the file list, the three packing modes and validation |
| `TabConfigText` (tab_config.dfy) | `command/TabConfigToTextCommand`: the line formatter that writes the `TABMAP` syntax |
| `IndexReader` (index_reader.dfy) | `indexfile/IndexReader.readIndex`: the header check and the row filter |
| `TableRows` (table_rows.dfy), `TsvTableUpdatorModel` (tsv_table_updator.dfy), `TsvUpdatorModel` (tsv_updator.dfy) | `table/TsvTableUpdator` and `table/TsvUpdator`: in-memory row stores with `setValue` and `save` |
| `XlsSheet`, `XlsLayout`, `XlsReadSheet`, `XlsTableUpdatorModel` (xls_*.dfy) | `table/XlsTableUpdator`: the header, config, record and id maps, `spareMapToList`, the getters, `setValue` and `readSheet` |
| `TableFactory` (table_factory.dfy) | `table/TableUpdatorFactory`: choosing the table kind by extension |
| `TsvUtil` (tsv_util.dfy), `SizeFormat` (size_format.dfy) | `table/TsvUtil` and `format/SizeFormat` |
| `PdfDocumentWrapper` (document_wrapper.dfy) | `pdf/DocumentWrapper`: the `needRefresh` state machine, with loading as an oracle |
| `StorageRouting` (storage_routing.dfy), `DriveStorageRouting` (drive_routing.dfy), `GoogleDriveUrl` (google_drive_url.dfy) | both `DelegatingStorageRepository` classes (URL-prefix routing) and `GoogleDriveStorageRepository.getFileId` |
| `Wrappers` (wrappers.dfy), `JavaText` (java_text.dfy) | shared helpers: `Option`, `Result`, the exception kinds, and the Java string and integer behaviour the code relies on (`String.split`, `Integer.parseInt` over ASCII digits, `Integer.toString`, `%0Nd`, two's-complement wrap-around) |

Imperative code is modelled in imperative form. Objects whose fields change are classes:
`DocumentWrapper`, `TsvTableUpdator`, `TsvUpdator` and `XlsTableUpdator`. Loops are methods with
`while` loops, each proved against a specification function; the source's properties are then
proved about those functions as lemmas. Java exceptions are the `Err` case of a `Result` that
carries the exception kind and message.

Where the source files disagree with one another, each file's logic is modelled as written:

- `IndexReader.isExhibitIncluded` is called by the two commands but is not defined in
  `IndexReader`. It is modelled as the `readIndex` row filter for a single key
  (`IndexReader.IsExhibitIncluded`): the row's "K Exh" cell is non-empty and does not start
  with "exclude".
- `XlsTableUpdator` declares `getOptionalCell` twice, with identical bodies. The model has one
  `GetOptionalCell`.
- `TableUpdatorFactory` calls the `XlsTableUpdator` constructor with two arguments, but the
  constructor takes three. The model opens the first sheet, as a `null` sheet name does.
- `PdfReplaceCommand` calls `PdfRenderer.insertBlankPage` and `replacePage`, but this revision's
  `PdfRenderer` defines neither. They are modelled as a list insert and a list update, and an
  index outside the list as IndexOutOfBoundsException "Index i out of bounds for length n". The
  bounds and the message are assumed, not taken from any code.
- `PdfSplitCommand` does not always cut parts at multiples of the pairing `-g`. A part accepted
  while its end is at most `-g` pages past its start, or the last part, can end anywhere. The
  model follows the code (`PdfSplitModel.FivePagesAllOversize`).

## Model

| member | source | states |
|---|---|---|
| SizeFormat.UnitFactor | zbynek-legal-format/src/main/java/com/github/kvr000/zbyneklegal/format/format/SizeFormat.java:18-33 | every unit letter B, K, M, G, T has a positive factor, which is why the switch's default branch is unreachable |
| SizeFormat.ParseSize | zbynek-legal-format/src/main/java/com/github/kvr000/zbyneklegal/format/format/SizeFormat.java:11-37 | input not matching digits-then-unit is IllegalArgumentException; a matching input succeeds exactly when the digits fit a long (otherwise NumberFormatException); a result is always within the long range |
| SizeFormat.ParseSizeValue | zbynek-legal-format/src/main/java/com/github/kvr000/zbyneklegal/format/format/SizeFormat.java:17-32 | for every input of the pattern whose digits fit a long (leading zeros included), the value is the digits' decimal value times the unit factor, wrapped to 64 bits |
| SizeFormat.ParseSizeExact | zbynek-legal-format/src/main/java/com/github/kvr000/zbyneklegal/format/format/SizeFormat.java:17-32 | when that product fits a long, the value is exactly the digits' value times the unit factor |
| SizeFormat.ParseSizeOfFormatted | zbynek-legal-format/src/main/java/com/github/kvr000/zbyneklegal/format/format/SizeFormat.java:17-32 | writing n as digits followed by a unit and parsing it back gives n times the unit's factor whenever that product fits a long |
| SizeFormat.ParseSizeWraps | zbynek-legal-format/src/main/java/com/github/kvr000/zbyneklegal/format/format/SizeFormat.java:31-32 | the terabyte product is not overflow-checked: "8388608T" parses to the smallest long |
| SizeFormat.ParseSizeRejects | zbynek-legal-format/src/main/java/com/github/kvr000/zbyneklegal/format/format/SizeFormat.java:9-15 | a lower-case unit, a sign, an inner space and a missing unit are each IllegalArgumentException |
| TsvUtil.DoubleQuotes | zbynek-legal-format/src/main/java/com/github/kvr000/zbyneklegal/format/table/TsvUtil.java:23 | doubling quotes neither adds nor removes tabs and newlines |
| TsvUtil.UndoubleOfDouble | zbynek-legal-format/src/main/java/com/github/kvr000/zbyneklegal/format/table/TsvUtil.java:23 | the doubled-quote escape is undone exactly by collapsing quote pairs |
| TsvUtil.FormatTsvSingle | zbynek-legal-format/src/main/java/com/github/kvr000/zbyneklegal/format/table/TsvUtil.java:15-27 | null is empty, a value without tab, newline or quote is kept, and any other value is an opening quote followed by its quote-doubled text |
| TsvUtil.FormatTsvSingleDoesNotReadBack | zbynek-legal-format/src/main/java/com/github/kvr000/zbyneklegal/format/table/TsvUtil.java:22-23 | as written, "a<TAB>b" becomes an opening quote plus the text, which a CSV-style reader does not read back as "a<TAB>b" |
| TsvUtil.FormatTsvField | zbynek-legal-format/src/main/java/com/github/kvr000/zbyneklegal/format/table/TsvUtil.java:15-27 | with the closing quote added, every written value reads back as itself and null stays empty |
| TsvUtil.FormatFields | zbynek-legal-format/src/main/java/com/github/kvr000/zbyneklegal/format/table/TsvUtil.java:12 | each argument is formatted separately and in order, with the closing quote of the corrected field format |
| TsvUtil.SplitOfFormatTsv | zbynek-legal-format/src/main/java/com/github/kvr000/zbyneklegal/format/table/TsvUtil.java:10-13 | when no argument needs quoting, cutting the tab-joined line at every tab gives back exactly the formatted fields |
| TableFactory.LastSeparator | zbynek-legal-format/src/main/java/com/github/kvr000/zbyneklegal/format/table/TableUpdatorFactory.java:15 | the last '/' or '\\' in a name; nothing after it is a separator |
| TableFactory.Extension | zbynek-legal-format/src/main/java/com/github/kvr000/zbyneklegal/format/table/TableUpdatorFactory.java:16-19 | the extension holds no dot or separator and is a suffix of the name |
| TableFactory.ExtensionEndsName | zbynek-legal-format/src/main/java/com/github/kvr000/zbyneklegal/format/table/TableUpdatorFactory.java:16-19 | a non-empty extension is preceded by a dot at the end of the name |
| TableFactory.EndingGivesExtension | zbynek-legal-format/src/main/java/com/github/kvr000/zbyneklegal/format/table/TableUpdatorFactory.java:16-19 | a name ending in "." plus a dot-free, separator-free text has that text as its extension |
| TableFactory.ExtensionIsSuffix | zbynek-legal-format/src/main/java/com/github/kvr000/zbyneklegal/format/table/TableUpdatorFactory.java:16-19 | both directions: the extension is ext exactly when the name ends in "." + ext |
| TableFactory.OpenTableKind | zbynek-legal-format/src/main/java/com/github/kvr000/zbyneklegal/format/table/TableUpdatorFactory.java:13-25 | the root path fails with NullPointerException; an unsupported extension is IOException naming the file; success only for tsv, xls and xlsx |
| TableFactory.OpenTableKindByName | zbynek-legal-format/src/main/java/com/github/kvr000/zbyneklegal/format/table/TableUpdatorFactory.java:15-24 | a TSV table exactly for names ending ".tsv", an XLS table exactly for ".xls" or ".xlsx"; only the last path component matters |
| PdfDocumentWrapper.DocumentWrapper.constructor | zbynek-legal-format/src/main/java/com/github/kvr000/zbyneklegal/format/pdf/DocumentWrapper.java:25-31 | the constructor loads the file once and leaves the document current (no refresh pending) with nothing closed |
| PdfDocumentWrapper.DocumentWrapper.GetFreshDocument | zbynek-legal-format/src/main/java/com/github/kvr000/zbyneklegal/format/pdf/DocumentWrapper.java:33-44 | with a refresh pending, the old document is closed and a new load becomes the document; without one, the same document is handed out; either way a refresh is pending afterwards |
| PdfDocumentWrapper.DocumentWrapper.SetNeedRefresh | zbynek-legal-format/src/main/java/com/github/kvr000/zbyneklegal/format/pdf/DocumentWrapper.java:21-23 | only the refresh flag changes |
| PdfDocumentWrapper.DocumentWrapper.Close | zbynek-legal-format/src/main/java/com/github/kvr000/zbyneklegal/format/pdf/DocumentWrapper.java:46-50 | the current document is closed and nothing else changes |
| PdfDocumentWrapper.RefreshSequence | zbynek-legal-format/src/main/java/com/github/kvr000/zbyneklegal/format/pdf/DocumentWrapper.java:25-44 | construction then three getFreshDocument calls yield loads 1, 2 and 3; after setNeedRefresh(false) the third load is handed out again |
| StorageRouting.WordPrefixLength | zbynek-legal-format/src/main/java/com/github/kvr000/zbyneklegal/format/storage/DelegatingStorageRepository.java:14 | the longest run of \\w characters at the start of the URL |
| StorageRouting.UrlPrefixOfParts | zbynek-legal-format/src/main/java/com/github/kvr000/zbyneklegal/format/storage/DelegatingStorageRepository.java:38-42 | a URL scheme://host/rest has the key scheme://host/ exactly when rest has no line terminator |
| StorageRouting.UrlPrefixShape | zbynek-legal-format/src/main/java/com/github/kvr000/zbyneklegal/format/storage/DelegatingStorageRepository.java:38-42 | a matched key is a prefix of the URL, of the form word-scheme "://" slash-free host "/", and the rest of the URL has no line terminator |
| StorageRouting.NewlineAfterPrefixRejected | zbynek-legal-format/src/main/java/com/github/kvr000/zbyneklegal/format/storage/DelegatingStorageRepository.java:38-40 | "." does not match a newline, so a URL with a line break after its prefix is unrecognized |
| StorageRouting.FindRepository | zbynek-legal-format/src/main/java/com/github/kvr000/zbyneklegal/format/storage/DelegatingStorageRepository.java:36-52 | an unmatched URL, an unregistered prefix and a throwing supplier are each IOException; success exactly when the prefix is registered and its supplier delivers, and then it is that repository |
| StorageRouting.Delegate | zbynek-legal-format/src/main/java/com/github/kvr000/zbyneklegal/format/storage/DelegatingStorageRepository.java:24-34 | downloadFile and metadata are forwarded, unchanged, to the repository findRepository picks, and fail when it fails |
| StorageRouting.SamePrefixSameRepository | zbynek-legal-format/src/main/java/com/github/kvr000/zbyneklegal/format/storage/DelegatingStorageRepository.java:36-52 | two URLs with the same scheme and host are routed to the same repository or both fail |
| DriveStorageRouting.FindRepository | zbynek-legal-format/src/main/java/com/github/kvr000/zbyneklegal/format/storage/googledrive/DelegatingStorageRepository.java:35-46 | success exactly when the URL's prefix is registered, then that repository; otherwise IOException |
| DriveStorageRouting.SameAsNeverThrowingSuppliers | zbynek-legal-format/src/main/java/com/github/kvr000/zbyneklegal/format/storage/googledrive/DelegatingStorageRepository.java:35-46 | the Google Drive variant routes exactly as the general router with suppliers that never throw |
| DriveStorageRouting.Delegate | zbynek-legal-format/src/main/java/com/github/kvr000/zbyneklegal/format/storage/googledrive/DelegatingStorageRepository.java:23-33 | downloadFile and checksum are forwarded, unchanged, to the repository the prefix selects |
| GoogleDriveUrl.DrivePrefix | zbynek-legal-format/src/main/java/com/github/kvr000/zbyneklegal/format/storage/googledrive/GoogleDriveStorageRepository.java:37 | the fixed URL prefix, with the two unescaped dots of "drive.google.com" standing for any character |
| GoogleDriveUrl.GetFileId | zbynek-legal-format/src/main/java/com/github/kvr000/zbyneklegal/format/storage/googledrive/GoogleDriveStorageRepository.java:104-111 | a non-matching URL is IOException; a matched id is non-empty, slash-free, follows the prefix and is followed by "/view" and an optional query without line terminators |
| GoogleDriveUrl.GetFileIdOfParts | zbynek-legal-format/src/main/java/com/github/kvr000/zbyneklegal/format/storage/googledrive/GoogleDriveStorageRepository.java:104-111 | both directions: prefix + id + suffix is accepted exactly when the suffix is "/view" plus an optional query, and then the id read back is the id put in |
| GoogleDriveUrl.CanonicalPrefix | zbynek-legal-format/src/main/java/com/github/kvr000/zbyneklegal/format/storage/googledrive/GoogleDriveStorageRepository.java:37 | with dots in place the prefix is "https://drive.google.com/file/d/" |
| GoogleDriveUrl.UnescapedDotsAccepted | zbynek-legal-format/src/main/java/com/github/kvr000/zbyneklegal/format/storage/googledrive/GoogleDriveStorageRepository.java:37 | because the dots are not escaped, a host with other characters in their place is accepted |
| GoogleDriveUrl.OtherEndingsRejected | zbynek-legal-format/src/main/java/com/github/kvr000/zbyneklegal/format/storage/googledrive/GoogleDriveStorageRepository.java:37 | an "/edit" URL and a query containing a newline are rejected |
| IndexReader.Select | zbynek-legal-format/src/main/java/com/github/kvr000/zbyneklegal/format/indexfile/IndexReader.java:37-45 | the result holds exactly the listed entries other than BASE that, with keys given, have some non-empty "<key> Exh" cell not starting with "exclude" |
| IndexReader.CheckHeaders | zbynek-legal-format/src/main/java/com/github/kvr000/zbyneklegal/format/indexfile/IndexReader.java:27-36 | passes exactly when there are no keys or every "<key> Exh" is a header; keys against a null header map are NullPointerException, a missing header is IOException |
| IndexReader.ReadIndex | zbynek-legal-format/src/main/java/com/github/kvr000/zbyneklegal/format/indexfile/IndexReader.java:25-46 | without keys it always succeeds; with keys it succeeds exactly when the header check passes; a result holds exactly the kept entries |
| IndexReader.SelectAppend | zbynek-legal-format/src/main/java/com/github/kvr000/zbyneklegal/format/indexfile/IndexReader.java:37-45 | the filter keeps the order of listEntries: selecting from a concatenation gives the two selections one after the other |
| IndexReader.ReadIndexAll | zbynek-legal-format/src/main/java/com/github/kvr000/zbyneklegal/format/indexfile/IndexReader.java:37-39 | without keys every entry except BASE is returned |
| IndexReader.ReadIndexNoKeys | zbynek-legal-format/src/main/java/com/github/kvr000/zbyneklegal/format/indexfile/IndexReader.java:39-44 | an empty key collection selects nothing |
| IndexReader.SingleKeyIsExhibitIncluded | zbynek-legal-format/src/main/java/com/github/kvr000/zbyneklegal/format/indexfile/IndexReader.java:25-46 | with one key whose column exists, an entry other than BASE is returned exactly when its exhibit cell includes it |
| IndexReader.ExcludedCellNotSelected | zbynek-legal-format/src/main/java/com/github/kvr000/zbyneklegal/format/indexfile/IndexReader.java:41-43 | a cell "excluded" does not select its row, a cell "AB" does |
| TabConfigText.ReadLine | zbynek-legal-format/src/main/java/com/github/kvr000/zbyneklegal/format/command/TabConfigToTextCommand.java:43-57 | a line with fewer than two tab fields, or with both first fields blank, is skipped; exactly one blank is invalid; otherwise the entry is the code with the tab, joined by "=" to a non-blank third field |
| TabConfigText.TabEntries | zbynek-legal-format/src/main/java/com/github/kvr000/zbyneklegal/format/command/TabConfigToTextCommand.java:42-58 | the lines convert exactly when none of them is invalid |
| TabConfigText.TabEntriesFrom | zbynek-legal-format/src/main/java/com/github/kvr000/zbyneklegal/format/command/TabConfigToTextCommand.java:42-58 | a failure is "Invalid input: " plus some invalid line; every entry produced comes from a line that reads as that entry |
| TabConfigText.Terminated | zbynek-legal-format/src/main/java/com/github/kvr000/zbyneklegal/format/command/TabConfigToTextCommand.java:53-57 | the output is empty exactly when there are no entries |
| TabConfigText.TerminatedAppend | zbynek-legal-format/src/main/java/com/github/kvr000/zbyneklegal/format/command/TabConfigToTextCommand.java:53-57 | each entry appends its "code=tab" text and one comma to the output |
| TabConfigText.FormatLine | zbynek-legal-format/src/main/java/com/github/kvr000/zbyneklegal/format/command/TabConfigToTextCommand.java:43-57 | one loop iteration: a skipped line leaves the buffer, an invalid line fails with its text, an entry appends its text and a comma |
| TabConfigText.FormatLines | zbynek-legal-format/src/main/java/com/github/kvr000/zbyneklegal/format/command/TabConfigToTextCommand.java:39-60 | the loop over the input lines computes exactly the comma-terminated text of the entries, or the first invalid line's failure |
| TabConfigText.TerminatedIsJoin | zbynek-legal-format/src/main/java/com/github/kvr000/zbyneklegal/format/command/TabConfigToTextCommand.java:53-57 | the output is the entry texts joined by commas, with a trailing comma |
| TabConfigText.SplitOfTerminated | zbynek-legal-format/src/main/java/com/github/kvr000/zbyneklegal/format/command/TabConfigToTextCommand.java:53-57 | splitting the output at commas gives back the entry texts, the trailing comma's empty piece dropped |
| TabConfigText.PiecesOfTerminated | zbynek-legal-format/src/main/java/com/github/kvr000/zbyneklegal/format/command/DocIndexCommand.java:310-311 | the TABMAP reader's non-blank comma pieces of the output are exactly the entry texts |
| TabConfigText.ParseTexts | zbynek-legal-format/src/main/java/com/github/kvr000/zbyneklegal/format/command/DocIndexCommand.java:312-316 | each entry text splits at its first "=" back into that entry's code and tab |
| TabConfigText.TabTextReadsBack | zbynek-legal-format/src/main/java/com/github/kvr000/zbyneklegal/format/command/DocIndexCommand.java:304-318 | the TABMAP reader reads the written text back as the same entries, in order, when codes are distinct and hold no comma or "=" |
| TabConfigText.FormatLinesReadBack | zbynek-legal-format/src/main/java/com/github/kvr000/zbyneklegal/format/command/TabConfigToTextCommand.java:39-60 | round trip: text produced from comma-free lines reads back through the TABMAP reader as exactly the entries the lines define |
| TabConfigText.SafeEntries | zbynek-legal-format/src/main/java/com/github/kvr000/zbyneklegal/format/command/TabConfigToTextCommand.java:43-57 | comma-free lines give entries without commas |
| TabConfigText.FieldsOfLine | zbynek-legal-format/src/main/java/com/github/kvr000/zbyneklegal/format/command/TabConfigToTextCommand.java:43-55 | the code and tab of a comma-free line hold no comma |
| TableRows.IndexById | zbynek-legal-format/src/main/java/com/github/kvr000/zbyneklegal/format/table/TsvTableUpdator.java:49-54 | the id index is built exactly when no two records share a non-empty id (otherwise IllegalArgumentException, as toImmutableMap throws); it lists each record with a non-empty id once, in record order, and its ids are distinct |
| TableRows.Lookup | zbynek-legal-format/src/main/java/com/github/kvr000/zbyneklegal/format/table/TsvTableUpdator.java:71 | an id is found exactly when some key carries it, and then at that key's record position |
| TableRows.LookupOfKey | zbynek-legal-format/src/main/java/com/github/kvr000/zbyneklegal/format/table/TsvTableUpdator.java:49-54 | with distinct ids every key is found at its own position |
| TableRows.Entries | zbynek-legal-format/src/main/java/com/github/kvr000/zbyneklegal/format/table/TsvTableUpdator.java:58-61 | listEntries pairs each indexed id with its record |
| TableRows.Project | zbynek-legal-format/src/main/java/com/github/kvr000/zbyneklegal/format/table/TsvTableUpdator.java:93-94 | a saved line lists the record's value per header column, null where the record lacks the column |
| TableRows.SaveLines | zbynek-legal-format/src/main/java/com/github/kvr000/zbyneklegal/format/table/TsvTableUpdator.java:88-98 | the saved file is the header line followed by one projected line per record, in record order (unindexed records included) |
| TableRows.SaveLinesExtend | zbynek-legal-format/src/main/java/com/github/kvr000/zbyneklegal/format/table/TsvTableUpdator.java:92-95 | each further record adds exactly its projected line |
| TableRows.HeaderMap | zbynek-legal-format/src/main/java/com/github/kvr000/zbyneklegal/format/table/TsvTableUpdator.java:40 | the header map sends each header name to its column and nothing else |
| TableRows.RecordMap | zbynek-legal-format/src/main/java/com/github/kvr000/zbyneklegal/format/table/TsvTableUpdator.java:47 | CSVRecord.toMap: each header column present in the line maps to its field, and no other name appears |
| TableRows.Records | zbynek-legal-format/src/main/java/com/github/kvr000/zbyneklegal/format/table/TsvTableUpdator.java:46-48 | one record per data line, in order |
| TableRows.OptionalValue | zbynek-legal-format/src/main/java/com/github/kvr000/zbyneklegal/format/table/TsvTableUpdator.java:69-74 | a value exactly when the id is indexed and its record has the column, and then that value |
| TableRows.SetCell | zbynek-legal-format/src/main/java/com/github/kvr000/zbyneklegal/format/table/TsvTableUpdator.java:76-85 | an unknown id is NullPointerException, an unknown column IllegalArgumentException; otherwise only that record's column changes, to the value, and every other record and column is kept |
| TableRows.ValueAfterSetCell | zbynek-legal-format/src/main/java/com/github/kvr000/zbyneklegal/format/table/TsvTableUpdator.java:69-85 | after a successful set the cell reads back the value and every other (id, column) reads as before |
| TableRows.SaveAfterSetCell | zbynek-legal-format/src/main/java/com/github/kvr000/zbyneklegal/format/table/TsvTableUpdator.java:76-98 | after a successful set the saved line of that record holds the value in that column and every other record's line is unchanged |
| TsvTableUpdatorModel.TsvTableUpdator.Load | zbynek-legal-format/src/main/java/com/github/kvr000/zbyneklegal/format/table/TsvTableUpdator.java:33-56 | the loaded table holds the header, the records and their id index; no header map is inherited and nothing is written |
| TsvTableUpdatorModel.TsvTableUpdator.ListEntries | zbynek-legal-format/src/main/java/com/github/kvr000/zbyneklegal/format/table/TsvTableUpdator.java:58-61 | each indexed id with its record |
| TsvTableUpdatorModel.TsvTableUpdator.GetOptionalValue | zbynek-legal-format/src/main/java/com/github/kvr000/zbyneklegal/format/table/TsvTableUpdator.java:69-74 | null for an unknown id or a column the record lacks; otherwise the record's value |
| TsvTableUpdatorModel.TsvTableUpdator.GetUrl | zbynek-legal-format/src/main/java/com/github/kvr000/zbyneklegal/format/table/TsvTableUpdator.java:63-67 | always null |
| TsvTableUpdatorModel.TsvTableUpdator.GetHeaders | zbynek-legal-format/src/main/java/com/github/kvr000/zbyneklegal/format/table/AbstractTableUpdator.java:17-22 | getHeaders answers the inherited field, not the parsed header map the subclass keeps |
| TsvTableUpdatorModel.TsvTableUpdator.HeaderPositions | zbynek-legal-format/src/main/java/com/github/kvr000/zbyneklegal/format/table/TsvTableUpdator.java:40 | the parsed header map: every header name at its column |
| TsvTableUpdatorModel.TsvTableUpdator.SetValue | zbynek-legal-format/src/main/java/com/github/kvr000/zbyneklegal/format/table/TsvTableUpdator.java:76-85 | the records become what SetCell gives, with "Trying to access unknown column: "; on failure they are unchanged and the failure is reported |
| TsvTableUpdatorModel.TsvTableUpdator.Save | zbynek-legal-format/src/main/java/com/github/kvr000/zbyneklegal/format/table/TsvTableUpdator.java:87-98 | the written file is the header line and every record projected over the header, and the records are unchanged |
| TsvTableUpdatorModel.Open | zbynek-legal-format/src/main/java/com/github/kvr000/zbyneklegal/format/table/TsvTableUpdator.java:33-56 | opening succeeds exactly when the id column is a header and no two records share a non-empty id, otherwise IllegalArgumentException; the table then holds the parsed records and their index |
| TsvTableUpdatorModel.ListedIffNonEmptyId | zbynek-legal-format/src/main/java/com/github/kvr000/zbyneklegal/format/table/TsvTableUpdator.java:49-54 | a record is listed exactly when its id cell is non-empty |
| TsvTableUpdatorModel.ReadIndexOverTsvTableFails | zbynek-legal-format/src/main/java/com/github/kvr000/zbyneklegal/format/table/TsvTableUpdator.java:29-40 | reading the index with exhibit keys over a TSV table fails with NullPointerException because getHeaders is null |
| TsvTableUpdatorModel.ReadIndexOverParsedHeaders | zbynek-legal-format/src/main/java/com/github/kvr000/zbyneklegal/format/table/TsvTableUpdator.java:40 | with the parsed header map, reading with keys succeeds exactly when every "<key> Exh" column is a header |
| TsvUpdatorModel.TsvUpdator.Load | zbynek-legal-format/src/main/java/com/github/kvr000/zbyneklegal/format/table/TsvUpdator.java:32-52 | the loaded store holds the header, the records and their id index, and nothing is written |
| TsvUpdatorModel.TsvUpdator.GetHeaders | zbynek-legal-format/src/main/java/com/github/kvr000/zbyneklegal/format/table/TsvUpdator.java:54-57 | every header name at its column, and nothing else |
| TsvUpdatorModel.TsvUpdator.ListEntries | zbynek-legal-format/src/main/java/com/github/kvr000/zbyneklegal/format/table/TsvUpdator.java:59-62 | each indexed id with its record |
| TsvUpdatorModel.TsvUpdator.SetValue | zbynek-legal-format/src/main/java/com/github/kvr000/zbyneklegal/format/table/TsvUpdator.java:64-72 | the records become what SetCell gives, with "Trying to set unknown column: "; on failure they are unchanged |
| TsvUpdatorModel.TsvUpdator.Save | zbynek-legal-format/src/main/java/com/github/kvr000/zbyneklegal/format/table/TsvUpdator.java:74-84 | the written file is the header line and every record projected over the header |
| TsvUpdatorModel.Open | zbynek-legal-format/src/main/java/com/github/kvr000/zbyneklegal/format/table/TsvUpdator.java:32-52 | opening succeeds exactly when the id column is a header and non-empty ids are unique, otherwise IllegalArgumentException |
| TsvUpdatorModel.SetValueThenSave | zbynek-legal-format/src/main/java/com/github/kvr000/zbyneklegal/format/table/TsvUpdator.java:64-84 | a successful setValue followed by save writes the value into that record's line and column and leaves every other line as before |
| TsvUpdatorModel.GetHeadersIsHeaderLine | zbynek-legal-format/src/main/java/com/github/kvr000/zbyneklegal/format/table/TsvUpdator.java:54-57 | getHeaders() is the parsed header line: a name is a key exactly when it is a column of the header line, and it maps to that column's position |
| XlsSheet.CellAt | zbynek-legal-format/src/main/java/com/github/kvr000/zbyneklegal/format/table/XlsTableUpdator.java:254 | row.getCell(column): the row's cell in that column, or null exactly when the row has none there |
| XlsSheet.CellString | zbynek-legal-format/src/main/java/com/github/kvr000/zbyneklegal/format/table/XlsTableUpdator.java:289-307 | getCellString: the content of a numeric, string or formula cell; null for blank and other cells |
| XlsSheet.NullToEmpty | zbynek-legal-format/src/main/java/com/github/kvr000/zbyneklegal/format/table/XlsTableUpdator.java:103 | Strings.nullToEmpty: null becomes "", any other text is kept |
| XlsSheet.ToImmutableMap | zbynek-legal-format/src/main/java/com/github/kvr000/zbyneklegal/format/table/XlsTableUpdator.java:61-68 | collecting (column, text) entries succeeds exactly when no name repeats (otherwise IllegalArgumentException) and maps each name to its index |
| XlsSheet.SpareLength | zbynek-legal-format/src/main/java/com/github/kvr000/zbyneklegal/format/table/XlsTableUpdator.java:311 | the array length is one past the largest column index, 0 when there are no entries |
| XlsSheet.ValueAt | zbynek-legal-format/src/main/java/com/github/kvr000/zbyneklegal/format/table/XlsTableUpdator.java:312 | the value spareMapToList puts at an index: the entry's name for that column, null where no entry has it |
| XlsSheet.SpareList | zbynek-legal-format/src/main/java/com/github/kvr000/zbyneklegal/format/table/XlsTableUpdator.java:309-314 | spareMapToList: an array one past the largest index, null exactly at indexes no entry has, and each entry's name at its column |
| XlsSheet.SpareMapToList | zbynek-legal-format/src/main/java/com/github/kvr000/zbyneklegal/format/table/XlsTableUpdator.java:309-314 | the array-filling loop produces exactly SpareList |
| XlsSheet.NamedPositions | zbynek-legal-format/src/main/java/com/github/kvr000/zbyneklegal/format/table/XlsTableUpdator.java:69-74 | the (name, index) pairs zip produces: exactly the non-null names with their indexes |
| XlsSheet.PositionMap | zbynek-legal-format/src/main/java/com/github/kvr000/zbyneklegal/format/table/XlsTableUpdator.java:69-75 | the header map is built exactly when the non-null names are distinct (otherwise IllegalArgumentException) and sends each name to its index and nothing else |
| XlsSheet.NamedPositionsIncreasing | zbynek-legal-format/src/main/java/com/github/kvr000/zbyneklegal/format/table/XlsTableUpdator.java:69-74 | the pairs come in increasing index order |
| XlsLayout.ShownEntries | zbynek-legal-format/src/main/java/com/github/kvr000/zbyneklegal/format/table/XlsTableUpdator.java:61-68 | every header cell with non-empty formatted text contributes its (column, text) entry |
| XlsLayout.ShownEntriesFrom | zbynek-legal-format/src/main/java/com/github/kvr000/zbyneklegal/format/table/XlsTableUpdator.java:61-67 | each entry comes from a header cell with that column and that non-empty text |
| XlsLayout.ShownEntriesDistinct | zbynek-legal-format/src/main/java/com/github/kvr000/zbyneklegal/format/table/XlsTableUpdator.java:61-68 | cells in distinct columns give entries with distinct columns |
| XlsLayout.HeaderNames | zbynek-legal-format/src/main/java/com/github/kvr000/zbyneklegal/format/table/XlsTableUpdator.java:60-68 | headerNames holds at each column the header cell's formatted text, null where the cell is missing or shows nothing, and reaches past every shown cell |
| XlsLayout.HeaderNamesAreShownNames | zbynek-legal-format/src/main/java/com/github/kvr000/zbyneklegal/format/table/XlsTableUpdator.java:61-68 | spareMapToList over the shown entries gives exactly HeaderNames |
| XlsLayout.BlankHeaderCellHasNoEntry | zbynek-legal-format/src/main/java/com/github/kvr000/zbyneklegal/format/table/XlsTableUpdator.java:63 | a header cell that shows nothing contributes no entry |
| XlsLayout.ConfigNames | zbynek-legal-format/src/main/java/com/github/kvr000/zbyneklegal/format/table/XlsTableUpdator.java:82-91 | per sheet row, the Date cell's text when that cell is a string cell of upper-case letters only |
| XlsLayout.RecordOf | zbynek-legal-format/src/main/java/com/github/kvr000/zbyneklegal/format/table/XlsTableUpdator.java:98-104 | every cell of the row inside the header range with a header name contributes that name |
| XlsLayout.RecordOfKeys | zbynek-legal-format/src/main/java/com/github/kvr000/zbyneklegal/format/table/XlsTableUpdator.java:99-102 | every name in a record comes from a cell of the row under that header |
| XlsLayout.RecordOfValue | zbynek-legal-format/src/main/java/com/github/kvr000/zbyneklegal/format/table/XlsTableUpdator.java:101-104 | the value under a header is the nullToEmpty getCellString of the row's cell in that column |
| XlsLayout.SheetRecords | zbynek-legal-format/src/main/java/com/github/kvr000/zbyneklegal/format/table/XlsTableUpdator.java:95-106 | one record per sheet row after the header row; an empty map for a missing row |
| XlsLayout.FirstSheetNamed | zbynek-legal-format/src/main/java/com/github/kvr000/zbyneklegal/format/table/XlsTableUpdator.java:56 | getSheet(name): the first sheet whose name equals the given name ignoring case (ASCII letters), or none |
| XlsLayout.SheetNameIgnoresCase | zbynek-legal-format/src/main/java/com/github/kvr000/zbyneklegal/format/table/XlsTableUpdator.java:56 | a sheet named "Index" is opened by the sheet name "index" |
| XlsLayout.SelectSheet | zbynek-legal-format/src/main/java/com/github/kvr000/zbyneklegal/format/table/XlsTableUpdator.java:56-59 | without a name the first sheet (failing on an empty workbook); with a name the first sheet so named ignoring case, otherwise IOException "Cannot find sheet ..." |
| XlsLayout.LayoutOf | zbynek-legal-format/src/main/java/com/github/kvr000/zbyneklegal/format/table/XlsTableUpdator.java:69-120 | repeated header names are IllegalArgumentException, a missing Date header IOException, a missing id column IllegalArgumentException; otherwise the header and config maps, the records and their id index |
| XlsLayout.LayoutMaps | zbynek-legal-format/src/main/java/com/github/kvr000/zbyneklegal/format/table/XlsTableUpdator.java:69-93 | maps built from the header names and the config names agree with them in both directions |
| XlsLayout.LoadTable | zbynek-legal-format/src/main/java/com/github/kvr000/zbyneklegal/format/table/XlsTableUpdator.java:50-122 | the constructor's reads: the selected sheet's errors are passed on; a loaded layout has the header row's names, header and config maps that agree with the sheet, the records of the later rows, and their id index |
| XlsLayout.LayoutFits | zbynek-legal-format/src/main/java/com/github/kvr000/zbyneklegal/format/table/XlsTableUpdator.java:95-120 | every indexed record and every config name points at an existing sheet row |
| XlsReadSheet.ContentEntries | zbynek-legal-format/src/main/java/com/github/kvr000/zbyneklegal/format/table/XlsTableUpdator.java:185-186 | readSheet's header entries: each header cell's column with its cell string, distinct columns kept distinct |
| XlsReadSheet.ReadHeader | zbynek-legal-format/src/main/java/com/github/kvr000/zbyneklegal/format/table/XlsTableUpdator.java:178-197 | a missing sheet is FileNotFoundException; a read header comes from the first sheet with that name ignoring case, has names from spareMapToList, a header map that matches them, and contains the key |
| XlsReadSheet.ReadHeaderNames | zbynek-legal-format/src/main/java/com/github/kvr000/zbyneklegal/format/table/XlsTableUpdator.java:184-193 | each header cell's text is the name at its column and maps back to that column |
| XlsReadSheet.PresentRows | zbynek-legal-format/src/main/java/com/github/kvr000/zbyneklegal/format/table/XlsTableUpdator.java:199-201 | the sheet iterator yields exactly the rows that exist |
| XlsReadSheet.DataRecords | zbynek-legal-format/src/main/java/com/github/kvr000/zbyneklegal/format/table/XlsTableUpdator.java:199-207 | every data record is read from some existing row after the header, and every such row gives one |
| XlsReadSheet.IdMap | zbynek-legal-format/src/main/java/com/github/kvr000/zbyneklegal/format/table/XlsTableUpdator.java:208-212 | each indexed id maps to its record |
| XlsReadSheet.IdMapRecords | zbynek-legal-format/src/main/java/com/github/kvr000/zbyneklegal/format/table/XlsTableUpdator.java:208-212 | every record with a non-empty key is found under that key; every entry is such a record under its own key |
| XlsReadSheet.FirstOverflow | zbynek-legal-format/src/main/java/com/github/kvr000/zbyneklegal/format/table/XlsTableUpdator.java:202 | none exactly when every cell's column is inside the names array; otherwise a column at or past its end |
| XlsReadSheet.ReadSheetAsWritten | zbynek-legal-format/src/main/java/com/github/kvr000/zbyneklegal/format/table/XlsTableUpdator.java:178-213 | as written: when some data cell lies past the last header column, names[column] throws ArrayIndexOutOfBoundsException with that index and length |
| XlsReadSheet.ReadSheet | zbynek-legal-format/src/main/java/com/github/kvr000/zbyneklegal/format/table/XlsTableUpdator.java:178-213 | header errors are passed on; otherwise the map is built exactly when the non-empty keys are unique, and holds exactly the records with a non-empty key, each under that key |
| XlsReadSheet.ExtraCellBreaksReadSheet | zbynek-legal-format/src/main/java/com/github/kvr000/zbyneklegal/format/table/XlsTableUpdator.java:199-206 | a sheet whose only data row has a cell right of the single header fails with "Index 1 out of bounds for length 1" |
| XlsReadSheet.ReadSheetOfOneRecord | zbynek-legal-format/src/main/java/com/github/kvr000/zbyneklegal/format/table/XlsTableUpdator.java:208-212 | one data record with a non-empty key gives the map from that key to it |
| XlsReadSheet.ExtraCellReadsGuarded | zbynek-legal-format/src/main/java/com/github/kvr000/zbyneklegal/format/table/XlsTableUpdator.java:199-206 | with the header-range filter the constructor already applies, the same sheet reads as the one record |
| XlsTableUpdatorModel.Written | zbynek-legal-format/src/main/java/com/github/kvr000/zbyneklegal/format/table/XlsTableUpdator.java:171 | setCellValue(String): a formula cell is left as it is; any other cell becomes a string cell showing the value; column and hyperlink are kept |
| XlsTableUpdatorModel.UpsertRow | zbynek-legal-format/src/main/java/com/github/kvr000/zbyneklegal/format/table/XlsTableUpdator.java:232-244 | the row's cell in the column (a new blank one if missing) is written and every other column keeps its cell |
| XlsTableUpdatorModel.UpsertRowDistinct | zbynek-legal-format/src/main/java/com/github/kvr000/zbyneklegal/format/table/XlsTableUpdator.java:239 | upserting keeps the row's columns distinct |
| XlsTableUpdatorModel.WrittenValueReadsBack | zbynek-legal-format/src/main/java/com/github/kvr000/zbyneklegal/format/table/XlsTableUpdator.java:98-104 | a value written into a non-formula cell reads back under that column's header name |
| XlsTableUpdatorModel.UpsertSheet | zbynek-legal-format/src/main/java/com/github/kvr000/zbyneklegal/format/table/XlsTableUpdator.java:239 | only the id's row changes, to the upserted row, and the sheet stays well formed |
| XlsTableUpdatorModel.UpsertKeepsLayout | zbynek-legal-format/src/main/java/com/github/kvr000/zbyneklegal/format/table/XlsTableUpdator.java:168-176 | writing a cell keeps every indexed record and config name on an existing row |
| XlsTableUpdatorModel.XlsTableUpdator.Load | zbynek-legal-format/src/main/java/com/github/kvr000/zbyneklegal/format/table/XlsTableUpdator.java:50-122 | the table holds the workbook and the layout read from it, with nothing written |
| XlsTableUpdatorModel.XlsTableUpdator.CurrentSheet | zbynek-legal-format/src/main/java/com/github/kvr000/zbyneklegal/format/table/XlsTableUpdator.java:40 | the table's sheet as the workbook now holds it |
| XlsTableUpdatorModel.XlsTableUpdator.ListEntries | zbynek-legal-format/src/main/java/com/github/kvr000/zbyneklegal/format/table/XlsTableUpdator.java:124-127 | each indexed id with the record read at load time |
| XlsTableUpdatorModel.XlsTableUpdator.GetHeaders | zbynek-legal-format/src/main/java/com/github/kvr000/zbyneklegal/format/table/AbstractTableUpdator.java:19-22 | the header map the constructor assigned: it contains the id column and "Date", and maps each name to its column |
| XlsTableUpdatorModel.XlsTableUpdator.GetOptionalValue | zbynek-legal-format/src/main/java/com/github/kvr000/zbyneklegal/format/table/XlsTableUpdator.java:144-149 | null for an unknown id or a column the load-time record lacks; otherwise that record's value |
| XlsTableUpdatorModel.XlsTableUpdator.IdToRow | zbynek-legal-format/src/main/java/com/github/kvr000/zbyneklegal/format/table/XlsTableUpdator.java:113-120 | an id is mapped exactly when it is indexed, to one past its record position, which is an existing sheet row |
| XlsTableUpdatorModel.XlsTableUpdator.GetOptionalCell | zbynek-legal-format/src/main/java/com/github/kvr000/zbyneklegal/format/table/XlsTableUpdator.java:247-259 | an unknown id is IllegalArgumentException "invalid id", an unknown column IllegalArgumentException "unknown column"; otherwise the row's cell in that column, if any |
| XlsTableUpdatorModel.XlsTableUpdator.GetUrl | zbynek-legal-format/src/main/java/com/github/kvr000/zbyneklegal/format/table/XlsTableUpdator.java:129-142 | fails as getOptionalCell fails; otherwise the cell's hyperlink address, null when the cell or its hyperlink is missing |
| XlsTableUpdatorModel.XlsTableUpdator.GetOptionalConfig | zbynek-legal-format/src/main/java/com/github/kvr000/zbyneklegal/format/table/XlsTableUpdator.java:158-166 | empty for an unknown config; an unknown column on a config row is NullPointerException; otherwise the config row's cell text in that column, empty when missing or empty |
| XlsTableUpdatorModel.XlsTableUpdator.GetConfig | zbynek-legal-format/src/main/java/com/github/kvr000/zbyneklegal/format/table/XlsTableUpdator.java:151-156 | getOptionalConfig's value; an empty answer is IllegalArgumentException "No config found for key: ..." |
| XlsTableUpdatorModel.XlsTableUpdator.SetValue | zbynek-legal-format/src/main/java/com/github/kvr000/zbyneklegal/format/table/XlsTableUpdator.java:168-176 | succeeds exactly when the id is indexed and the column is a header, otherwise IllegalArgumentException "Trying to access unknown column: id=... key=..." with the workbook unchanged; on success only that cell of the sheet changes, it reads back as written, a non-formula cell on a config row gives the value to getOptionalConfig, and listEntries and getOptionalValue do not change |
| XlsTableUpdatorModel.XlsTableUpdator.Save | zbynek-legal-format/src/main/java/com/github/kvr000/zbyneklegal/format/table/XlsTableUpdator.java:215-220 | the written workbook is the current one |
| XlsTableUpdatorModel.Open | zbynek-legal-format/src/main/java/com/github/kvr000/zbyneklegal/format/table/XlsTableUpdator.java:50-122 | opening succeeds exactly when the layout loads, with its error otherwise; the table then holds the workbook and that layout |
| XlsTableUpdatorModel.RecordRow | zbynek-legal-format/src/main/java/com/github/kvr000/zbyneklegal/format/table/XlsTableUpdator.java:95-120 | a record with a non-empty id is indexed under it and idToRow points at the sheet row it was read from |
| XlsTableUpdatorModel.ReadIndexOverXlsTable | zbynek-legal-format/src/main/java/com/github/kvr000/zbyneklegal/format/table/XlsTableUpdator.java:69-75 | reading the index with keys succeeds exactly when every "<key> Exh" column is a header name of the sheet |
| DocIndexModel.NonBlank | zbynek-legal-format/src/main/java/com/github/kvr000/zbyneklegal/format/command/DocIndexCommand.java:310-311 | the TABMAP pieces kept are exactly the non-blank ones, in order |
| DocIndexModel.ParsePieces | zbynek-legal-format/src/main/java/com/github/kvr000/zbyneklegal/format/command/DocIndexCommand.java:312-317 | each piece is split at its first "=" into code and tab; this succeeds exactly when every piece has an "=" (otherwise p[1] is out of bounds) |
| DocIndexModel.ReadTabMap | zbynek-legal-format/src/main/java/com/github/kvr000/zbyneklegal/format/command/DocIndexCommand.java:304-319 | the TABMAP value becomes the categories in order; a piece without "=" is ArrayIndexOutOfBoundsException and a repeated code is IllegalArgumentException from toImmutableMap |
| DocIndexModel.InitialCategories | zbynek-legal-format/src/main/java/com/github/kvr000/zbyneklegal/format/command/DocIndexCommand.java:310-318 | one category per TABMAP entry with zero counters and no output, each consistent |
| DocIndexModel.FindCategory | zbynek-legal-format/src/main/java/com/github/kvr000/zbyneklegal/format/command/DocIndexCommand.java:121 | categoryMap.get: the category with that code, or none exactly when no category has it |
| DocIndexModel.NeedsUrl | zbynek-legal-format/src/main/java/com/github/kvr000/zbyneklegal/format/command/DocIndexCommand.java:129 | without NEEDURL a file without a URL is skipped; a NEEDURL that does not parse is NumberFormatException; NEEDURL 0 turns the check off |
| DocIndexModel.RawPages | zbynek-legal-format/src/main/java/com/github/kvr000/zbyneklegal/format/command/DocIndexCommand.java:139-142 | the file's pages followed by one blank padding page when their count is odd |
| DocIndexModel.Stamped | zbynek-legal-format/src/main/java/com/github/kvr000/zbyneklegal/format/command/DocIndexCommand.java:145-153 | pages before the file's first page are untouched; each page from it on gets its category page number, and only the first also the exhibit text |
| DocIndexModel.FileInto | zbynek-legal-format/src/main/java/com/github/kvr000/zbyneklegal/format/command/DocIndexCommand.java:132-180 | filing a document fails exactly when the category has run out of two-letter exhibit ids |
| DocIndexModel.FileIntoPages | zbynek-legal-format/src/main/java/com/github/kvr000/zbyneklegal/format/command/DocIndexCommand.java:138-154 | filing appends the document's pages (padded to even) after the earlier output, numbers each new page with its 1-based category page, stamps the exhibit text on the first, and raises the file count by one |
| DocIndexModel.FileIntoEntry | zbynek-legal-format/src/main/java/com/github/kvr000/zbyneklegal/format/command/DocIndexCommand.java:138-155 | the filed entry records the category's page count before it, the next exhibit id and the tab with the 3-digit file count |
| DocIndexModel.EvenAfterPadding | zbynek-legal-format/src/main/java/com/github/kvr000/zbyneklegal/format/command/DocIndexCommand.java:140-141 | padding keeps the category's page count even |
| DocIndexModel.FileIntoConsistent | zbynek-legal-format/src/main/java/com/github/kvr000/zbyneklegal/format/command/DocIndexCommand.java:132-155 | filing keeps a category consistent: even page count, one number per page, as many exhibits as files |
| DocIndexModel.StampedAppend | zbynek-legal-format/src/main/java/com/github/kvr000/zbyneklegal/format/command/DocIndexCommand.java:139-153 | stamping after appending leaves earlier pages and numbers and marks exactly the new ones |
| DocIndexModel.StepFile | zbynek-legal-format/src/main/java/com/github/kvr000/zbyneklegal/format/command/DocIndexCommand.java:120-157 | one loop iteration: an unknown category records the "Unknown category for file" error and changes nothing else; otherwise errors are kept, only the file's category may change, and the entry is recorded |
| DocIndexModel.StepFileConsistent | zbynek-legal-format/src/main/java/com/github/kvr000/zbyneklegal/format/command/DocIndexCommand.java:120-157 | one iteration keeps every category consistent |
| DocIndexModel.RunFilesConsistent | zbynek-legal-format/src/main/java/com/github/kvr000/zbyneklegal/format/command/DocIndexCommand.java:120-157 | the whole loop keeps every category consistent and their number fixed |
| DocIndexModel.UnknownErrors | zbynek-legal-format/src/main/java/com/github/kvr000/zbyneklegal/format/command/DocIndexCommand.java:121-126 | at most one error per file |
| DocIndexModel.UnknownErrorsNamed | zbynek-legal-format/src/main/java/com/github/kvr000/zbyneklegal/format/command/DocIndexCommand.java:121-126 | each error names a file whose category is not among the codes |
| DocIndexModel.FindCategoryOfCodes | zbynek-legal-format/src/main/java/com/github/kvr000/zbyneklegal/format/command/DocIndexCommand.java:121-122 | a category is missing exactly when its code is not among the category codes |
| DocIndexModel.StepFileShape | zbynek-legal-format/src/main/java/com/github/kvr000/zbyneklegal/format/command/DocIndexCommand.java:120-157 | one iteration keeps the codes, adds exactly the unknown-category error of that file if any, and records the file under its own name |
| DocIndexModel.RunFilesErrors | zbynek-legal-format/src/main/java/com/github/kvr000/zbyneklegal/format/command/DocIndexCommand.java:116-126 | the loop's errors are exactly the unknown-category errors of the files, in file order |
| DocIndexModel.RunFilesEntries | zbynek-legal-format/src/main/java/com/github/kvr000/zbyneklegal/format/command/DocIndexCommand.java:120-157 | the loop records one entry per file, in file order, under the file's name |
| DocIndexModel.StepFileEntry | zbynek-legal-format/src/main/java/com/github/kvr000/zbyneklegal/format/command/DocIndexCommand.java:121-155 | an unknown category or a skipped file without URL leaves the entry as read; otherwise the entry is the one filing produces |
| DocIndexModel.KeyWrites | zbynek-legal-format/src/main/java/com/github/kvr000/zbyneklegal/format/command/DocIndexCommand.java:269-272 | per included key two cells of the file's row: "<key> Pg" and "<key> Exh" |
| DocIndexModel.KeyWritesReadBack | zbynek-legal-format/src/main/java/com/github/kvr000/zbyneklegal/format/command/DocIndexCommand.java:270-271 | the Pg cell parses back as the category page and the Exh cell is the category id, or "-" when the file was not filed |
| DocIndexModel.EntryWrites | zbynek-legal-format/src/main/java/com/github/kvr000/zbyneklegal/format/command/DocIndexCommand.java:268-273 | the writes for a file are exactly the two cells of each key its row is included under |
| DocIndexModel.WriteBack | zbynek-legal-format/src/main/java/com/github/kvr000/zbyneklegal/format/command/DocIndexCommand.java:264-276 | the list-file update writes exactly the cells some file's included keys call for |
| DocIndexModel.UnfiledWriteBack | zbynek-legal-format/src/main/java/com/github/kvr000/zbyneklegal/format/command/DocIndexCommand.java:270-271 | a file that was never filed gets Pg "0" and Exh "-" |
| DocIndexModel.SwornPosError | zbynek-legal-format/src/main/java/com/github/kvr000/zbyneklegal/format/command/DocIndexCommand.java:241-250 | a "Sworn Pos" that is non-empty, not "default" and has no ';' is an error |
| DocIndexModel.EntryOf | zbynek-legal-format/src/main/java/com/github/kvr000/zbyneklegal/format/command/DocIndexCommand.java:235-259 | an entry is read exactly when its row has a Category and a valid Sworn Pos; a failure is IllegalArgumentException "Failed to process entry file=..." wrapping the cause |
| DocIndexModel.ReadListFile | zbynek-legal-format/src/main/java/com/github/kvr000/zbyneklegal/format/command/DocIndexCommand.java:230-262 | the list file is read exactly when every entry is; each input entry carries its name, row, category and URL, and starts unfiled |
| DocIndexModel.ValidateOptions | zbynek-legal-format/src/main/java/com/github/kvr000/zbyneklegal/format/command/DocIndexCommand.java:85-94 | the options pass exactly with a list file and one key; a missing list file is the usage error "list file must be provided" |
| DocIndexModel.ResolveOutput | zbynek-legal-format/src/main/java/com/github/kvr000/zbyneklegal/format/command/DocIndexCommand.java:290-302 | an explicit output is used; otherwise no key is IOException, a failing FILES lookup passes its error on, and an empty or missing FILES value is IllegalArgumentException "output must be provided" |
| DocIndexModel.AppendPages | zbynek-legal-format/src/main/java/com/github/kvr000/zbyneklegal/format/command/DocIndexCommand.java:139-142 | the appending loop produces exactly the output followed by the padded pages |
| DocIndexModel.StampPages | zbynek-legal-format/src/main/java/com/github/kvr000/zbyneklegal/format/command/DocIndexCommand.java:145-153 | the stamping loop produces exactly the stamped pages |
| DocIndexModel.FileOne | zbynek-legal-format/src/main/java/com/github/kvr000/zbyneklegal/format/command/DocIndexCommand.java:132-155 | the filing code computes exactly FileInto |
| DocIndexModel.StepOne | zbynek-legal-format/src/main/java/com/github/kvr000/zbyneklegal/format/command/DocIndexCommand.java:120-157 | one iteration of the loop body computes exactly StepFile |
| DocIndexModel.FileAll | zbynek-legal-format/src/main/java/com/github/kvr000/zbyneklegal/format/command/DocIndexCommand.java:116-157 | the loop over the files computes exactly RunFiles from the initial categories |
| ExhibitId.Label | zbynek-legal-format/src/main/java/com/github/kvr000/zbyneklegal/format/command/DocIndexCommand.java:175-180 | a counter in 0..675 gets two upper-case letters, the first its quotient and the second its remainder by 26; any label produced has two characters; a first code point outside 0..U+10FFFF is IllegalFormatCodePointException with Java's "Code point = 0x..." message |
| ExhibitId.ParseExhibitId | zbynek-legal-format/src/main/java/com/github/kvr000/zbyneklegal/format/command/JoinExhibitCommand.java:700-714 | succeeds exactly on a non-empty upper-case letter sequence, giving its base-26 value as a 32-bit int; an empty id or another character is IllegalArgumentException |
| ExhibitId.LeadingAIgnored | zbynek-legal-format/src/main/java/com/github/kvr000/zbyneklegal/format/command/JoinExhibitCommand.java:700-714 | a leading "A" (digit zero) does not change the parsed value |
| ExhibitId.LeadingAExamples | zbynek-legal-format/src/main/java/com/github/kvr000/zbyneklegal/format/command/JoinExhibitCommand.java:700-714 | "A", "AA" and "AAA" all parse to 0 |
| ExhibitId.ExhibitValueOfLabel | zbynek-legal-format/src/main/java/com/github/kvr000/zbyneklegal/format/command/JoinExhibitCommand.java:645 | parseExhibitId reads every label of a counter in 0..675 back as that counter |
| ExhibitId.LabelInjective | zbynek-legal-format/src/main/java/com/github/kvr000/zbyneklegal/format/command/JoinExhibitCommand.java:645 | distinct counters in 0..675 get distinct labels |
| ExhibitId.LabelBeyondMaxCodePoint | zbynek-legal-format/src/main/java/com/github/kvr000/zbyneklegal/format/command/JoinExhibitCommand.java:645 | counter 28965222 makes the first code point U+110000, and String.format fails with "Code point = 0x110000" |
| ExhibitId.LabelNegativeCodePoint | zbynek-legal-format/src/main/java/com/github/kvr000/zbyneklegal/format/command/JoinExhibitCommand.java:645 | counter -1716 makes the first code point -1, reported as "Code point = 0xffffffff" |
| ExhibitId.LabelOutsideRange | zbynek-legal-format/src/main/java/com/github/kvr000/zbyneklegal/format/command/JoinExhibitCommand.java:645 | counters outside 0..675 are labelled without range check: -1 gives "A@" and 676 gives "[A" |
| ExhibitId.ExhibitValueWraps | zbynek-legal-format/src/main/java/com/github/kvr000/zbyneklegal/format/command/JoinExhibitCommand.java:706-711 | the accumulation wraps at 32 bits: "ZZZZZZZ" parses to -558124417 |
| FileNames.RemoveExtension | zbynek-legal-format/src/main/java/com/github/kvr000/zbyneklegal/format/command/PdfSplitCommand.java:140 | the name loses exactly "." and its extension when it has one after the last separator, and is unchanged otherwise |
| FileNames.NumberedNameKeepsExtension | zbynek-legal-format/src/main/java/com/github/kvr000/zbyneklegal/format/command/PdfSplitCommand.java:140 | every numbered part name has the output's own extension |
| FileNames.NumberedNameInjective | zbynek-legal-format/src/main/java/com/github/kvr000/zbyneklegal/format/command/ZipCommand.java:124 | different part numbers give different file names, so no part overwrites another |
| JoinExhibitModel.FindPdfFile | zbynek-legal-format/src/main/java/com/github/kvr000/zbyneklegal/format/command/JoinExhibitCommand.java:631-641 | the file is found exactly when the name or the name with ".pdf" exists, preferring the name itself; otherwise FileNotFoundException "File not found: <name>" |
| JoinExhibitModel.StartPage | zbynek-legal-format/src/main/java/com/github/kvr000/zbyneklegal/format/command/JoinExhibitCommand.java:302-309 | with no -a the first page number is 1; with -a the base page count is subtracted in 32-bit `int` arithmetic, and adding it back (as the first appended page's stamp does) gives exactly the -a value |
| JoinExhibitModel.AppendInput | zbynek-legal-format/src/main/java/com/github/kvr000/zbyneklegal/format/command/JoinExhibitCommand.java:338-351 | appending an input adds its pages in order, each numbered from the running counter and the first marked with the exhibit label, and advances the counter by the page count |
| JoinExhibitModel.StepOne | zbynek-legal-format/src/main/java/com/github/kvr000/zbyneklegal/format/command/JoinExhibitCommand.java:319-358 | one iteration of the input loop computes the step function: a missing file is recorded or rethrown depending on -i, a found one is appended |
| JoinExhibitModel.AssembleInputs | zbynek-legal-format/src/main/java/com/github/kvr000/zbyneklegal/format/command/JoinExhibitCommand.java:317-358 | the input loop over all entries from the base pages and the first exhibit computes the run function |
| JoinExhibitModel.StepEntryShape | zbynek-legal-format/src/main/java/com/github/kvr000/zbyneklegal/format/command/JoinExhibitCommand.java:319-358 | one entry fails exactly when it is missing without -i or needs a label it cannot print; otherwise it adds its page count to the counter and the pages, one exhibit when non-empty, one entry, and keeps what came before |
| JoinExhibitModel.StepEntryCounts | zbynek-legal-format/src/main/java/com/github/kvr000/zbyneklegal/format/command/JoinExhibitCommand.java:335-351 | a successful step advances the page counter and the pages by the file's page count and the exhibit counter by one for a non-empty file |
| JoinExhibitModel.StepEntryOk | zbynek-legal-format/src/main/java/com/github/kvr000/zbyneklegal/format/command/JoinExhibitCommand.java:322-331 | a step succeeds exactly when its failure conditions do not hold |
| JoinExhibitModel.RunEntriesPasses | zbynek-legal-format/src/main/java/com/github/kvr000/zbyneklegal/format/command/JoinExhibitCommand.java:319-358 | a successful run means every entry passed at its own exhibit counter |
| JoinExhibitModel.RunEntriesCompletes | zbynek-legal-format/src/main/java/com/github/kvr000/zbyneklegal/format/command/JoinExhibitCommand.java:319-358 | when every entry passes at its exhibit counter the run succeeds |
| JoinExhibitModel.RunEntriesOk | zbynek-legal-format/src/main/java/com/github/kvr000/zbyneklegal/format/command/JoinExhibitCommand.java:319-358 | the input loop completes exactly when every entry passes |
| JoinExhibitModel.RunEntriesTotals | zbynek-legal-format/src/main/java/com/github/kvr000/zbyneklegal/format/command/JoinExhibitCommand.java:319-358 | after the loop the counter and pages grew by the total page count of the found files, the exhibit counter by the number of non-empty ones, one entry per input, earlier pages and entries unchanged |
| JoinExhibitModel.RunEntriesNumbered | zbynek-legal-format/src/main/java/com/github/kvr000/zbyneklegal/format/command/JoinExhibitCommand.java:336-349 | every appended page carries the number firstPage plus its position in the joined document, wrapped to 32 bits as Java `int` addition is |
| JoinExhibitModel.FirstPageNumbers | zbynek-legal-format/src/main/java/com/github/kvr000/zbyneklegal/format/command/JoinExhibitCommand.java:302-309 | with -a, the appended pages are stamped the -a value, the value plus one and so on in `int` arithmetic, so a page after INT_MAX is stamped INT_MIN |
| JoinExhibitModel.RunEntriesHead | zbynek-legal-format/src/main/java/com/github/kvr000/zbyneklegal/format/command/JoinExhibitCommand.java:335-347 | the first entry is placed at the counter it started from, with its exhibit label on that page |
| JoinExhibitModel.RunEntriesSplit | zbynek-legal-format/src/main/java/com/github/kvr000/zbyneklegal/format/command/JoinExhibitCommand.java:319-358 | running the loop over a prefix and then over the rest is running it over the whole list |
| JoinExhibitModel.RunEntriesEntry | zbynek-legal-format/src/main/java/com/github/kvr000/zbyneklegal/format/command/JoinExhibitCommand.java:319-358 | entry i starts at the base page count plus the pages of the entries before it, gets the label of the exhibit counter plus the non-empty entries before it, and that page carries the label; a missing one records its error |
| JoinExhibitModel.UrlPages | zbynek-legal-format/src/main/java/com/github/kvr000/zbyneklegal/format/command/JoinExhibitCommand.java:360-365 | the URL map succeeds exactly when no URL is repeated, and then holds exactly the entries' URLs; a repeat is IllegalArgumentException |
| JoinExhibitModel.UrlPagesValues | zbynek-legal-format/src/main/java/com/github/kvr000/zbyneklegal/format/command/JoinExhibitCommand.java:360-365 | each entry's URL maps to that entry's internal page number |
| JoinExhibitModel.Retargeted | zbynek-legal-format/src/main/java/com/github/kvr000/zbyneklegal/format/command/JoinExhibitCommand.java:370-384 | a URI link whose URL maps to a page number of at least 0 becomes a go-to of that page; every other annotation is unchanged |
| JoinExhibitModel.RetargetPage | zbynek-legal-format/src/main/java/com/github/kvr000/zbyneklegal/format/command/JoinExhibitCommand.java:370-385 | the annotations of a page are retargeted one by one, failing with IndexOutOfBounds exactly when a target page does not exist |
| JoinExhibitModel.RetargetLinks | zbynek-legal-format/src/main/java/com/github/kvr000/zbyneklegal/format/command/JoinExhibitCommand.java:366-387 | only the base pages have their links retargeted; the other pages and all page attributes are unchanged; a target beyond the document is IndexOutOfBounds |
| JoinExhibitModel.RetargetedByEntry | zbynek-legal-format/src/main/java/com/github/kvr000/zbyneklegal/format/command/JoinExhibitCommand.java:360-384 | a link to an entry's URL goes to that entry's first page when it was placed, and stays when it was not |
| JoinExhibitModel.RetargetedUnknownUrl | zbynek-legal-format/src/main/java/com/github/kvr000/zbyneklegal/format/command/JoinExhibitCommand.java:375 | a link to a URL of no entry is unchanged |
| JoinExhibitModel.RetargetedIdempotent | zbynek-legal-format/src/main/java/com/github/kvr000/zbyneklegal/format/command/JoinExhibitCommand.java:370-384 | retargeting twice is retargeting once |
| JoinExhibitModel.ListEntryOf | zbynek-legal-format/src/main/java/com/github/kvr000/zbyneklegal/format/command/JoinExhibitCommand.java:500-523 | a list row becomes an unassigned entry with its name and URL, failing exactly when its Sworn Pos is malformed, with the wrapped message |
| JoinExhibitModel.ReadListFile | zbynek-legal-format/src/main/java/com/github/kvr000/zbyneklegal/format/command/JoinExhibitCommand.java:495-526 | the list file gives one unassigned entry per row in order, failing with IllegalArgument exactly when a row fails |
| JoinExhibitModel.InputsOf | zbynek-legal-format/src/main/java/com/github/kvr000/zbyneklegal/format/command/JoinExhibitCommand.java:285-291 | the command-line inputs become unassigned entries in order exactly when no name repeats; a repeat is "File specified twice: " and the entry's identity |
| JoinExhibitConfig.Chosen | zbynek-legal-format/src/main/java/com/github/kvr000/zbyneklegal/format/command/JoinExhibitCommand.java:556-569 | "swear" and "affirm" choose the two built-in sworn texts and an exhibitTemplateText entry chooses its own value |
| JoinExhibitConfig.ReadIndexConfig | zbynek-legal-format/src/main/java/com/github/kvr000/zbyneklegal/format/command/JoinExhibitCommand.java:542-575 | a missing config sheet leaves the sworn text unchanged, any other readSheet failure propagates, and otherwise the loop over the entries in row order gives the result of the specification function ConfigFrom |
| JoinExhibitConfig.ConfigKeepsSet | zbynek-legal-format/src/main/java/com/github/kvr000/zbyneklegal/format/command/JoinExhibitCommand.java:552-574 | once a sworn text is set it is kept, and the loop succeeds exactly when every entry has a "value" cell and one of the two known keys |
| JoinExhibitConfig.ConfigOutcome | zbynek-legal-format/src/main/java/com/github/kvr000/zbyneklegal/format/command/JoinExhibitCommand.java:552-574 | the loop succeeds exactly when every entry is known and has a value and, with nothing set before, the first entry is a template text or names swear or affirm; the result is the earlier sworn text or else the first entry's choice |
| JoinExhibitConfig.UnknownKeyFails | zbynek-legal-format/src/main/java/com/github/kvr000/zbyneklegal/format/command/JoinExhibitCommand.java:571-572 | an entry with any other key fails the run with IOException, even after the sworn text is set |
| JoinExhibitModel.BaseNumbering | zbynek-legal-format/src/main/java/com/github/kvr000/zbyneklegal/format/command/JoinExhibitCommand.java:269-280 | -e and -a win over the BASE row; a blank cell leaves the value unset; a malformed Exh cell is IllegalArgument and a malformed Pg cell is the parseInt error |
| JoinExhibitModel.BaseLabelRoundTrip | zbynek-legal-format/src/main/java/com/github/kvr000/zbyneklegal/format/command/JoinExhibitCommand.java:269-274 | a BASE Exh cell holding a label written for counter c yields first exhibit c |
| JoinExhibitModel.StartsWithinPages | zbynek-legal-format/src/main/java/com/github/kvr000/zbyneklegal/format/command/JoinExhibitCommand.java:335 | every entry's internal page number is -1 or within the joined document |
| JoinExhibitModel.Starts | zbynek-legal-format/src/main/java/com/github/kvr000/zbyneklegal/format/command/JoinExhibitCommand.java:407 | the first pages of the exhibits, one per entry, in entry order |
| JoinExhibitModel.Execute | zbynek-legal-format/src/main/java/com/github/kvr000/zbyneklegal/format/command/JoinExhibitCommand.java:298-440 | the join fails with the loop's error, the duplicate-URL error or a missing link target, and otherwise yields the entries and the retargeted pages, reduced to the extract selection when one is given; the extract step is the corrected single mode of the second Findings row |
| JoinExhibitModel.KeyWrites | zbynek-legal-format/src/main/java/com/github/kvr000/zbyneklegal/format/command/JoinExhibitCommand.java:532-536 | each key writes two cells of the entry: "<key> Pg" and "<key> Exh" |
| JoinExhibitModel.KeyWritesReadBack | zbynek-legal-format/src/main/java/com/github/kvr000/zbyneklegal/format/command/JoinExhibitCommand.java:534-535 | the Pg cell reads back as the page number and the Exh cell is the exhibit id, or "-" when there is none |
| JoinExhibitModel.UnassignedWriteBack | zbynek-legal-format/src/main/java/com/github/kvr000/zbyneklegal/format/command/JoinExhibitCommand.java:534-535 | an entry that was never placed writes page "-1" and exhibit "-" |
| JoinExhibitModel.EntryWrites | zbynek-legal-format/src/main/java/com/github/kvr000/zbyneklegal/format/command/JoinExhibitCommand.java:531-537 | an entry writes exactly the cells of the keys whose exhibit column includes it |
| JoinExhibitModel.WriteBack | zbynek-legal-format/src/main/java/com/github/kvr000/zbyneklegal/format/command/JoinExhibitCommand.java:528-540 | the list update writes exactly the cells some entry writes |
| JoinExhibitModel.MissingWrittenBack | zbynek-legal-format/src/main/java/com/github/kvr000/zbyneklegal/format/command/JoinExhibitCommand.java:324-329 | with -i a missing file included under a key is written back as page -1 and exhibit "-" |
| JoinExhibitExtract.ParseExtract | zbynek-legal-format/src/main/java/com/github/kvr000/zbyneklegal/format/command/JoinExhibitCommand.java:122-135 | --extract accepts exactly the five command names and otherwise is IllegalArgumentException with the listed values |
| JoinExhibitExtract.ParseExtractName | zbynek-legal-format/src/main/java/com/github/kvr000/zbyneklegal/format/command/JoinExhibitCommand.java:122-135 | every command's name parses back to that command |
| JoinExhibitExtract.Insert | zbynek-legal-format/src/main/java/com/github/kvr000/zbyneklegal/format/command/JoinExhibitCommand.java:391 | adding to the reverse-ordered set keeps it strictly descending and adds exactly the element |
| JoinExhibitExtract.PlanExtract | zbynek-legal-format/src/main/java/com/github/kvr000/zbyneklegal/format/command/JoinExhibitCommand.java:389-418 | the selected pages are strictly descending and are exactly those first, last and exhibit-first select; pair mode holds exactly when every "single" is followed by a "pair-even" |
| JoinExhibitExtract.ClearLowBit | zbynek-legal-format/src/main/java/com/github/kvr000/zbyneklegal/format/command/JoinExhibitCommand.java:423-427 | x & ~1 is the even number at or just below x |
| JoinExhibitExtract.RemoveDown | zbynek-legal-format/src/main/java/com/github/kvr000/zbyneklegal/format/command/JoinExhibitCommand.java:432-438 | removing pages from the top down to a bound keeps the pages below the bound and those at or above the top |
| JoinExhibitExtract.ExtractPairs | zbynek-legal-format/src/main/java/com/github/kvr000/zbyneklegal/format/command/JoinExhibitCommand.java:420-429 | pair-even extraction keeps exactly the pages whose even-odd pair holds a selected page |
| JoinExhibitExtract.ExtractSingles | zbynek-legal-format/src/main/java/com/github/kvr000/zbyneklegal/format/command/JoinExhibitCommand.java:431-439 | single extraction (with the removal loop stopping below each selected page) keeps exactly the selected pages |
| JoinExhibitExtract.ExtractSinglesAsWritten | zbynek-legal-format/src/main/java/com/github/kvr000/zbyneklegal/format/command/JoinExhibitCommand.java:431-439 | the single loop as written keeps, below each selected page, the page just under the previous bound |
| JoinExhibitExtract.ExtractPages | zbynek-legal-format/src/main/java/com/github/kvr000/zbyneklegal/format/command/JoinExhibitCommand.java:389-440 | no --extract keeps the document; otherwise it keeps exactly the selected pages (single mode as corrected in the second Findings row), or their pairs in pair mode |
| JoinExhibitExtract.PairsComeInPairs | zbynek-legal-format/src/main/java/com/github/kvr000/zbyneklegal/format/command/JoinExhibitCommand.java:420-429 | on an even-length document pair extraction keeps an even number of pages |
| JoinExhibitExtract.SinglesArePaired | zbynek-legal-format/src/main/java/com/github/kvr000/zbyneklegal/format/command/JoinExhibitCommand.java:420-436 | every page single mode would keep pair mode keeps too |
| JoinExhibitExtract.SinglesAgree | zbynek-legal-format/src/main/java/com/github/kvr000/zbyneklegal/format/command/JoinExhibitCommand.java:431-439 | when the page count is not itself selected the written single loop keeps exactly the selected pages |
| JoinExhibitExtract.SingleKeepsUnselectedPage | zbynek-legal-format/src/main/java/com/github/kvr000/zbyneklegal/format/command/JoinExhibitCommand.java:431-439 | for a two-page document whose selection holds 2 (the start of an empty last exhibit, one past the end) the written loop keeps page 1, which is not selected, where nothing should be kept |
| PdfJoinModel.ParseAlign | zbynek-legal-format/src/main/java/com/github/kvr000/zbyneklegal/format/command/PdfJoinCommand.java:55-61 | --align accepts exactly a parseable non-negative int; a negative one is IllegalArgumentException "align must not be negative" and an unparseable one the parseInt error |
| PdfJoinModel.ParsePosition | zbynek-legal-format/src/main/java/com/github/kvr000/zbyneklegal/format/command/PdfJoinCommand.java:66-73 | -p succeeds exactly when the value holds a comma, splitting it at the first one into x and y |
| PdfJoinModel.ValidateJoin | zbynek-legal-format/src/main/java/com/github/kvr000/zbyneklegal/format/command/PdfJoinCommand.java:91-105 | the command continues exactly when an output and at least one input are given, with the usage message of the first missing one otherwise |
| PdfJoinModel.PatternOf | zbynek-legal-format/src/main/java/com/github/kvr000/zbyneklegal/format/command/PdfJoinCommand.java:100-102 | the page pattern is -f when given and "Pg %03d" otherwise |
| PdfJoinModel.NextMultiple | zbynek-legal-format/src/main/java/com/github/kvr000/zbyneklegal/format/command/PdfJoinCommand.java:138-142 | the padding loop stops at the first multiple of the alignment above a non-multiple, fewer than align pages later |
| PdfJoinModel.Pad | zbynek-legal-format/src/main/java/com/github/kvr000/zbyneklegal/format/command/PdfJoinCommand.java:138-142 | padding reaches the first multiple of align at or after the page count (no change when align is at most 1) |
| PdfJoinModel.AlignedRanges | zbynek-legal-format/src/main/java/com/github/kvr000/zbyneklegal/format/command/PdfJoinCommand.java:138-144 | with align above 1 each input's range ends at a multiple of align, less than align pages after its content |
| PdfJoinModel.Put | zbynek-legal-format/src/main/java/com/github/kvr000/zbyneklegal/format/command/PdfJoinCommand.java:144 | LinkedHashMap.put: the value is replaced, and a key is appended to the order only on its first insertion |
| PdfJoinModel.FirstAppearances | zbynek-legal-format/src/main/java/com/github/kvr000/zbyneklegal/format/command/PdfJoinCommand.java:112-144 | the report order lists each input name once, exactly the names given |
| PdfJoinModel.FirstAppearancesOrdered | zbynek-legal-format/src/main/java/com/github/kvr000/zbyneklegal/format/command/PdfJoinCommand.java:112-144 | the report lists names in the order of their first appearance on the command line |
| PdfJoinModel.RangeOf | zbynek-legal-format/src/main/java/com/github/kvr000/zbyneklegal/format/command/PdfJoinCommand.java:125-144 | an input's reported range starts where its pages start and reaches the start of the next, so it covers its content and its padding |
| PdfJoinModel.ReportedStep | zbynek-legal-format/src/main/java/com/github/kvr000/zbyneklegal/format/command/PdfJoinCommand.java:143-144 | each put keeps the report keyed by first appearances, with each name mapped to the range of its last occurrence |
| PdfJoinModel.ReportLines | zbynek-legal-format/src/main/java/com/github/kvr000/zbyneklegal/format/command/PdfJoinCommand.java:153-155 | one TSV line per reported name in order: the name, the 1-based start page and the range size; the fields are formatted with the closing quote of the third Findings row |
| PdfJoinModel.StampPages | zbynek-legal-format/src/main/java/com/github/kvr000/zbyneklegal/format/command/PdfJoinCommand.java:127-137 | the stamping loop keeps every page's content, numbers each page from the counter on with firstPage plus its index as a 32-bit int unless skipped, leaves the others, and leaves the counter at the page count |
| PdfJoinModel.PadPages | zbynek-legal-format/src/main/java/com/github/kvr000/zbyneklegal/format/command/PdfJoinCommand.java:138-142 | padding keeps the pages and appends blank unnumbered pages up to the padded count |
| PdfJoinModel.JoinInput | zbynek-legal-format/src/main/java/com/github/kvr000/zbyneklegal/format/command/PdfJoinCommand.java:120-147 | one input appends its pages after the earlier ones, stamps, pads, and keeps the layout and stamp invariant |
| PdfJoinModel.JoinNext | zbynek-legal-format/src/main/java/com/github/kvr000/zbyneklegal/format/command/PdfJoinCommand.java:120-147 | one iteration keeps both the page invariant and the report invariant |
| PdfJoinModel.Join | zbynek-legal-format/src/main/java/com/github/kvr000/zbyneklegal/format/command/PdfJoinCommand.java:112-149 | the joined document holds the existing pages, then each input's pages followed by its padding; every page carries the stamp the numbering rule gives; the report maps each name to its last range |
| PdfJoinModel.SkipFirstStillCounts | zbynek-legal-format/src/main/java/com/github/kvr000/zbyneklegal/format/command/PdfJoinCommand.java:128-131 | with --skip-first the first input's pages are unnumbered, yet they still count, so the second input's first page is numbered firstPage plus its index |
| PdfJoinModel.LastPaddingUnstamped | zbynek-legal-format/src/main/java/com/github/kvr000/zbyneklegal/format/command/PdfJoinCommand.java:127-142 | the padding after the last input is never numbered |
| PdfJoinModel.EarlierPaddingStamped | zbynek-legal-format/src/main/java/com/github/kvr000/zbyneklegal/format/command/PdfJoinCommand.java:127-142 | padding after an input other than the last is numbered by the next input's loop, since the counter stops before the padding |
| PdfReplaceModel.ParseMove | zbynek-legal-format/src/main/java/com/github/kvr000/zbyneklegal/format/command/PdfReplaceCommand.java:48-57 | -m d=s gives the move of input page s to d and -m d the move of page d to d; it fails exactly when a part is not an int |
| PdfReplaceModel.ParseAdd | zbynek-legal-format/src/main/java/com/github/kvr000/zbyneklegal/format/command/PdfReplaceCommand.java:58-62 | -a d gives the blank insertion at d and fails exactly when d is not an int |
| PdfReplaceModel.ParseMoveOfText | zbynek-legal-format/src/main/java/com/github/kvr000/zbyneklegal/format/command/PdfReplaceCommand.java:48-57 | the printed forms d=s and d parse back to their moves |
| PdfReplaceModel.ApplyArg | zbynek-legal-format/src/main/java/com/github/kvr000/zbyneklegal/format/command/PdfReplaceCommand.java:42-94 | -m and -a append their parsed operation, failing exactly when it does not parse; the other options leave the operations alone |
| PdfReplaceModel.OperationsInOrder | zbynek-legal-format/src/main/java/com/github/kvr000/zbyneklegal/format/command/PdfReplaceCommand.java:131-138 | the parsed options list exactly the command line's operations in order, and parsing fails exactly when one of them fails |
| PdfReplaceModel.OperationsOfAppend | zbynek-legal-format/src/main/java/com/github/kvr000/zbyneklegal/format/command/PdfReplaceCommand.java:48-62 | the operations of two argument lists joined are the operations of each, joined |
| PdfReplaceModel.MetaKept | zbynek-legal-format/src/main/java/com/github/kvr000/zbyneklegal/format/command/PdfReplaceCommand.java:71-90 | a meta key no later option names keeps its value |
| PdfReplaceModel.ExplicitMetaLastWins | zbynek-legal-format/src/main/java/com/github/kvr000/zbyneklegal/format/command/PdfReplaceCommand.java:71-90 | the last --title, --author, --subject or --delete-meta naming a key decides its value, with --delete-meta giving null |
| PdfReplaceModel.ValidateReplace | zbynek-legal-format/src/main/java/com/github/kvr000/zbyneklegal/format/command/PdfReplaceCommand.java:97-111 | continues exactly with an output, with -i or some meta option, and with -i whenever an operation moves a page; otherwise the matching usage message |
| PdfReplaceModel.BasePages | zbynek-legal-format/src/main/java/com/github/kvr000/zbyneklegal/format/command/PdfReplaceCommand.java:120-121 | the output starts as the base document's pages in order |
| PdfReplaceModel.InsertBlank | zbynek-legal-format/src/main/java/com/github/kvr000/zbyneklegal/format/command/PdfReplaceCommand.java:132-133 | inserting a blank page at d keeps the pages before d, puts the blank at d and shifts the rest; d outside 0..n fails |
| PdfReplaceModel.ReplaceAt | zbynek-legal-format/src/main/java/com/github/kvr000/zbyneklegal/format/command/PdfReplaceCommand.java:136 | replacing page i changes exactly page i; an index outside the document fails |
| PdfReplaceModel.Insertions | zbynek-legal-format/src/main/java/com/github/kvr000/zbyneklegal/format/command/PdfReplaceCommand.java:142-146 | the operations kept without an input are exactly the insertions |
| PdfReplaceModel.WithoutInputOnlyInsertions | zbynek-legal-format/src/main/java/com/github/kvr000/zbyneklegal/format/command/PdfReplaceCommand.java:127-147 | without -i the operations act as their insertions alone, as with an input |
| PdfReplaceModel.AppliedCount | zbynek-legal-format/src/main/java/com/github/kvr000/zbyneklegal/format/command/PdfReplaceCommand.java:131-146 | a successful run adds one page per insertion and keeps the count otherwise |
| PdfReplaceModel.RunOne | zbynek-legal-format/src/main/java/com/github/kvr000/zbyneklegal/format/command/PdfReplaceCommand.java:131-146 | one operation inserts a blank, or replaces page d-1 by input page s-1 with IndexOutOfBounds for a missing input page; without input only insertions act |
| PdfReplaceModel.ApplyOperations | zbynek-legal-format/src/main/java/com/github/kvr000/zbyneklegal/format/command/PdfReplaceCommand.java:127-147 | the operation loop computes the operations applied in order, stopping at the first failure |
| PdfReplaceModel.AppliedStopsAtError | zbynek-legal-format/src/main/java/com/github/kvr000/zbyneklegal/format/command/PdfReplaceCommand.java:131-146 | once an operation fails the later ones do not change the outcome |
| PdfReplaceModel.MergedMeta | zbynek-legal-format/src/main/java/com/github/kvr000/zbyneklegal/format/command/PdfReplaceCommand.java:122-161 | the metadata holds the explicit options, else the --meta-from values, else the base's when not replaced or deleted |
| PdfReplaceModel.SetValue | zbynek-legal-format/src/main/java/com/github/kvr000/zbyneklegal/format/command/PdfReplaceCommand.java:151-164 | setting a key to null removes it, to a value sets it, and other keys stay |
| PdfReplaceModel.WriteInfo | zbynek-legal-format/src/main/java/com/github/kvr000/zbyneklegal/format/command/PdfReplaceCommand.java:151-164 | the written information holds exactly the metadata keys with a non-null value, with those values |
| PdfReplaceModel.Execute | zbynek-legal-format/src/main/java/com/github/kvr000/zbyneklegal/format/command/PdfReplaceCommand.java:113-168 | the replace succeeds exactly when the operations apply to the base pages, yielding those pages and the merged metadata |
| PdfReplaceModel.ReplaceExample | zbynek-legal-format/src/main/java/com/github/kvr000/zbyneklegal/format/command/PdfReplaceCommand.java:136 | -m 2=5 replaces the second page with the input's fifth and keeps the rest |
| PdfSplitModel.ResolveSettings | zbynek-legal-format/src/main/java/com/github/kvr000/zbyneklegal/format/command/PdfSplitCommand.java:44-91 | no inputs and no output are the two usage messages; the options fail exactly when -s is not a size or -p or -g not an int |
| PdfSplitModel.SettingsOf | zbynek-legal-format/src/main/java/com/github/kvr000/zbyneklegal/format/command/PdfSplitCommand.java:80-88 | an absent -s is Long.MAX_VALUE, -p Integer.MAX_VALUE and -g 2; given ones are their parsed values |
| PdfSplitModel.Starts | zbynek-legal-format/src/main/java/com/github/kvr000/zbyneklegal/format/command/PdfSplitCommand.java:99-106 | each input is keyed by the total page count of the inputs before it |
| PdfSplitModel.BuildPageMap | zbynek-legal-format/src/main/java/com/github/kvr000/zbyneklegal/format/command/PdfSplitCommand.java:99-106 | the page map keys every non-empty input at its first page (a later input with the same key replaces an empty one) and the total is the sum of the page counts |
| PdfSplitModel.PageMapFindsInput | zbynek-legal-format/src/main/java/com/github/kvr000/zbyneklegal/format/command/PdfSplitCommand.java:104-120 | the first page of every non-empty input leads back to that input |
| PdfSplitModel.Middle | zbynek-legal-format/src/main/java/com/github/kvr000/zbyneklegal/format/command/PdfSplitCommand.java:114-117 | the tried end is the high end or strictly between the low end and the high end |
| PdfSplitModel.PartEndBounds | zbynek-legal-format/src/main/java/com/github/kvr000/zbyneklegal/format/command/PdfSplitCommand.java:113-147 | the bisection ends past the start and within the high end, at a part that fits the size limit or is no longer than the pairing |
| PdfSplitModel.PartEndFits | zbynek-legal-format/src/main/java/com/github/kvr000/zbyneklegal/format/command/PdfSplitCommand.java:113-147 | when every part fits the size limit the bisection takes the whole window |
| PdfSplitModel.WindowAtStart | zbynek-legal-format/src/main/java/com/github/kvr000/zbyneklegal/format/command/PdfSplitCommand.java:110-111 | from any start the low end and high end form a valid window, and the high end is start plus -p capped at the total |
| PdfSplitModel.PartsTile | zbynek-legal-format/src/main/java/com/github/kvr000/zbyneklegal/format/command/PdfSplitCommand.java:108-149 | the parts cover the pages from the start to the total without gap or overlap, each at most -p pages, each within the size limit or at most -g pages |
| PdfSplitModel.PartsFit | zbynek-legal-format/src/main/java/com/github/kvr000/zbyneklegal/format/command/PdfSplitCommand.java:108-149 | when every part fits the size limit each part is -p pages or the rest of the document |
| PdfSplitModel.DefaultsGiveOnePart | zbynek-legal-format/src/main/java/com/github/kvr000/zbyneklegal/format/command/PdfSplitCommand.java:80-88 | with the default settings and any size the document is one part |
| PdfSplitModel.TenPagesByFour | zbynek-legal-format/src/main/java/com/github/kvr000/zbyneklegal/format/command/PdfSplitCommand.java:108-149 | ten pages with -p 4 give pages 0-4 4-8 8-10 |
| PdfSplitModel.FivePagesAllOversize | zbynek-legal-format/src/main/java/com/github/kvr000/zbyneklegal/format/command/PdfSplitCommand.java:108-149 | five pages all over the size limit with -g 2 give single pages and then a final pair |
| PdfSplitModel.FindEnd | zbynek-legal-format/src/main/java/com/github/kvr000/zbyneklegal/format/command/PdfSplitCommand.java:113-147 | the inner loop computes the bisection's part end |
| PdfSplitModel.PartsFromStep | zbynek-legal-format/src/main/java/com/github/kvr000/zbyneklegal/format/command/PdfSplitCommand.java:140-145 | each saved part runs from the current start to the found end, and splitting resumes there |
| PdfSplitModel.SplitParts | zbynek-legal-format/src/main/java/com/github/kvr000/zbyneklegal/format/command/PdfSplitCommand.java:107-149 | the outer loop yields exactly the parts the splitting function gives, tiling the document and within the limits |
| PdfSplitModel.Split | zbynek-legal-format/src/main/java/com/github/kvr000/zbyneklegal/format/command/PdfSplitCommand.java:94-154 | a zero -g over a non-empty document is ArithmeticException "/ by zero"; otherwise the parts tile the document as the splitting function gives |
| AddPageNumbersModel.Interval | zbynek-legal-format/src/main/java/com/github/kvr000/zbyneklegal/format/command/AddPageNumbersCommand.java:55 | IntStream.rangeClosed: exactly the ints from low to high |
| AddPageNumbersModel.ParseMarkItem | zbynek-legal-format/src/main/java/com/github/kvr000/zbyneklegal/format/command/AddPageNumbersCommand.java:51-62 | an item with "-" is the closed range between its two ints and one without is that int; it fails exactly when a part is not an int |
| AddPageNumbersModel.LeadingDashFails | zbynek-legal-format/src/main/java/com/github/kvr000/zbyneklegal/format/command/AddPageNumbersCommand.java:53-55 | an item starting with "-" (a negative number) always fails, its empty left part not being an int |
| AddPageNumbersModel.DescendingRangeIsEmpty | zbynek-legal-format/src/main/java/com/github/kvr000/zbyneklegal/format/command/AddPageNumbersCommand.java:55 | a range whose end is below its start marks nothing |
| AddPageNumbersModel.ParseMarkItems | zbynek-legal-format/src/main/java/com/github/kvr000/zbyneklegal/format/command/AddPageNumbersCommand.java:51-62 | a comma list succeeds exactly when every item parses |
| AddPageNumbersModel.ParseMarkItemsUnion | zbynek-legal-format/src/main/java/com/github/kvr000/zbyneklegal/format/command/AddPageNumbersCommand.java:51-62 | the marked numbers are exactly those some item lists |
| AddPageNumbersModel.ValidateAddPageNumbers | zbynek-legal-format/src/main/java/com/github/kvr000/zbyneklegal/format/command/AddPageNumbersCommand.java:84-104 | continues exactly with inputs and an output, with the usage message of the first missing one otherwise |
| AddPageNumbersModel.Upright | zbynek-legal-format/src/main/java/com/github/kvr000/zbyneklegal/format/command/AddPageNumbersCommand.java:124-127 | a landscape page at rotation 0 or 180 is turned by 90; every other page keeps its rotation |
| AddPageNumbersModel.PlacedFile | zbynek-legal-format/src/main/java/com/github/kvr000/zbyneklegal/format/command/AddPageNumbersCommand.java:116-121 | each page of a file is placed with its 1-based file number and index |
| AddPageNumbersModel.Flat | zbynek-legal-format/src/main/java/com/github/kvr000/zbyneklegal/format/command/AddPageNumbersCommand.java:116-138 | every placed page is a page of the file and index it names |
| AddPageNumbersModel.NumberedPage | zbynek-legal-format/src/main/java/com/github/kvr000/zbyneklegal/format/command/AddPageNumbersCommand.java:121-134 | each output page keeps its file and index, is made upright, and is stamped exactly when marked, with the counter as it stands before it |
| AddPageNumbersModel.CounterCounts | zbynek-legal-format/src/main/java/com/github/kvr000/zbyneklegal/format/command/AddPageNumbersCommand.java:128-133 | the counter advances by one per page plus one more per stamped page |
| AddPageNumbersModel.UnfilteredNumbers | zbynek-legal-format/src/main/java/com/github/kvr000/zbyneklegal/format/command/AddPageNumbersCommand.java:128-133 | with no -p and no -f every page is stamped and page k gets the first number plus 2k, as the counter advances twice per stamped page |
| AddPageNumbersModel.UnfilteredCounter | zbynek-legal-format/src/main/java/com/github/kvr000/zbyneklegal/format/command/AddPageNumbersCommand.java:128-133 | with no marks the counter ends at the first number plus twice the page count |
| AddPageNumbersModel.NumberedAppend | zbynek-legal-format/src/main/java/com/github/kvr000/zbyneklegal/format/command/AddPageNumbersCommand.java:121-134 | numbering one more page appends its output page and advances the counter by two when marked and one otherwise |
| AddPageNumbersModel.NumberPage | zbynek-legal-format/src/main/java/com/github/kvr000/zbyneklegal/format/command/AddPageNumbersCommand.java:122-133 | one page of the loop appends the numbering function's output page and counter |
| AddPageNumbersModel.NumberInput | zbynek-legal-format/src/main/java/com/github/kvr000/zbyneklegal/format/command/AddPageNumbersCommand.java:118-136 | one input's loop appends the numbering of its pages |
| AddPageNumbersModel.AddPageNumbers | zbynek-legal-format/src/main/java/com/github/kvr000/zbyneklegal/format/command/AddPageNumbersCommand.java:107-144 | the output is the numbering of all inputs' pages in order, and the counter ends where the numbering leaves it |
| ZipModel.ValidateZip | zbynek-legal-format/src/main/java/com/github/kvr000/zbyneklegal/format/command/ZipCommand.java:63-76 | continues exactly with -l and -o and not both -s and -a, with the usage message of the first failing check otherwise |
| ZipModel.ReadListFile | zbynek-legal-format/src/main/java/com/github/kvr000/zbyneklegal/format/command/ZipCommand.java:156-175 | a null header map (getHeaders() of a TSV index) is NullPointerException whatever the keys; without a Media column it fails with "Key not found in index file: Media"; otherwise one entry per selected row, with its name and Media cell |
| ZipModel.ReadListFileOverTsvTableFails | zbynek-legal-format/src/main/java/com/github/kvr000/zbyneklegal/format/command/ZipCommand.java:156-160 | as written, reading the list from any TSV index fails with NullPointerException, because that table's getHeaders() is null |
| ZipModel.FindFile | zbynek-legal-format/src/main/java/com/github/kvr000/zbyneklegal/format/command/ZipCommand.java:177-187 | the file is the name when it exists, else the name with ".pdf", else none |
| ZipModel.EntryFiles | zbynek-legal-format/src/main/java/com/github/kvr000/zbyneklegal/format/command/ZipCommand.java:89-112 | an entry contributes at most its found file and its existing media file |
| ZipModel.FileList | zbynek-legal-format/src/main/java/com/github/kvr000/zbyneklegal/format/command/ZipCommand.java:89-112 | every file to compress exists |
| ZipModel.FileListHasRowFiles | zbynek-legal-format/src/main/java/com/github/kvr000/zbyneklegal/format/command/ZipCommand.java:89-112 | every existing named file and media file of a row is in the list |
| ZipModel.BuildFileList | zbynek-legal-format/src/main/java/com/github/kvr000/zbyneklegal/format/command/ZipCommand.java:88-112 | the collection loop computes the file list |
| ZipModel.PackedStep | zbynek-legal-format/src/main/java/com/github/kvr000/zbyneklegal/format/command/ZipCommand.java:127-135 | adding a file the limit admits keeps every entry within the limit |
| ZipModel.GreedyStep | zbynek-legal-format/src/main/java/com/github/kvr000/zbyneklegal/format/command/ZipCommand.java:123-137 | closing a filled archive whose first file the previous one refused keeps the packing greedy |
| ZipModel.FillArchive | zbynek-legal-format/src/main/java/com/github/kvr000/zbyneklegal/format/command/ZipCommand.java:127-135 | one archive takes files from the front while the limit admits them, keeps the rest in order, and stops only at a file the limit refuses |
| ZipModel.PackStep | zbynek-legal-format/src/main/java/com/github/kvr000/zbyneklegal/format/command/ZipCommand.java:123-137 | each closed archive keeps the packing invariant: contents plus rest are the file list, names numbered, greedy |
| ZipModel.PackArchives | zbynek-legal-format/src/main/java/com/github/kvr000/zbyneklegal/format/command/ZipCommand.java:122-137 | the archives hold the files in order, are named output-0000 on, and each holds as many files as fit before the next |
| ZipModel.SingleArchive | zbynek-legal-format/src/main/java/com/github/kvr000/zbyneklegal/format/command/ZipCommand.java:139-150 | without -a all files go to the one output archive in order |
| ZipModel.Pack | zbynek-legal-format/src/main/java/com/github/kvr000/zbyneklegal/format/command/ZipCommand.java:114-150 | -s or no limit writes one archive of all files; -a packs them greedily into numbered archives; the files are kept in order either way |
| ZipModel.NumberedArchivesDistinct | zbynek-legal-format/src/main/java/com/github/kvr000/zbyneklegal/format/command/ZipCommand.java:123-124 | different archives get different file names |
| ZipModel.PackedWithinLimit | zbynek-legal-format/src/main/java/com/github/kvr000/zbyneklegal/format/command/ZipCommand.java:130 | the last file of every archive was admitted within the limit |

## Left out

- PDF content and geometry are not modelled: the text placement of page numbers and exhibit stamps, font metrics, the float comparisons of page width and height, and PDFBox content streams. A page records only the integer and string decisions: its source, its rotation, its page stamp and its exhibit stamp.
- Loading and saving files is not modelled (PDF load and save, CSV and XLSX reading and writing, ZIP output streams). A loaded PDF is its page count or page list, a CSV file is its header and lines, and a workbook is a list of named sheets.
- CSV parsing and printing are library work. `TsvTableUpdatorModel.TsvTableUpdator.Load` and `TsvUpdatorModel.TsvUpdator.Load` receive the parsed header and records; `Save` records the lines it would print.
- TsvTableUpdatorModel.Open: requires the header names to be distinct, and accepts a blank header name. The CSV parser's own treatment of these cases is library behaviour that is not modelled: by the defaults of `CSVFormat.DEFAULT`, a repeated name is accepted with its last column in the header map (so `save` drops the earlier column), and a blank name is IllegalArgumentException "A header name is missing in ...".
- TsvUpdatorModel.Open: the same: distinct header names are required, a blank name is accepted, and the parser's handling of both is not modelled.
- XlsTableUpdatorModel.Open: requires a well-formed workbook: no sheet row holds two cells in the same column, as in any workbook a spreadsheet library presents.
- XlsLayout.ConfigNames: a config name is upper-case ASCII letters 'A' to 'Z' only. `StringUtils.isAlpha` and `isAllUpperCase` accept any Unicode upper-case letters, so a Date cell such as "ÄB" names a config row in the source but not in the model.
- XlsLayout.FirstSheetNamed: sheet names are compared ignoring the case of ASCII letters only; `equalsIgnoreCase` also folds non-ASCII letters.
- XlsTableUpdatorModel.Open: a sheet row's cells are distinct by column but not required to be in ascending column order, as POI iterates them. So `XlsReadSheet.FirstOverflow` may name a different column in the out-of-bounds message than POI would, and `XlsTableUpdatorModel.UpsertRow` appends a new cell at the end of the row rather than at its column's place. Apart from that message, no lookup in the model depends on the order.
- The numeric branch of `XlsTableUpdator.getCellString` is not modelled: a cell carries its formatted text, precomputed.
- File lookup (`DirTreeFileDb`, `findPdfFile`, `findFile`, `Files.exists`) is an oracle: a map from file name to page count, or an existence predicate.
- Config lookups in the index (`NEEDURL`, `FILES`, `TABMAP`) are parameters of `DocIndexModel.FileAll` and `DocIndexModel.ResolveOutput`.
- `JoinExhibitCommand.readIndexConfig` is modelled as `JoinExhibitConfig.ReadIndexConfig`, which takes readSheet's entries in row order (or readSheet's failure) as a parameter. The sworn text it chooses feeds only the exhibit stamp's text template, which is not modelled, so `JoinExhibitModel.Execute` does not take it. Its failures (an entry without a "value" cell, a template name other than swear or affirm while no sworn text is set, any other key) abort the command before the join.
- `DocIndexCommand.readIndexConfig` reads the config sheet and discards it. Its only effect is that a readSheet failure other than a missing sheet (a missing "key" column, a repeated key) aborts the command before filing; that failure path is not modelled.
- `JoinExhibitCommand.readIndexIo` (output and base document from the `FILES` row) and `readSubstitutesTable`/`readSubstitutesTableAndDate` are not modelled. The base document and the options they would set are parameters of `JoinExhibitModel.Execute`.
- `StringSubstitutor` templating of the exhibit message, date formatting, the template check in `revalidateOptions` and the JSON logging of the exhibit map are not modelled (library string work and output).
- The `--code` mode of `JoinExhibitCommand` (`executeCode`) is not modelled.
- Rotation of landscape pages to portrait in `JoinExhibitCommand` and `DocIndexCommand` is not modelled, because it depends on page geometry.
- The floats of the "Sworn Pos" cell are not parsed. Only its split on ';' is checked (`DocIndexModel.SwornPosError`).
- JoinExhibitModel.InputsOf: the "File specified twice" message ends with the identity hash of the entry object (`Object.toString`); the model states only the message up to the '@'.
- JoinExhibitModel.Execute: uses the corrected single mode of `--extract` (`JoinExhibitExtract.ExtractSingles`, second Findings row). When the selection holds the page count, the source keeps the page below it and the model does not.
- JoinExhibitExtract.ExtractPages: uses the corrected single mode, for the same reason; the as-written loop is `JoinExhibitExtract.ExtractSinglesAsWritten`.
- PdfJoinModel.ReportLines: formats the fields with the corrected `TsvUtil.FormatTsvField` (third Findings row). For an input name holding a tab, a newline or '"', the source prints no closing quote and the model does.
- JoinExhibitModel.Execute: requires every entry to start unassigned (page -1, no exhibit id), which is how `readListFile` creates entries.
- Repeated `needArgsParam` options (an option given twice) are not modelled: each option is a value or absent.
- JavaText.ParseInt: `Integer.parseInt` and `Long.parseLong` are modelled over the ASCII digits '0' to '9' only. Java's `Character.digit` also accepts every other Unicode decimal digit, so "٣" parses to 3 in the source and is NumberFormatException in the model. This reaches every option and cell the model parses as a number (`PdfJoinModel.ParseAlign`, `PdfReplaceModel.ParseMove`, `AddPageNumbersModel.ParseMarkItem`, `PdfSplitModel.ResolveSettings`, `JoinExhibitModel.BaseNumbering` and the rest).
- ExhibitId.Label: for counters 1436006 to 1489253 the first code point is a surrogate (U+D800 to U+DFFF). Java's `%c` prints it as a lone surrogate char, but a Dafny character cannot hold one, so the model fails with IllegalFormat "Lone surrogate code point: ..." there. Code points outside 0 to U+10FFFF are modelled with Java's message (`ExhibitId.LabelBeyondMaxCodePoint`, `ExhibitId.LabelNegativeCodePoint`).
- JoinExhibitModel.RunEntriesNumbered: `internalPageCounter` is an unbounded integer. The page stamps and `pageNumber` wrap at 32 bits as in the source (adding a wrapped counter gives the same `int` sum), but the recorded `internalPageNumber` of an entry after more than 2^31 - 1 pages would wrap in the source and does not in the model.
- AddPageNumbersModel.AddPageNumbers: the page counter is an unbounded integer; the 32-bit wrap-around of Java `int` after 2^31 stamped pages is not modelled.
- The parsing of `-a` in `AddPageNumbersCommand` is not modelled: the first number is a parameter.
- PdfJoinModel.Join: the `-p` position floats are not parsed beyond the "x,y" shape, the `-f` pattern is not checked by `String.format`, and `--decompress` is not modelled.
- PdfReplaceModel.Execute: the document's initial info keys are a parameter; a null stored with `setCustomMetadataValue` is modelled as removing the key.
- The page copy loop of `PdfSplitCommand` (lines 119-131) is not modelled: the candidate document of a probe is the page range [start, middle), and its saved size is the parameter `sizeOf`. As written (not executed), the loop does not copy that range once there are several inputs: the page map is keyed by start offsets, so with two 3-page inputs and default options, after copying the first input `i` is 3, `floorEntry(3)` is the second input, `end` is `min(6, 3 - 3) = 0`, and `i` never advances.
- PdfSplitModel.SplitParts: requires a pairing of at least 1, a page cap between 1 and the largest `int`, and `2 * total` and `total + pairing` within `int` range. With `-p 0` the source accepts empty parts forever; negative `-p` and `-g` values are not modelled.
- PdfSplitModel.ResolveSettings: reports a bad `-s`, `-p` or `-g` value in that fixed order. The source fails at the first bad option in command-line order, so `-p x -s y` is -p's NumberFormatException in the source and -s's IllegalArgumentException in the model.
- PdfSplitModel.FindEnd: requires the same ranges as `SplitParts`.
- PdfSplitModel.Split: requires a pairing of at least 0 and a page cap between 1 and the largest `int`, with the same `int` range bound on the total. `-g 0` is modelled (division by zero); a negative `-g` and `-p 0` are not.
- ZipModel.PackArchives: requires every file to fit into an empty archive on its own. Otherwise the source's outer loop makes no progress and never ends.
- ZipModel.Pack: requires the same when `-a` is given without `-s`.
- The compressed size of a file and the bytes written to an archive are oracles (`compressed`, `written`). Volume splitting with `-s` is done by the ZIP library and is modelled as one archive holding every file. File-name encoding inside the archive is not modelled.
- `ZipCommand` checks `options.maxPart` instead of `options.maxArchive` for a repeated `-a`. Option repetition is not modelled, so the model reads the value of `-a` as the archive limit.
- `GoogleDriveStorageRepository` is modelled only by `getFileId`. The rest is OAuth and network calls.
- `downloadFile`, `metadata` and `checksum` of the storage repositories are network calls. The model states only which repository receives which unchanged URL.
- The image commands (`MergeInkCommand`, `PdfResizeCommand`, `ColorExtractor`, `ImageEdit`, `OpenCv`), `SyncFilesCommand`, `UpdateChecksumCommand`, `PdfDecompressCommand`, `PdfEmptyCommand`, `PdfMetaCommand`, `PdfFiles`, the command-line and Guice wiring in `ZbynekLegalFormat`, and `google-docs-exhibit-update.js` are not part of this model. They are image, network, hashing or PDF library work.
- `TableUpdator`, `AbstractTableUpdator` and `StorageRepository` declare only shapes. Their one default body, `readSheet` throwing FileNotFoundException, is not modelled. The model's `XlsTableUpdator` overrides it.
- `PdfRenderer` (`renderPageNumber`, the geometry helpers and `close`) is not part of this model. The `insertBlankPage` and `replacePage` operations that `PdfReplaceCommand` calls are not defined in it; `PdfReplaceModel.InsertBlank` and `PdfReplaceModel.ReplaceAt` assume list semantics, with their bounds and out-of-bounds message.

## Findings

| source | as written | input that shows it | evidently intended | confidence | as-written member | corrected member |
|---|---|---|---|---|---|---|
| zbynek-legal-format/src/main/java/com/github/kvr000/zbyneklegal/format/table/TsvTableUpdator.java:29 | `TsvTableUpdator` declares its own private `headers` field. The inherited `getHeaders()` returns the parent's field, which is never assigned, so it returns null | `readIndex` with one or more keys over any TSV table: the header check dereferences null (NullPointerException). Also `zip` over any TSV index, whatever its columns and keys, since `ZipCommand` calls `getHeaders().get("Media")` first (`ZipModel.ReadListFileOverTsvTableFails`) | `getHeaders()` returns the parsed header map, as `TsvUpdator.getHeaders` does | not executed | TsvTableUpdatorModel.ReadIndexOverTsvTableFails | TsvTableUpdatorModel.ReadIndexOverParsedHeaders |
| zbynek-legal-format/src/main/java/com/github/kvr000/zbyneklegal/format/command/JoinExhibitCommand.java:431-439 | `--extract` single mode compares each page with the selected index and steps the page down only after a removal. A selected index equal to the page count never matches, so the page below it is skipped and kept | a document of 2 pages whose selection is [2] (an empty last exhibit selected with exhibit-first): page 1 is kept though it was not selected | single mode keeps exactly the selected pages that exist | not executed | JoinExhibitExtract.SingleKeepsUnselectedPage | JoinExhibitExtract.SinglesAgree |
| zbynek-legal-format/src/main/java/com/github/kvr000/zbyneklegal/format/table/TsvUtil.java:22-24 | a value containing a tab, a newline or '"' is written as '"' followed by the value with '"' doubled; no closing quote is written | "a", tab, "b" is written as '"', "a", tab, "b", which reads back as a single unterminated field | the field is enclosed in quotes, as in section 2 rule 7 of RFC 4180, and reads back as the value | not executed | TsvUtil.FormatTsvSingleDoesNotReadBack | TsvUtil.FormatTsvField |
| zbynek-legal-format/src/main/java/com/github/kvr000/zbyneklegal/format/table/XlsTableUpdator.java:199-206 | `readSheet` looks up `names[cell.getColumnIndex()]` for every cell of a data row, and `names` is only as long as the header row | a sheet whose header names column 0 only and whose data row also fills column 1: ArrayIndexOutOfBoundsException "Index 1 out of bounds for length 1" | cells beyond the header are ignored, as the constructor's own record reading does | not executed | XlsReadSheet.ExtraCellBreaksReadSheet | XlsReadSheet.ReadSheet |
