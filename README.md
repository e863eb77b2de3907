# html-to-excel-scraper: row extraction, in Dafny

This project models the row extraction of `scrape_data_into_excel` in
`main.py`. The function takes the first `<table>` of a fetched page. If there
is no table, or the table has at most one `<tr>`, it returns without producing
anything. Otherwise it walks every `<tr>` and builds a three-key dictionary
from the row's `<td>` texts:

- `FirstCol` is cell 1, `SecondCol` is cell 2 and `ThirdCol` is cell 3.
- Each text is stripped with `str.strip()`.
- A field is `""` when the row has no such cell.
- Cell 0 is skipped as an index column.

The dictionary is kept only when one of its three fields is non-empty. The
kept dictionaries, in row order, are what the spreadsheet writer receives.

The HTML parser is taken as already run:

- A table is `Option<seq<Row>>`, where `None` means the page has no `<table>`.
- A `Row` is the sequence of the texts of its `<td>` cells, so a header row of
  `<th>` cells only is the empty sequence.
- The result is `Option<seq<Record>>`. `None` is one of the two early returns.
  `Some([])` is a table whose rows were all filtered out. The program still
  writes and mails that empty list.

Files:

- `text.dfy` (module `Text`) models Python's `str.strip()`. It removes
  leading and trailing characters of the `str.isspace()` set, in its full
  Unicode form, which includes the no-break space that `&nbsp;` becomes.
- `scraper.dfy` (module `Scraper`) holds the following:
  - the record type;
  - the per-cell and per-row mapping (`Field`, `MapRow`) and the method that
    builds one row's record field by field (`BuildItem`);
  - the specification of the loop (`ExtractRows`, `Scrape`);
  - a reference definition of the filter by kept positions (`KeptIndices`);
  - the loop itself as a method (`ScrapeTable`), proved equal to `Scrape`;
  - lemmas for the properties the code promises.

## Model

| member | source | states |
|---|---|---|
| `Text.TrimLeftIsSuffix` | main.py:30-32 | Trimming the left end keeps the suffix of the text that starts at its first non-whitespace character. Everything removed is whitespace. |
| `Text.TrimRightIsPrefix` | main.py:30-32 | Trimming the right end keeps the prefix of the text that ends at its last non-whitespace character. Everything removed is whitespace. |
| `Text.StripIsInfix` | main.py:30-32 | `strip()` returns an infix of the text whose two margins are all whitespace and which has no whitespace at either end. |
| `Text.StripIsStripped` | main.py:30-32 | A stripped text never starts or ends with whitespace. |
| `Text.StripEmptyIff` | main.py:30-34 | A cell strips to `""` if and only if it is all whitespace. So a whitespace-only cell counts as empty for the `any(...)` test. |
| `Text.StripOfStripped` | main.py:30-32 | `strip()` leaves a text with no whitespace at either end unchanged. |
| `Text.StripIdempotent` | main.py:30-32 | Stripping twice is the same as stripping once. |
| `Scraper.FieldIsStrippedCell` | main.py:30-32 | A field (stripped cell `k`, or `""` when the row is too short) never starts or ends with whitespace. It is empty exactly when the row lacks cell `k` or the cell is all whitespace. |
| `Scraper.MapRowStripped` | main.py:26-32 | No field of a row's record starts or ends with whitespace. |
| `Scraper.MapRowKeepsIff` | main.py:29-34 | The `any(...)` test on the three mapped fields holds if and only if cell 1, 2 or 3 exists and holds a non-whitespace character. A row of at most one `<td>`, including a `<th>`-only header row, never passes it. |
| `Scraper.BuildItem` | main.py:26-32 | Building the dictionary field by field, with the length guards, gives the row's record: cells 1, 2 and 3 stripped, `""` for missing cells. |
| `Scraper.ExtractRows` | main.py:25-35 | There are never more records than `<tr>` rows. |
| `Scraper.ExtractRowsRecordsClean` | main.py:30-35 | Every produced record has a non-empty field, and no field starts or ends with whitespace. |
| `Scraper.ExtractRowsStep` | main.py:25-35 | Processing one more row appends that row's record when one of its fields is non-empty, and nothing otherwise. |
| `Scraper.KeptIndicesIncreasing` | main.py:25-35 | The positions of the kept rows are row positions, in strictly increasing order. |
| `Scraper.KeptIndicesMembership` | main.py:33-35 | A row position is kept if and only if its record has a non-empty field. |
| `Scraper.ExtractRowsAtKept` | main.py:25-35 | There is one record per kept row. Record `k` is the mapping of the `k`-th kept row. |
| `Scraper.ScrapeTable` | main.py:12-35 | The loop computes the extraction. There is no result if and only if there is no table or the table has at most one `<tr>`, counted before filtering. |
| `Scraper.ExtractRowsIgnoresUnmappedCells` | main.py:29-32 | Cell 0 and cells past 3 never influence the output. Tables that agree row by row on cells 1-3 give the same records. |
| `Scraper.ExtractRowsPointwise` | main.py:25-35 | Rows that contribute the same records position by position give the same output. |
| `Scraper.ExtractRowsOfStrippedCells` | main.py:30-32 | Extracting from a table whose cells were already stripped gives the same records. |
| `Scraper.ExtractRowsEmptyIff` | main.py:33-35 | No record comes out if and only if no row's record has a non-empty field. |
| `Scraper.AllRowsFilteredOut` | main.py:18-35 | A table of two or more rows that all filter out gives an empty record list, not the "no data" early return. |

## Left out

- The HTTP fetch (`requests.get`) and HTML parsing (BeautifulSoup) are left
  out. These are network I/O and foreign library calls. Their result is the
  input type.
- The modelled input is the list that `find_all` returns. `find_all` searches
  all descendants, so the `<tr>`s and `<td>`s of a nested table would also be
  in these lists.
- Writing the spreadsheet with `DataFrame.to_excel` is left out. It is file
  I/O through a library.
- All of `send_excel_via_email` is left out. It is SMTP networking, MIME
  construction and a file read.
- The date-stamped subject line is left out. It reads the system clock.
- `.env` loading, the environment lookups and the final removal of the
  spreadsheet file are left out. They are configuration and filesystem side
  effects.
- The `print` diagnostics are left out. They are console output only.
- The "no table" and "no data" messages are not distinguished. Both are
  `None`, since the function returns nothing in either case.
- main.py:12-35 keeps the first column as raw text. Nothing in it parses
  timestamps or filters rows by time, so the model does neither.
