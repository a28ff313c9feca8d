# OneWayFollowers_Instagram in Dafny

This project models the core of `main.py`, a small desktop tool. The tool takes an exported
Instagram data archive and reports two things: the accounts the user follows that do not follow
back, and the pending follow requests. The modelled pieces are:

- **Locating the export files** (`find_file`). The listing that `os.walk` produces for the
  extracted tree is a parameter: a sequence of `WalkEntry(dirpath, files)`. `FindFile` walks it
  with the same two nested loops and the same early return as the source. Its result is
  `FirstMatch`: the first directory, in walk order, that holds any candidate name, joined with
  the earliest candidate name it holds.
- **Extracting handles** (`extract_usernames_from_html`, `extract_usernames_from_json`,
  `extract_usernames`):
  - A parsed JSON document is the datatype `Json`. The methods `ReadStringListData`,
    `ReadEntries`, `ReadValues` and `ReadFields` are the loops of the JSON extractor. Each is
    proved against a specification function.
  - Both shapes follow the code rule by rule:
    - a top-level list: entries that are dicts holding `"string_list_data"`, and the
      `item.get("value", "")` of each of their items;
    - a top-level dict: every value that is a list, and each element of it that is a dict with
      a direct `"value"`.
  - Every exception the walk can raise becomes `Err(IllTyped)`. Examples are calling `.get` on a
    string, iterating a number, or `.strip()` on a non-string. A file `json.load` rejects becomes
    `Err(NotJson)`.
  - The HTML extractor is the set of stripped anchor texts.
  - `ExtractUsernames` dispatches on the case-sensitive suffixes `.html` and `.json`.
- **The difference** (`find_non_followers`). It is following − followers. `ListOf` models
  `list(set)`: a list without repetitions holding exactly the set's elements, in unspecified
  order.
- **The decisions of `process_zip`** after extraction:
  - the three candidate name lists;
  - the fixed error message when the following or the followers file is missing;
  - the pending list, which is empty when no pending file exists;
  - the three reported paths.

  The contents of each file are a parameter `read: string -> FileData`.
- **`format_columns`**:
  - the items are laid out column-major in `ceil(n / num_columns)` rows;
  - each cell is `ljust`-padded to `col_width`, and a cell past the end of its column is
    `col_width` spaces;
  - every line is right-stripped, and the lines are joined with `"\n"`.

  The method keeps the source's three loops. It is proved to return `Format(items, …)`, and the
  layout lemmas are proved about `Format`.

The Python string primitives the code relies on are modelled in `PyText`: `str.isspace` over
the full set of Python whitespace code points, `strip`, `lstrip`, `rstrip`, `ljust`, `" " * n`,
`endswith` and `join`. `PyText` also defines `split`, which main.py never calls: it is there
only to state `Columns.FormatLineCount`, which says the text splits back into its lines.

Three behaviours of the code are worth pointing out:

- Malformed content is not turned into an empty set. `json.load` errors and type errors while
  walking the document propagate out of `process_zip`. The model returns `Err` / `Raised` for
  them.
- The dict branch does not look inside `string_list_data`: it only reads a `"value"` directly
  inside each element. So
  `{"relationships_following":[{"string_list_data":[{"value":"alice"}]}]}` yields the empty set
  (`Extract.DictFormIgnoresNestedLists`).
- An empty item list is not the only input that gives the empty text. Items that fit on one row
  and are all whitespace give it too (`Columns.BlankRowFormatsEmpty`).

## Model

| member | source | states |
|---|---|---|
| Columns.FormatColumns | main.py:72-88 | the returned text is Format(items, num_columns, col_width), the layout the lemmas below describe; no items give "" |
| Columns.JoinRow | main.py:81-86 | the inner loop builds exactly the row's raw line: each column's entry ljust-padded, or col_width spaces where that column has no entry for the row |
| Columns.JoinRows | main.py:79-87 | the outer loop yields one right-stripped line per row, in row order |
| Columns.NextCell | main.py:82-86 | the text appended for (row, col) is columns[col][row].ljust(col_width) when the slice is long enough and col_width spaces otherwise; this matches the grid cell of item col*rows+row |
| Columns.ColumnCell | main.py:77-83 | row r of the slice items[c*rows:(c+1)*rows] exists exactly when index c*rows+r is in range, and it holds that item |
| Columns.CeilDivSpec | main.py:75 | rows is the ceiling of len(items)/num_columns: the least q with n <= q*k for positive k, the least q with q*k <= n for negative k |
| Columns.ReadGridIsPrefix | main.py:76-78 | reading the first c columns top to bottom gives items[:c*rows] (clamped to the length) |
| Columns.ReadGridRoundTrip | main.py:75-78 | reading all columns top to bottom, skipping empty cells, gives back exactly the items: each item once, in column-major order |
| Columns.CellOfItem | main.py:75-78 | item i sits in row i % rows of column i // rows, and that column is one of the num_columns columns |
| Columns.CellPlacement | main.py:81-86 | when no item is wider than col_width, the raw line is num_columns*col_width long; cell (row, c) starts at c*col_width and holds its item untruncated followed by spaces up to the next column; an empty cell is col_width spaces |
| Columns.LinesTrimmed | main.py:87 | each line is a prefix of its raw row that does not end in whitespace, and everything dropped is whitespace |
| Columns.FormatLineCount | main.py:75-88 | when no item holds a newline, the text has exactly ceil(n/num_columns) lines, and splitting it on "\n" gives back the lines |
| Columns.FormatShowsVisibleItem | main.py:72-88 | an item with a non-whitespace character makes the text non-empty |
| Columns.BlankRowFormatsEmpty | main.py:73-88 | non-empty all-whitespace items that fit on one row also give "" |
| PyText.RStripSpec | main.py:87 | rstrip keeps the longest prefix not ending in whitespace and drops only whitespace |
| PyText.LStripSpec | main.py:13 | lstrip keeps the longest suffix not starting with whitespace and drops only whitespace |
| PyText.StripSpec | main.py:13 | strip leaves no whitespace at either end, and leaves nothing exactly when the string is all whitespace |
| PyText.StripTrimmed | main.py:24 | a string without surrounding whitespace is unchanged by strip |
| PyText.StripIdempotent | main.py:30 | stripping twice is stripping once |
| PyText.SpacesSpec | main.py:86 | " " * n is n spaces for n > 0 and empty otherwise |
| PyText.LJustSpec | main.py:84 | ljust keeps the string as a prefix, pads only with spaces, reaches max(width, len) and never truncates |
| PyText.SplitJoin | main.py:88 | splitting "\n".join(lines) on "\n" gives back the lines when none holds a newline |
| Extract.HtmlHandles | main.py:13-14 | the handle set contains the stripped text of every anchor and nothing else |
| Extract.HtmlHandlesTrimmed | main.py:13 | every HTML handle is already stripped |
| Extract.HtmlExample | main.py:13-14 | anchors "Alice" and " bob " give {"Alice", "bob"}: stripped, case kept |
| Extract.ReadStringListData | main.py:23-24 | the loop over one string_list_data value adds the stripped "value" of each item ("" when missing), and raises exactly when an item is not a dict or has a non-string "value", or when the value cannot be iterated as items |
| Extract.ReadEntries | main.py:20-24 | the list branch yields ListHandles of the entries, and raises exactly when one of the string_list_data values it reads raises |
| Extract.ReadValues | main.py:28-30 | the loop over one top-level list adds the stripped "value" of each dict element having one, and raises exactly when such a "value" is not a string |
| Extract.ReadFields | main.py:25-30 | the dict branch yields the union over all keys whose value is a list, and raises exactly when one of them does |
| Extract.ExtractUsernamesFromJson | main.py:16-31 | the extractor returns JsonHandles(data): the list rules, the dict rules, the empty set for any other document, Err when the walk raises |
| Extract.ItemValuesMembers | main.py:23-24 | a handle comes from one string_list_data list exactly when some item's stripped value equals it |
| Extract.ListHandlesMembers | main.py:20-24 | a list document yields h exactly when some item of the string_list_data of some dict entry has stripped value h |
| Extract.GroupValuesMembers | main.py:28-30 | one top-level list yields h exactly when some dict element with a "value" has stripped value h |
| Extract.DictHandlesMembers | main.py:25-30 | a dict document yields h exactly when some element, with a direct "value", of a list under some key has stripped value h |
| Extract.JsonHandlesTrimmed | main.py:24-30 | every JSON handle is already stripped |
| Extract.ScalarDocumentYieldsNothing | main.py:19-31 | a document that is neither a list nor a dict yields the empty set without raising |
| Extract.ListFormExample | main.py:20-24 | [{"string_list_data":[{"value":"carol"}]}] yields {"carol"} |
| Extract.DictFormIgnoresNestedLists | main.py:25-30 | a top-level dict whose list holds a string_list_data record yields the empty set |
| Locator.FindFile | main.py:33-38 | the nested loops return FirstMatch: the first directory in walk order holding any candidate, joined with the earliest candidate it holds, or None |
| Locator.FirstCandidateSpec | main.py:35-37 | within one directory, the candidate chosen is the earliest listed name present, and there is none exactly when no candidate is present |
| Locator.FirstMatchSpec | main.py:33-38 | the result is None exactly when no directory holds any candidate; otherwise it is the join of the first hit: no earlier directory holds any candidate, and no earlier candidate is in that directory |
| Locator.PathJoinEndsWithName | main.py:37 | the returned path ends with the candidate's name |
| Pipeline.ExtractUsernames | main.py:40-46 | a ".html" path gets the HTML handles, a path with neither suffix gets the empty set, and only a ".json" path can raise |
| Pipeline.JsonDispatch | main.py:43-44 | a ".json" path gets exactly the JSON extractor's result, or raises when the file is not JSON |
| Pipeline.SuffixIsCaseSensitive | main.py:41-46 | "following.JSON" and "followers.HTML" yield the empty set whatever they hold |
| Pipeline.ExtractedHandlesTrimmed | main.py:40-46 | every handle extract_usernames returns has no surrounding whitespace |
| Pipeline.NonFollowersSpec | main.py:48-51 | the result is the handles of the following file absent from the followers file: all of those, and only those; the following file's exception wins, then the followers file's |
| Pipeline.ListOf | main.py:52 | list(set) holds each element of the set exactly once |
| Pipeline.FindNonFollowers | main.py:48-52 | the returned list has no repetitions and holds exactly following − followers, or the exception of the first extractor that raises |
| Pipeline.ProcessZip | main.py:58-70 | the outcome has the sets Analyze describes: the fixed message when either required file is missing, else the non-followers, the pending requests (empty without a pending file) and the three found paths, as lists without repetitions |
| Pipeline.MissingExactly | main.py:61-65 | the fixed message is returned exactly when no directory holds a following name or no directory holds a followers name |
| Pipeline.NonFollowersDisjoint | main.py:66 | on success the non-followers are exactly following − followers, so none of them is a follower |
| Pipeline.NoPendingFile | main.py:63-69 | without a pending file, the pending set is empty, the pending path is None, and the pending lookup cannot make the analysis fail |
| Pipeline.ReportedFiles | main.py:61-70 | the reported paths are the ones find_file picks, and each ends with one of its role's candidate names |
| Pipeline.EndToEndExample | main.py:54-70 | following.json listing alice, bob and carol, plus followers.html linking alice and bob, with no pending file, yields non-followers {"carol"} and no pending requests |
| Pipeline.MissingFollowingExample | main.py:61-65 | a tree holding only followers_1.json gets the fixed message |
| Pipeline.WalkOrderWins | main.py:34-37 | a followers_1.html in an earlier directory is preferred to a followers.html in a later one |

## Left out

- The GUI (`show_result_window`, `select_zip_and_process`, `main`, main.py:90-141) is left out. It is Tk widgets and dialogs. So is the `sorted()` its callers apply before `format_columns`.
- Opening the archive, `zipfile` extraction and the temporary directory (main.py:55-57) are left out. They are I/O. The walk listing of the extracted tree is a parameter, and so are the file contents (`read`). Archive errors are not modelled.
- `os.walk` itself is not modelled: its traversal order is whatever the given listing says. Directory names it yields are not used by the code.
- `os.path.join` is modelled for a relative name with `/` as the separator.
- The BeautifulSoup parse is left out. An HTML file is given as the texts of its `<a>` elements, in document order.
- `json.load` is left out. A file is given as the parsed document or as rejected. JSON numbers keep only an integer, since no rule looks inside them.
- File encodings and decoding errors (`encoding="utf-8"`) are not modelled. Neither is Python's dict key order: no handle set or raised outcome depends on it.
- Pipeline.ProcessZip: the exception model distinguishes only "not JSON" from "ill-typed document". Python's exception type and message are not kept.
- Pipeline.ListOf: the order `list(set)` produces is not modelled. The model picks an arbitrary order.
- Columns.FormatColumns: `math.ceil(len(items) / num_columns)` is computed exactly on integers. The float rounding the source does for very large lengths is not modelled.
- Columns.FormatColumns: with items and a zero column count, the source raises ZeroDivisionError. The model requires a non-zero count instead; the only callers pass the default of 3. Non-integer arguments are not modelled.
- Columns.FormatColumns: when rows <= 0, which only a negative column count gives, the model skips the row loop. `range(rows)` is empty there too.
