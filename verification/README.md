# Product Scanner upload and scan lookup, modelled in Dafny

The Product Scanner is a Streamlit form around a remote scanning API. The
user uploads a CSV file and maps its columns to the scan's fields. The form
submits the scan and later finds it again in the service's job listing by
the name it was given. This project models the three pieces of pure logic
in `streamlit_app.py` and proves what they do:

- **Scan selection** (`find_latest_by_name`). The listing is a JSON value.
  Its `data` array holds scan objects. The function keeps the objects whose
  `name` equals the target exactly. It then picks the newest `"Success"`
  scan; failing that, the newest `"InProgress"` scan; failing that, the
  newest scan of any status. "Newest" means the largest `created_at` in
  Python's string order, with a missing `created_at` read as `""`. The
  sort is stable and `reverse=True`, so on a tie the earliest scan in list
  order wins. The model follows the code step by step: the `same` filter,
  the two status filters, and `sorted(..., reverse=True)[0]` as a stable
  insertion sort. A separate linear scan for "first entry with the
  largest key" is proved to pick the element the sort puts first. The
  result is then stated over the original listing.
- **Upload preparation** (the body of `upload_scan` before the POST). The
  column names are resolved to zero-based positions with `list.index`:
  the first occurrence wins and a missing name is an error. In fixed-cost
  mode the positions are taken in the header after pandas' assignment
  `df["__fixed_cost"] = 1`. That assignment appends a new column, or
  overwrites an existing one where it stands. In the same mode the file
  name loses a `.csv` extension in any letter case and gains
  `_fixed_cost.csv`. Optional roles enter the mapping only when the choice
  is not `"(none)"`.
- **Delimiter and scan name**. `"Auto"` sniffs the first 50 000 bytes and
  falls back to `,` when sniffing fails. A menu entry starting with a
  backslash and `t` means tab. Any other entry is used as typed. The form
  stops unless `scan_name.strip()` is non-empty.

Modules: `Wrappers` (Option and Result), `LexOrder` (Python's `str`
ordering), `Strings` (`isspace`, `strip`, `startswith`/`endswith`, case
folding), `Columns` (`list.index` and column assignment), `ScanSelection`,
`Submission` and `Delimiter`.

Three details of the code shape what is modelled:

- A name without a `.csv` extension gets `_fixed_cost.csv` appended. The
  suffix is not inserted before some other extension.
- Only the exact status `"Success"` is preferred. `"Completed"` gets no
  preference.
- The name-guard test strips whitespace, but the name sent to the service
  is the one typed, unstripped.

## Model

| member | source | states |
|---|---|---|
| `ScanSelection.FindLatestByName` | streamlit_app.py:155-185 | The result is `None` exactly when the listing is not an object, its `data` is missing or not a list, or no object in it has `name` equal to the target (an empty list included). A result is an element of `data`, is an object, and has that exact name. |
| `ScanSelection.FindLatestPrefersSuccess` | streamlit_app.py:177-181 | When some scan with the name has status `"Success"`, the result is the one with the largest `created_at` among those scans (missing reads as `""`). On a tie it is the earliest in list order. That position is the only one that qualifies. |
| `ScanSelection.FindLatestThenInProgress` | streamlit_app.py:178-183 | When no scan with the name succeeded but some are `"InProgress"`, the result is the first of the newest `"InProgress"` scans with the name, and no other entry qualifies. |
| `ScanSelection.FindLatestOtherwiseNewest` | streamlit_app.py:180-185 | When no scan with the name is `"Success"` or `"InProgress"` but some scan has the name, the result is the first of the newest scans with the name, whatever their status. |
| `ScanSelection.SuccessOutranksNewerInProgress` | streamlit_app.py:177-183 | Take an older `"Success"` scan and a newer `"InProgress"` scan, both named "Scan A". The successful one is returned: status preference outranks recency. |
| `ScanSelection.Filter` | streamlit_app.py:170-178 | A list comprehension with an exact-equality test keeps exactly the entries of its input that are objects whose tested field equals the wanted string, and is no longer than its input. |
| `ScanSelection.FilterPosition` | streamlit_app.py:170-178 | The k-th survivor of a filter sits at some position i of the input list. The survivors before it are exactly those of the input's prefix before i, so filtering keeps list order. |
| `ScanSelection.LiftFirstNewest` | streamlit_app.py:177-185 | Being the first entry with the largest `created_at` among a filtered list carries back to the input list, where it becomes "first of the newest among the entries passing this test and the earlier ones". |
| `ScanSelection.NewestOfNameAndStatus` | streamlit_app.py:177-183 | Filtering by name and then by status, then taking the sort head, yields the first of the newest entries of the original listing that have both the name and the status. |
| `ScanSelection.NewestOfFiltered` | streamlit_app.py:170-185 | One filter followed by the sort head yields the first of the newest entries of the unfiltered list that pass the filter's test. |
| `ScanSelection.FilteredEmptyIff` | streamlit_app.py:177-180 | The success (or in-progress) list is non-empty exactly when the listing has an object with the name and that status. |
| `ScanSelection.SortNewestFirst` | streamlit_app.py:181 | `sorted(..., key=created_at, reverse=True)` returns a permutation of its input (same multiset, same length). |
| `ScanSelection.InsertNewestFirst` | streamlit_app.py:181 | Inserting one entry into the sorted list adds exactly that entry (multiset grows by it). |
| `ScanSelection.SortIsNewestFirst` | streamlit_app.py:181 | The sorted list has non-increasing `created_at`. |
| `ScanSelection.InsertKeepsNewestFirst` | streamlit_app.py:181 | Inserting an entry into a list with non-increasing `created_at` keeps it non-increasing. |
| `ScanSelection.SortHeadIsFirstNewest` | streamlit_app.py:181-185 | The first element of the stable descending sort is the entry the independent linear scan picks: the earliest entry with the largest `created_at`. |
| `ScanSelection.FirstNewestIndex` | streamlit_app.py:181 | The reference scan returns a position whose `created_at` no entry exceeds and which every earlier entry's `created_at` falls strictly below. |
| `ScanSelection.NewestOf` | streamlit_app.py:181 | `sorted(g, ...)[0]` is an element of `g`. |
| `ScanSelection.NewestOfIsFirstNewest` | streamlit_app.py:181 | The sort head of a non-empty list is the first of its newest entries. |
| `LexOrder.LexLeMeansPrefixOrSmaller` | streamlit_app.py:174-181 | Python's comparison of the `created_at` strings holds exactly when the first string is a prefix of the second, or is smaller at the first position where they differ. |
| `LexOrder.LexLeTotal` | streamlit_app.py:181 | Any two keys are comparable, so the sort is well defined. |
| `LexOrder.LexLeTransitive` | streamlit_app.py:181 | The key order is transitive. |
| `LexOrder.LexLeAntisymmetric` | streamlit_app.py:181 | Keys that compare both ways are equal. |
| `Columns.IndexOf` | streamlit_app.py:117-125 | `list.index` returns no position exactly when the name is absent. Otherwise it returns a valid position holding the name with no earlier occurrence. |
| `Columns.SetColumn` | streamlit_app.py:109 | After `df[name] = ...` the name is a column. The original columns keep their positions at the front, at most one column is added, none when the name was already present, and no name other than `name` appears. |
| `Columns.SetColumnKeepsOtherIndices` | streamlit_app.py:109-125 | Assigning one column changes the `index` of no other name: each is found where it was, or is still missing. |
| `Columns.SetColumnIndexOfAssigned` | streamlit_app.py:109-118 | After the assignment the assigned name is found at its old first position if it was present, and right after the original columns otherwise. |
| `Submission.FixedCostFileName` | streamlit_app.py:111 | The new name always ends in `_fixed_cost.csv`. Put back the last 4 characters of the old name after what precedes the suffix and you get the old name, when it had a case-insensitive `.csv` extension. Otherwise what precedes the suffix is the whole old name. |
| `Submission.CsvExtensionAnyCase` | streamlit_app.py:111 | `lower().endswith(".csv")` holds exactly when the last four characters are `.`, then `c`/`C`, `s`/`S`, `v`/`V`. |
| `Submission.FixedCostFileNameIsCsv` | streamlit_app.py:111 | Whatever the original name, the fixed-cost name always has a `.csv` extension in the sense of the same `lower().endswith` test. |
| `Submission.WorkingColumns` | streamlit_app.py:107-114 | With a cost column the mapping is resolved against the header as read. In fixed-cost mode it is resolved against columns that contain `__fixed_cost`, begin with the original header, and are one longer only when `__fixed_cost` was not already there. |
| `Submission.Resolve` | streamlit_app.py:117-119 | A lookup succeeds exactly when the name is among the working columns, gives its first position, and fails naming the missing column. |
| `Submission.ResolveOptional` | streamlit_app.py:122-125 | An optional role is absent from the mapping exactly when the choice is `"(none)"`. Otherwise it is the first position of the chosen column, or an error naming it. |
| `Submission.BuildMapping` | streamlit_app.py:116-125 | On success, `id`, `cost` (of `__fixed_cost` in fixed-cost mode, else of the cost column), the single `custom_columns` entry (the title), and each selected optional role are the first positions of their names in the working columns, so all are in range. `stock_quantity` and `supplier_image` are present exactly when selected. Building fails exactly when some looked-up name is missing. |
| `Submission.BuildMappingReportsFirstMissing` | streamlit_app.py:116-125 | A failure names the first missing column in Python's evaluation order: id, cost, title, stock quantity, supplier image. |
| `Submission.FixedCostAppendsColumn` | streamlit_app.py:108-118 | In fixed-cost mode, when the file has no `__fixed_cost` column, the uploaded columns are the original ones followed by `__fixed_cost`, and `cost` is the length of the original header. |
| `Submission.FixedCostOverwritesInPlace` | streamlit_app.py:108-118 | In fixed-cost mode, when the file already has a `__fixed_cost` column, the columns are unchanged and `cost` is its first position. |
| `Submission.FixedCostKeepsRoleIndices` | streamlit_app.py:107-125 | When all chosen columns are in the header, both fixed-cost and cost-column mode succeed. They give the same `id`, `custom_columns`, `stock_quantity` and `supplier_image`. |
| `Submission.SameFirstIndex` | streamlit_app.py:109-117 | A name in the header has the same first position in the header and in any column list that extends it. |
| `Submission.ScanNameAcceptedIffNotBlank` | streamlit_app.py:92-94 | The form goes on exactly when the scan name contains a character that is not Python whitespace. |
| `Submission.PrepareUpload` | streamlit_app.py:92-133 | A blank scan name stops the form with `ScanNameRequired`. Otherwise preparation succeeds exactly when every looked-up column is present. When it fails, the error is the one `BuildMapping` reports: the first missing column in Python's lookup order (see `BuildMappingReportsFirstMissing`). The options carry the marketplace and the name as typed. The mapping sent is the one `BuildMapping` resolves against the columns of the file uploaded. The file keeps its name with a cost column, and in fixed-cost mode it gets `FixedCostFileName` of its name, which ends in `_fixed_cost.csv`. |
| `Submission.PreparedIndicesPointAtChosenColumns` | streamlit_app.py:107-133 | In a prepared upload, each position in the mapping (`id`, `cost`, the title in `custom_columns`, and each selected optional role) is in range for the columns of the file sent, and holds the column chosen for that role. |
| `Strings.Strip` | streamlit_app.py:92 | `strip()` returns a slice of the input that neither starts nor ends with whitespace. Everything outside that slice is whitespace. |
| `Strings.StripEmptyIffAllSpace` | streamlit_app.py:92 | `strip()` returns the empty string exactly when every character is whitespace. |
| `Strings.StripLeading` | streamlit_app.py:92 | Removing leading whitespace leaves a suffix of the input that does not start with whitespace. Only whitespace was removed. |
| `Strings.StripTrailing` | streamlit_app.py:92 | Removing trailing whitespace leaves a prefix of the input that does not end with whitespace. Only whitespace was removed. |
| `Delimiter.Sample` | streamlit_app.py:49 | The sample is a prefix of the file of at most 50 000 bytes. It is the whole file unless it is exactly 50 000 bytes long. |
| `Delimiter.DetectDelimiter` | streamlit_app.py:42-47 | Detection returns the sniffer's answer over the candidates comma, semicolon, tab and pipe, and `,` whenever the sniffer fails. |
| `Delimiter.DetectedIsCandidate` | streamlit_app.py:42-47 | Take a sniffer that only answers with offered delimiters. Whatever the sample, detection yields one of comma, semicolon, tab and pipe. |
| `Delimiter.Separator` | streamlit_app.py:49-53 | `"Auto"` gives the separator detected from the decoded 50 000-byte sample. A choice starting with backslash-`t` gives a tab. Any other choice is used literally. |
| `Delimiter.MenuChoicesGiveCandidates` | streamlit_app.py:40-53 | Each of the five menu entries yields a one-character separator among the candidates. |
| `Delimiter.ExplicitChoiceIgnoresFile` | streamlit_app.py:50-53 | A choice other than `"Auto"` yields the same separator whatever the file, the decoder or the sniffer. |

## Left out

- The HTTP calls (`upload_scan`'s POST, `list_completed_scans`, `download_export`) and `safe_json`. They are network I/O against the remote API. The listing is taken as an already decoded JSON value.
- `csv.Sniffer` and the UTF-8 decoding with `errors="ignore"`. They are library code and become function parameters (`Sniffer`, `Decoder`). A sniffer that only answers with offered delimiters is an assumption, stated in `StaysWithinCandidates`.
- pandas `read_csv`/`to_csv`. The header pandas reads is an input `seq<string>`, taken after pandas has renamed duplicate headers. The preview and the full read are taken to yield the same header (same bytes, same separator).
- The uploaded file's bytes. With a cost column they are sent unchanged (streamlit_app.py:104); in fixed-cost mode they are rewritten with a 1 in every row and re-serialised with commas. `Upload` carries neither, only the file name, the mapping and the options.
- JSON values other than strings in `name`, `status` and `created_at`. A non-string `name` or `status` never equals a string, so it is modelled as absent. A non-string `created_at` would make Python's sort raise `TypeError` when compared with a string; that path is not modelled.
- `FindLatestByName`: the scan objects keep only `id`, `name`, `status` and `created_at`; other fields are dropped, because the selection never reads them.
- `Strings.Lower`: folds only ASCII letters, not the full Unicode `str.lower()`. For `lower().endswith(".csv")` this is exact: no other character lower-cases to `.`, `c`, `s` or `v`. The one character whose lower case is two characters (U+0130) ends in U+0307, not in one of these.
- `Submission.PrepareUpload`: in fixed-cost mode the code reads the whole file a second time, after the preview read only its first 10 rows. That full read can fail, for instance on a later row with too many fields, and the handler then reports the upload as failed even though every chosen column is present. The model has no such failure: it succeeds whenever the columns resolve.
- The Streamlit widgets, `st.session_state` bookkeeping, the debug view, the download buttons and the secrets loading. They are presentation and session plumbing.
- The default scan name built from `datetime.now()`, because it depends on the clock.
- An optional-role column literally named `(none)` cannot be chosen: the model, like the code, treats it as "not selected".
