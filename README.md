# PTR dashboard core, modelled in Dafny

This project models the core of a Streamlit test-reporting dashboard. The
dashboard reads PTR (test-run report) spreadsheets and draws charts from
them. It also has a CSV-backed login page with roles.

The model covers two source files.

- `ptr/ptr_page.py`:
  - **Sheet normaliser (`processing_excel`).** It picks the header row
    among the first 20 rows by a case-sensitive search for "Features".
    It drops the index column and `No`, and renames the four known
    header variants. It forward-fills the grouping columns (plus
    `Link JIRA` when present). It also collects the distinct "PTR Ver"
    labels of raw column 1 after a whole-sheet forward fill.
  - **Page clean-ups.** Newlines in the labels become spaces. Empty
    cells of the chosen status column become "N/A".
  - **`progress_status`.** Each status's share among the Android rows
    and among the iOS rows, in long form. Shares are exact rationals.
  - **Sankey block.** This part is imperative, as in the page:
    - a duplicate-free node list;
    - the row loop that appends link endpoints per status;
    - the incoming and outgoing tallies;
    - the colour dictionary (palette by first-seen primary value, grey
      sub-features, four fixed colours);
    - node and link colour lists and 30-character labels;
    - the single error result of the `except` branch.
- `Components/login_page.py`:
  - **Pure rules.** The password and e-mail checks, and the credential
    lookup (strip, lower-case the username, take the first matching
    row). Also the e-mail lookup and the menu per role.
  - **Page object.** The `LoginPage` class with its session store:
    `initialize_session_state`, `login`, `logout` and `save_to_csv`.
    It also carries the login and sign-up form decisions, in the
    page's order of checks.

Modules, one per file:

- `Wrappers`: `Option` and `Result`.
- `Seqs`: counts, first index, first-seen de-duplication.
- `Sheet`: cells (`Empty` for NaN, `Str`, `Num`), raw grids, tables,
  `astype(str)` and `str.contains`.
- `PtrProcessing`, `ProgressStatus`, `SankeyFlow`: the PTR page.
- `Accounts`, `LoginFlow`: the login page.

In the following places the code does not do what the dashboard is meant
to do. The model follows the code:

- **Unrouted statuses.** A status other than "Passed", "Failed", "N/A",
  "In Progress" or "Not Started" emits no link. The intended flow routes
  every other value through the sub-feature.
- **No header row found.** `idxmax` of an all-false column is row 0, so
  row 0 becomes the header. A sheet without a "Features" row is meant to
  be rejected.
- **Missing status on one platform.** A status that one platform lacks
  still gets a row for that platform, with a missing (NaN) percentage.
  The intended chart leaves that row out.
- **Tallies.** The tallies are recomputed inside the row loop. After the
  last row they equal a single count over all links, so the model states
  that count. With no rows, the colour lists are never bound and the
  block fails, so an empty table is the error result.
- **Version marker.** The marker searched in raw column 1 is "PTR Ver".
- **Node order.** Node order comes from a Python `set`, which fixes no
  order. The model takes first-seen order. Every property it states
  holds for any duplicate-free order with the same elements.

## Model

| member | source | states |
|---|---|---|
| PtrProcessing.HeaderIndex | ptr/ptr_page.py:89-100 | the header is the first of the first 20 rows with a cell whose text contains "Features"; with no such row it is row 0 |
| PtrProcessing.VersionLabels | ptr/ptr_page.py:84-87 | error when raw column 1 is missing or holds no string; otherwise duplicate-free labels that contain "PTR Ver", each a string of raw column 1, every such string of the column listed, in the order of their first row in the column |
| PtrProcessing.VersionTextsOrder | ptr/ptr_page.py:87 | the marked texts come in the order the column first shows them |
| PtrProcessing.FFillFirstIndex | ptr/ptr_page.py:85 | forward fill leaves the first row of every non-empty value where it was |
| PtrProcessing.LabelsOrdered | ptr/ptr_page.py:84-87 | of two labels, the earlier one first appears higher in raw column 1 |
| PtrProcessing.LastFilledIsNearest | ptr/ptr_page.py:85 | the value a forward fill carries is a cell of the column with only empty cells after it |
| PtrProcessing.FFillSpec | ptr/ptr_page.py:131-132 | a filled column keeps non-empty cells, gives an empty cell the nearest non-empty cell above it, and stays empty exactly where the column is empty up to there |
| PtrProcessing.FFillIdempotent | ptr/ptr_page.py:132 | forward-filling a filled column changes nothing |
| PtrProcessing.DropFirstColumn | ptr/ptr_page.py:102 | the first column goes from the names and from every row |
| PtrProcessing.OsVersionAsText | ptr/ptr_page.py:105-109 | cells of `OS Version` become their text, NaN included; all other cells are unchanged; without the column the table is unchanged |
| PtrProcessing.DropColumnsNamed | ptr/ptr_page.py:112 | no column of that name is left; the other columns stay, names and cells, in their order; a table without it comes back unchanged |
| PtrProcessing.RenameChangesOnlyListed | ptr/ptr_page.py:115-122 | a header changes name exactly when it is one of the four listed variants |
| PtrProcessing.RenameColumns | ptr/ptr_page.py:115-122 | each column name is mapped through the rename table; the rows are unchanged |
| PtrProcessing.FillColumns | ptr/ptr_page.py:124-132 | the named columns are replaced by their forward fill; every other column is unchanged |
| PtrProcessing.FillColumnsIdempotent | ptr/ptr_page.py:132 | filling the grouping columns twice is filling them once |
| PtrProcessing.KeptColumns | ptr/ptr_page.py:102-112 | the sheet columns that survive: every column after the first whose header is not `No`, left to right, each once |
| PtrProcessing.Cleaned | ptr/ptr_page.py:98-122 | the cleaned table is rectangular, keeps every row below the header and has no `No` column; its column `k` is kept sheet column `k` renamed, and its cells are that column's cells below the header, as text in `OS Version` |
| PtrProcessing.ProcessingExcel | ptr/ptr_page.py:78-134 | a version-label error or a missing grouping column is the error, and without either the result is a success; a success holds the labels and the cleaned table with its grouping columns forward-filled, which has the grouping columns, no `No`, all rows below the header, and empty cells of filled columns only above their first value |
| PtrProcessing.ReplaceNewlines | ptr/ptr_page.py:266 | same length, no newline left, each newline becomes a space and every other character stays |
| PtrProcessing.CleanLabels | ptr/ptr_page.py:266 | one label per version label, in order, each of the same length with no newline: newlines become spaces and every other character stays |
| PtrProcessing.FillStatus | ptr/ptr_page.py:276-281 | error exactly when the status column is missing; otherwise only its empty cells become "N/A" |
| ProgressStatus.PlatformStatuses | ptr/ptr_page.py:138-142 | the non-empty statuses are exactly those of rows whose OS is that platform; each occurs once per such row holding it, and there are as many as such rows with a status |
| ProgressStatus.Counted | ptr/ptr_page.py:138-142 | the statuses counted for a platform, each as often as the platform's rows hold it, as many as its rows with a status |
| ProgressStatus.Share | ptr/ptr_page.py:141-142 | NaN exactly for an absent status; otherwise a share in (0, 100] |
| ProgressStatus.ShareOrZeroValue | ptr/ptr_page.py:141-142 | the share is 100 times the count over the number of the platform's statuses |
| ProgressStatus.Statuses | ptr/ptr_page.py:144 | each status seen on either platform, once |
| ProgressStatus.Progress | ptr/ptr_page.py:137-150 | a missing `OS` or status column is the error, and only then |
| ProgressStatus.ShareRowReports | ptr/ptr_page.py:138-147 | the row built for a status is NaN when the platform lacks it, else 100 times the platform's rows with that status over its rows with any status |
| ProgressStatus.ProgressRowsAt | ptr/ptr_page.py:144-147 | two rows per status: all Android rows, then the iOS rows in the same status order; each is NaN exactly where the platform lacks the status and otherwise 100 times the rows with that status over the platform's rows with a status |
| ProgressStatus.PercentagesSumTo100 | ptr/ptr_page.py:141-142 | a platform with a counted status has percentages adding up to 100 |
| SankeyFlow.RowFlows | ptr/ptr_page.py:324-350 | "Passed": primary to status to OS; the four routed statuses: primary to sub-feature to status to OS; anything else: no link |
| SankeyFlow.FlowCount | ptr/ptr_page.py:318-350 | the number of links is 2 per "Passed" row plus 3 per routed row |
| SankeyFlow.RowLinks | ptr/ptr_page.py:324-350 | the node indices appended for one row are the `nodes.index` of the two ends of each of that row's links |
| SankeyFlow.BuildLinks | ptr/ptr_page.py:318-350 | after the loop, `sources[k]` and `targets[k]` are the `nodes.index` of the two ends of link `k` of all rows in order |
| SankeyFlow.Tally | ptr/ptr_page.py:352-358 | both dictionaries are keyed by the nodes and give each node the number of links ending / starting there |
| SankeyFlow.TallyTotal | ptr/ptr_page.py:356-358 | the counts over all nodes add up to the number of links |
| SankeyFlow.PaletteColors | ptr/ptr_page.py:376-379 | the i-th distinct primary value gets palette entry i mod 24, and only those values get a colour |
| SankeyFlow.PaintGray | ptr/ptr_page.py:384-385 | the listed values become grey, every other entry is kept |
| SankeyFlow.GraySubFeatures | ptr/ptr_page.py:382-385 | after the loop, grey for every sub-feature listed so far, palette colour for the other primary values |
| SankeyFlow.GraysAll | ptr/ptr_page.py:382-385 | the loop greys exactly the sub-features of rows whose primary value is not NaN |
| SankeyFlow.AssignNodeColors | ptr/ptr_page.py:374-392 | the dictionary holds a colour for a value exactly when the colour rule gives one, and that colour (fixed four, then grey sub-features, then palette) |
| SankeyFlow.PaletteByFirstSeen | ptr/ptr_page.py:376-379 | a primary value that is neither fixed nor grey has palette entry (first-seen rank mod 24) |
| SankeyFlow.NodeColorList | ptr/ptr_page.py:394-396 | one colour per node, the dictionary's or the default grey |
| SankeyFlow.LinkColor | ptr/ptr_page.py:400-407 | alpha 0.3 always; the source's RGB when its colour is `rgba`, light grey for a hex colour or a node without colour |
| SankeyFlow.LinkColors | ptr/ptr_page.py:399-407 | one colour per link, that of its source node |
| SankeyFlow.ShortLabel | ptr/ptr_page.py:303-306 | a string over 30 characters becomes its first 30 plus "..."; anything else is its text |
| SankeyFlow.FlowRowsInNodes | ptr/ptr_page.py:290-297 | every value a row links is a node, so every index lookup succeeds |
| SankeyFlow.Draw | ptr/ptr_page.py:303-407 | links, all values 1, both tallies with their totals, node and link colours and labels as above |
| SankeyFlow.BuildSankey | ptr/ptr_page.py:286-442 | error exactly when a node column is missing or the table is empty; otherwise a duplicate-free node list holding exactly the values of the six columns, and the figure inputs above |
| Seqs.Dedup | ptr/ptr_page.py:87 | `unique()`: no duplicates, every value of the input and nothing else |
| Seqs.DedupFirstSeen | ptr/ptr_page.py:376 | `unique()` lists values in the order of their first occurrence |
| Accounts.Strip | Components/login_page.py:62-65 | `strip()`: no whitespace left at either end |
| Accounts.StripIsTrim | Components/login_page.py:62-65 | the stripped text is a slice of the input with only whitespace before and after it |
| Accounts.StripIdempotent | Components/login_page.py:62-65 | stripping twice is stripping once |
| Accounts.Lower | Components/login_page.py:64-66 | each character is lower-cased in place |
| Accounts.IsValidPassword | Components/login_page.py:52-57 | true exactly for at least six characters with a letter and a digit |
| Accounts.Find | Components/login_page.py:48 | the first `@` of the address, or none |
| Accounts.FindLast | Components/login_page.py:48 | the last `.` of the address, or none |
| Accounts.MatchesEmailShape | Components/login_page.py:47-49 | the search agrees with the pattern in both directions |
| Accounts.IsValidEmail | Components/login_page.py:47-49 | true exactly when the whole string, or the string less one final newline, matches the pattern |
| Accounts.FirstWhere | Components/login_page.py:66-69 | the first row satisfying the test, or none when no row does |
| Accounts.ValidateUser | Components/login_page.py:59-70 | none exactly when no row matches; otherwise the role of the first matching row |
| Accounts.ValidateUserAppend | Components/login_page.py:59-70 | appending a row keeps an earlier match and otherwise answers with the new row when it matches |
| Accounts.IsEmailRegistered | Components/login_page.py:72-76 | true exactly when some row has that e-mail exactly |
| Accounts.PagesByRole | Components/login_page.py:171-178 | the page list of admin, user and guest, and an empty list for any other role |
| Accounts.MenuShape | Components/login_page.py:171-178 | a non-empty menu ends with "Logout"; only admin sees the admin page; admin and user see the PTR page |
| LoginFlow.Initialized | Components/login_page.py:24-32 | every key is set afterwards, a present key is kept, an absent one gets its default |
| LoginFlow.InitializedIdempotent | Components/login_page.py:24-32 | initialising twice is initialising once |
| LoginFlow.LogoutThenRerunIsFresh | Components/login_page.py:79-84 | after logout and the rerun the session equals a new visitor's |
| LoginFlow.LoginDecision | Components/login_page.py:134-145 | missing fields exactly when a field is empty; accepted exactly when both are given and some row matches, with that row's role |
| LoginFlow.SignUpDecision | Components/login_page.py:147-168 | each outcome exactly under its conditions, in the page's order: fields, registered e-mail, e-mail shape, password |
| LoginFlow.SignUpThenLogin | Components/login_page.py:155-168 | after a sign-up the same credentials log in (as guest when nothing older matched) and the e-mail is taken |
| LoginFlow.LoggedIn | Components/login_page.py:88-92 | logged in, with the role, the username as typed and no active page |
| LoginFlow.LoginPage.constructor | Components/login_page.py:20-22 | the page keeps its user file and initialises the session |
| LoginFlow.LoginPage.InitializeSessionState | Components/login_page.py:24-32 | the session becomes the initialised session |
| LoginFlow.LoginPage.SaveToCsv | Components/login_page.py:34-44 | exactly one row is appended |
| LoginFlow.LoginPage.Logout | Components/login_page.py:79-84 | logged out, no role, no user, active page gone |
| LoginFlow.LoginPage.Login | Components/login_page.py:86-95 | accepted exactly when a row matches, and then the session is logged in with that role; otherwise the session is unchanged |
| LoginFlow.LoginPage.SubmitLogin | Components/login_page.py:134-145 | the outcome is the login decision, and the session changes only when it is accepted |
| LoginFlow.LoginPage.SubmitSignUp | Components/login_page.py:147-168 | the outcome is the sign-up decision; a guest row is appended exactly on success, and the file is otherwise unchanged |

## Left out

- Google Drive listing and download, spreadsheet decoding, CSV file reading and writing, and Streamlit widgets are left out. The sheet is a grid parameter and the user file is a list of rows. A missing user file is the empty list.
- The plotly figure configuration, `textwrap.wrap` of hover labels and the `customdata` strings are rendering only.
- The heatmap, the timestamps and the AgGrid table are left out.
- `@st.cache_data` is left out; it changes no result.
- `st.rerun`, `run`, `display_logged_in_view` (including its "Logout" menu branch, which only calls `logout`), `display_logged_out_view` and `handle_page_selection` are left out, as are session keys other than the four the page initialises. Of `display_login_form` and `display_signup_form` only the widget rendering is left out; their decisions are modelled.
- ProgressStatus.Progress: percentages are exact rationals without the two-decimal `round`.
- ProgressStatus.Statuses: uses first-seen order; pandas orders `value_counts` by descending count.
- SankeyFlow.PaletteColor: a palette entry is its index. The hex codes of the Light24 palette and the `to_rgba` float conversion are not modelled.
- SankeyFlow.LinkColor: works on colour values; it does not model the text round trip through `strip("rgba()")`, `split(",")` and `float`.
- SankeyFlow.BuildSankey: the node list is in first-seen order instead of Python set order. NaN is one value here, while Python `nan` objects are identical only sometimes, which affects `set`, `nodes.index` and dictionary lookups.
- Numbers in cells are integers. Float cells and their text (`"14.0"`) are not modelled, nor are dates.
- Accounts.IsValidPassword: letters and digits are ASCII; Python's `isalpha` and `isdigit` also accept other Unicode letters and digits.
- Accounts.Lower: only ASCII letters are lower-cased.
- Accounts.ValidateUser: it does not model what `pd.read_csv` infers. An empty Role cell reads back as NaN, which is a true value, so any matching row logs the user in. A numeric username or password is read as a number and turned back into text.
- Duplicate column names: `ColumnIndex` and `SankeyFlow.Named` take the first column of a name, which is how the model reads the `OS`, status and Sankey node columns. `MapNamedColumns` (so `OsVersionAsText` and `FillStatus`), `FillColumns` and `DropColumnsNamed` act on every column of the name. In pandas, selecting a duplicated name gives a DataFrame rather than a column, so comparisons such as `df['OS'] == 'Android'`, `value_counts` and the Sankey row loop behave differently or fail; the model does not capture that.
