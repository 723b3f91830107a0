# Team availability board

A Dafny model of the availability board behind the SPAE AD&E status page
(`app1.py`). The page keeps a small table in the session. Each team member
has a row with four columns: `Name`, `Status`, `Reason/Comment` and
`Last Updated`. The model covers these operations:

- **Seeding.** The table starts with one row per entry of the member
  list, in list order. Each row has status `❓ Not Updated` and an empty
  comment and time.
- **Status update.** The handler finds the first row whose name is the
  selected member. It overwrites that row's status, comment and time in
  place.
- **Manager reset.** All three mutable columns of every row go back to
  their defaults.
- **Password gate.** The reset runs only when the entered password equals
  `admin` exactly.
- **Status colouring.** A status string maps to a cell style. The
  substrings `WFH`, `Sick`, `Office` and `Workshop` are tested in that
  order, and the first match wins.

Files:

- `text.dfy`, module `Text`: Python's substring test `sub in s`
  (`Contains`), defined as "some start position holds an occurrence".
- `availability.dfy`, module `Availability`:
  - the constants: the member list, the admin password, the default status
    and the four radio choices;
  - the `Row` datatype;
  - the specification functions `Seed`, `ApplyUpdate` and `ResetRows`, with
    lemmas about them;
  - the `Board` class. It holds the table as a fixed-size `array<Row>`
    whose rows its methods overwrite in place.
- `styling.dfy`, module `Styling`: `HighlightStatus` and the first-match
  lemmas about it.

The clock is a parameter. `UpdateStatus` takes the already formatted
`%H:%M` text as its `time` argument.

`ApplyUpdate` is defined independently of the method that implements it.
It is a recursion that stamps the first row carrying the name. The board's
`UpdateStatus` does something else: a search loop (`FindRow`) followed by
one in-place write. Its postcondition ties the two together. The board's
`Reset` is a loop over the rows, proved equal to `ResetRows`. Both methods
also state what stays the same: the row count, the order and the `Name`
column (`Valid`).

pandas gives a DataFrame built from a dict a 0-based range index. The
label that `df.index[...][0]` returns is therefore the row's position, so
the model indexes the array by position.

## Model

| member | source | states |
|---|---|---|
| `Availability.Seed` | app1.py:32-40 | the seeded table has one row per member; row `i` carries member `i` and is cleared (the `SeedShape` lemma adds the `Name` column and known statuses) |
| `Availability.ApplyUpdate` | app1.py:60-65 | the update keeps the row count, and every row whose name is not the submitted one is unchanged; `UpdateFirstMatch`, `UpdateMissing`, `UpdateKeepsNames` and `UpdateLastWins` establish the rest of its meaning |
| `Availability.ResetRows` | app1.py:79-81 | the reset table has the same row count, and every row keeps its name and is cleared; `ResetIdempotent`, `ResetOfSeed` and `ResetAfterUpdate` relate it to the other operations |
| `Availability.SeedShape` | app1.py:32-40 | the seeded table has one row per member, in list order (its `Name` column is the member list), every row has status `❓ Not Updated` with empty comment and time, and every status is known |
| `Availability.TeamMembersDistinct` | app1.py:9-26 | no two entries of the member list are equal, so on a seeded board the first row with a name is the only one |
| `Availability.Board.constructor` | app1.py:32-40 | a new board holds exactly `Seed(names)` in a fresh array, and its `Name` column is the member list |
| `Availability.Board.FindRow` | app1.py:60 | reports found exactly when the name is in the `Name` column; when found, the index is in range, that row carries the name and no earlier row does |
| `Availability.UpdateFirstMatch` | app1.py:60-65 | when row `i` is the first row carrying the name, the update equals the old table with row `i` replaced by (name, status, comment, time), and every other row is untouched |
| `Availability.UpdateMissing` | app1.py:60 | an update for a name that no row carries leaves the table unchanged (the lookup fails before anything is written) |
| `Availability.UpdateKeepsNames` | app1.py:57-68 | an update keeps the row count, the order and the whole `Name` column |
| `Availability.UpdateUnique` | app1.py:60-65 | on a table with distinct names, the update stamps the row carrying the name, wherever it is |
| `Availability.UpdateLastWins` | app1.py:63-65 | a second update by the same member overrides the first completely: the result equals applying only the second update, whatever status, comment and time the two carried |
| `Availability.UpdateIdempotent` | app1.py:63-65 | submitting the same status, comment and time twice gives the same table as submitting them once (the equal-times case of `UpdateLastWins`) |
| `Availability.UpdateKeepsKnown` | app1.py:47-65 | if every status is a radio choice or `❓ Not Updated` and the submitted status is a radio choice, this still holds after the update |
| `Availability.Board.UpdateStatus` | app1.py:55-68 | succeeds exactly when the name is a member. The new table is `ApplyUpdate` of the old one. Each row either keeps its old value or carries the name and exactly the submitted (status, comment, time). A failed update changes nothing. Names, count and order are kept, and known statuses stay known |
| `Availability.Cleared` | app1.py:79-81 | a cleared row keeps its name and has the default status, comment and time; clearing a row that is already cleared changes nothing |
| `Availability.ResetShape` | app1.py:79-81 | a reset keeps the row count, the order and the `Name` column, and leaves every row with status `❓ Not Updated` and empty comment and time |
| `Availability.ResetIdempotent` | app1.py:79-81 | resetting twice gives the same table as resetting once |
| `Availability.ResetOfSeed` | app1.py:79-81 | a freshly seeded table is already in the reset state |
| `Availability.ResetAfterUpdate` | app1.py:79-81 | a reset after any update gives the same table as a reset without it |
| `Availability.Board.Reset` | app1.py:79-81 | the new table is `ResetRows` of the old one, every row is cleared, and names, count and order are kept |
| `Availability.Board.ResetIfAuthorized` | app1.py:76-81 | resets exactly when the password equals `admin`; otherwise the table is unchanged |
| `Text.Contains` | app1.py:96-102 | Python's `sub in s`: a contained string is no longer than its container, and every string contains itself; its two lemmas give the tools for concrete statuses |
| `Text.MissingCharRulesOut` | app1.py:96-102 | a string that lacks one of the characters of `sub` does not contain `sub` |
| `Text.ContainsExtended` | app1.py:96 | a string containing `sub` still contains it after text is added before and after it |
| `Styling.HighlightStatus` | app1.py:93-104 | the style is empty or one of the four cell styles; `HighlightFirstMatch` and `HighlightEmpty` state the first-match order in both directions |
| `Styling.StylesDistinct` | app1.py:97-103 | the four cell styles are non-empty and pairwise different |
| `Styling.FirstKeywordDecides` | app1.py:96-103 | a status that contains keyword `k` and none of the earlier keywords gets style `k` |
| `Styling.HighlightFirstMatch` | app1.py:93-104 | for each keyword position `k` the style is style `k` if and only if the status contains keyword `k` and none of the keywords tested before it |
| `Styling.HighlightEmpty` | app1.py:93-104 | the style is empty if and only if the status contains none of the four keywords |
| `Styling.WfhWins` | app1.py:96-97 | any status with `WFH` somewhere in it gets the green style, whatever else it contains |
| `Styling.HighlightOffice` | app1.py:100-101 | `🏢 Office` gets the blue style |
| `Styling.HighlightWfh` | app1.py:96-97 | `🏠 WFH` gets the green style |
| `Styling.HighlightSick` | app1.py:98-99 | `🤒 Sick/Away` gets the red style |
| `Styling.HighlightWorkshop` | app1.py:102-103 | `🛠️ Workshop` gets the yellow style |
| `Styling.HighlightNotUpdated` | app1.py:94-104 | `❓ Not Updated` contains no keyword and gets the empty style |
| `Styling.HighlightOptions` | app1.py:96-103 | each of the four radio choices gets its own style, and the four styles are non-empty and pairwise different |
| `Styling.HighlightKnown` | app1.py:93-104 | for a status the board can hold (a radio choice or the default), the style is empty if and only if the status is `❓ Not Updated` |

## Left out

- Page setup, sidebar widgets, buttons, the checkbox, success messages,
  `st.rerun`, the dataframe rendering and the Refresh button (app1.py:29,
  43-53, 69, 72-75, 77, 82, 87, 107-119). These are UI; the password test
  on line 76 is modelled by `ResetIfAuthorized`. A caller invokes
  `UpdateStatus` when the update button is pressed, and `ResetIfAuthorized`
  when the reset button is pressed while the checkbox is ticked.
- Persistence in `st.session_state` across reruns, and the `'team_data' not
  in st.session_state` guard (app1.py:32). The board object lives for the
  whole session and its constructor is the first run. The caller passes
  `TeamMembers` to it.
- `datetime.now()` and `strftime` (app1.py:65, 86). This is the external
  clock. The formatted time is a parameter and is not checked to have the
  `%H:%M` shape.
- The pandas Styler (`style.applymap`, app1.py:107), a foreign library.
  Only the `highlight_status` callback is modelled.
- `str(val)` in `highlight_status` (app1.py:95). Every `Status` cell holds a
  string, so the model's `HighlightStatus` takes a string.
- `Availability.Board.UpdateStatus`: the source does not check that the
  selected name is on the board. `[0]` on an empty match raises
  `IndexError` before anything is written. The model returns `ok == false`
  and leaves the table unchanged. It does not model the exception that
  aborts the rest of the page run.
- `Availability.Board.Reset`: the source writes whole columns one after
  another (app1.py:79-81). The model clears one row at a time, which gives
  the same final table.
- `app1.py` has no teams or team filtering, no long-term exemption, no
  timed daily reset, no vacation status, no date-and-time stamp and no
  spreadsheet storage. The model follows the code: it resets every row
  unconditionally and stamps only `%H:%M`.
