# VerificaBKP in Dafny

A model of the logic of `venv/Scripts/vbapp.py`, a desktop script that checks
which clients have a backup archive for a given day on Google Drive. The
script keeps a local list of clients. For each client it finds a Drive folder
whose name contains the client's name. It then walks that folder tree looking
for `.zip` archives modified on the chosen day. Matches go into a spreadsheet
report. Clients without a match are listed as not found.

The model covers four parts of that logic:

- `Wrappers.dfy`, module `Wrappers`: the `Option` type.
- `Registry.dfy`, module `ClientRegistry`: the client file `clientes.txt`.
  The file is an `Option<string>`: `None` when it does not exist, otherwise the
  text a text-mode read returns. `load_clients` is `LoadClients`, which splits
  the text with the exact line boundaries of Python's `str.splitlines`
  (`\n`, `\r`, `\r\n`, `\v`, `\f`, `\x1c`, `\x1d`, `\x1e`, `\x85`, U+2028, U+2029).
  `save_client` is the method `ClientFile.SaveClient`, which changes the file
  held by a `ClientFile` object in place.
- `Search.dfy`, module `ArchiveSearch`: `get_client_folder_id`'s
  first-hit-or-none rule and `search_files_in_folder`. The search is a pure
  recursive function over a tree of entries. Each listing is cut to its first
  1000 children, the page size of the listing call. The search is proved equal
  to a separate reference definition: a depth-first walk of the files,
  followed by a filter that keeps the qualifying archives.
- `Runner.dfy`, module `Runner`: the client loop of `run_script`, as a method
  with a `for` loop. It returns the not-found list and the report. The report
  is `None` when no spreadsheet is written.

The Drive service becomes the value `Runner.Service`. It has two parts: what
the folder query returns for a client name, and the listing of a folder id. In
that listing each subfolder carries its own children. Turning a modification
timestamp into a `dd/mm/yyyy` day string is the parameter `day`, left
uninterpreted.

Three behaviours of the code are modelled as written:

- `run_script` tests `if folder_id:`. Under Python truthiness, a folder whose
  id is the empty string counts as not found, just like no folder
  (`Runner.Resolved`).
- `save_client` appends `name + "\n"` without checking how the file ends. The
  "previous lines followed by the new name" property therefore holds only when
  the file is missing, empty, or ends with a line break (`Terminated`). A
  hand-edited file whose last line has no newline gets the new name glued onto
  that line (`UnterminatedFileMergesLines`). A hand-edited file can also
  contain duplicates.
- `save_client` compares the whole name with the loaded lines but writes it
  as text, so a name that holds a line boundary becomes several lines. Saving
  "a\na" into a missing file is accepted and loads as the duplicate pair "a",
  "a" (`MultiLineNameDuplicates`). Saving "a\nb" is accepted a second time,
  because the file then loads as "a", "b" (`MultiLineNameAcceptedTwice`). So
  "the registry has no duplicates" holds only for a registry built by
  `save_client` from names with no line boundary, starting from a missing
  file or a duplicate-free file that ends with a line break.

## Model

| member | source | states |
|---|---|---|
| `ClientRegistry.SplitLines` | venv/Scripts/vbapp.py:40 | `str.splitlines`: no lines iff the text is empty, at most one line per character; its lemmas add that no line holds a boundary (`SplitLinesHaveNoBreaks`), that it inverts writing lines with "\n" (`SplitJoin`), and that it splits text after a final boundary independently (`SplitLinesConcat`) |
| `ClientRegistry.LoadClients` | venv/Scripts/vbapp.py:37-43 | `load_clients`: no clients iff the file is missing or empty, and never more clients than characters in the file |
| `ClientRegistry.SplitLinesHaveNoBreaks` | venv/Scripts/vbapp.py:40 | no loaded client name contains a line boundary |
| `ClientRegistry.SplitJoin` | venv/Scripts/vbapp.py:40-50 | reading back a file written one line at a time with "\n" gives exactly those lines (split inverts join) |
| `ClientRegistry.SplitLinesConcat` | venv/Scripts/vbapp.py:40 | text that ends in a line boundary splits independently of the text appended after it (except "\r" followed by "\n") |
| `ClientRegistry.Appended` | venv/Scripts/vbapp.py:49-50 | append mode keeps the old text (or creates the file) and adds the name and "\n" at the end |
| `ClientRegistry.ClientFile.SaveClient` | venv/Scripts/vbapp.py:47-52 | returns true iff the name is non-empty and not a current line; on true the file gains the name and "\n", on false it is unchanged; for a name with no line boundary saved into a terminated file, the clients become the old ones plus the name, and a duplicate-free registry stays duplicate-free |
| `ClientRegistry.SaveExtendsRegistry` | venv/Scripts/vbapp.py:37-52 | after saving a one-line name into a terminated file, loading returns the previous lines followed by that name, and the file is still terminated |
| `ClientRegistry.SaveKeepsDistinct` | venv/Scripts/vbapp.py:48-52 | a save, accepted or refused, keeps a duplicate-free registry duplicate-free |
| `ClientRegistry.SaveTwiceLeavesOne` | venv/Scripts/vbapp.py:48-52 | after saving a new name, a second save of it is refused and the name occurs exactly once |
| `ClientRegistry.SaveIntoMissingFile` | venv/Scripts/vbapp.py:37-52 | with no file, a non-empty name with no line boundary is accepted and the new registry is exactly that name |
| `ClientRegistry.UnterminatedFileMergesLines` | venv/Scripts/vbapp.py:48-50 | saving "Beta" into a file "Acme" with no final newline is accepted but yields the single line "AcmeBeta" |
| `ClientRegistry.MultiLineNameDuplicates` | venv/Scripts/vbapp.py:40-50 | the name "a\na" is accepted into a missing file and then loads as two equal lines, so the registry is not duplicate-free |
| `ClientRegistry.MultiLineNameAcceptedTwice` | venv/Scripts/vbapp.py:40-50 | the name "a\nb" is accepted, loads as "a" and "b", and is then accepted again |
| `ClientRegistry.SaveTwiceFromMissingFile` | venv/Scripts/vbapp.py:47-52 | two saves of one one-line name (no line boundary) into a missing file: the first succeeds iff the name is non-empty, the second fails, and the registry holds the name once (none if empty) |
| `ArchiveSearch.FolderId` | venv/Scripts/vbapp.py:59-62 | none iff the query returned nothing, otherwise the id of the first hit |
| `ArchiveSearch.FirstHitWins` | venv/Scripts/vbapp.py:59-62 | when several folders match, the first hit's id is returned whatever the later hits are |
| `ArchiveSearch.Qualifies` | venv/Scripts/vbapp.py:74-81 | a qualifying entry is never a folder (entry or folder MIME type), and it is a file with a name and a time whose name ends in ".zip" and whose day is the target |
| `ArchiveSearch.Page` | venv/Scripts/vbapp.py:68 | a listing is the first min(n, 1000) children, in order |
| `ArchiveSearch.SearchFolder` | venv/Scripts/vbapp.py:66-88 | every row has the given client, an archive name ending in ".zip" and the target day |
| `ArchiveSearch.SearchPage` | venv/Scripts/vbapp.py:71-76 | same row property for the loop over one listing page |
| `ArchiveSearch.SearchEntry` | venv/Scripts/vbapp.py:74-86 | same row property for one entry, folder or file |
| `ArchiveSearch.FileRows` | venv/Scripts/vbapp.py:77-86 | a file yields at most its own row, and every row it yields has the client, a ".zip" name and the target day |
| `ArchiveSearch.SearchIsSelectOfWalk` | venv/Scripts/vbapp.py:73-86 | the search equals the depth-first walk of the files filtered to qualifying archives: one row per qualifying file, in walk order, and no other rows |
| `ArchiveSearch.SearchRowsComeFromQualifyingFiles` | venv/Scripts/vbapp.py:74-86 | a row is produced iff some walked file has a name, a time, MIME type application/zip, a ".zip" name and the target day, and the row is built from it; the walk holds no `Folder` entries, and a file carrying the folder MIME type never qualifies |
| `ArchiveSearch.SearchPageAppend` | venv/Scripts/vbapp.py:73-76 | the rows of consecutive entries come out one after the other |
| `ArchiveSearch.SubfolderRowsSpliced` | venv/Scripts/vbapp.py:73-76 | a subfolder's rows appear at the subfolder's position among its siblings |
| `ArchiveSearch.EntriesPastFirstPageIgnored` | venv/Scripts/vbapp.py:67-69 | children after the first 1000 never affect the result |
| `ArchiveSearch.OneOfTwoArchivesMatches` | venv/Scripts/vbapp.py:77-86 | with a.zip on 01/05/2024 and b.zip on 02/05/2024, searching 01/05/2024 gives exactly one row, for a.zip |
| `Runner.Resolved` | venv/Scripts/vbapp.py:100 | `if folder_id:`: no id and the empty id are both falsy, any other id is truthy |
| `Runner.UnresolvedClientNotFound` | venv/Scripts/vbapp.py:99-107 | a client whose folder does not resolve is in the not-found list and no collected row carries its name |
| `Runner.ClientRows` | venv/Scripts/vbapp.py:99-101 | a client's rows all carry that client and the target day; a client whose folder does not resolve has none |
| `Runner.Report` | venv/Scripts/vbapp.py:109-123 | a report is written iff rows were collected, and it holds exactly those rows |
| `Runner.RunScript` | venv/Scripts/vbapp.py:92-125 | the not-found list and report match the client-by-client specification; an input client is not found iff it has no rows; every not-found client is an input client; every reported row belongs to an input client that is not in the not-found list and has the target day; every other client has a row in the report; no report iff every client is not found |
| `Runner.UnmatchedMembers` | venv/Scripts/vbapp.py:98-107 | a name is in the not-found list iff it is an input client with no rows |
| `Runner.CollectedRowsBelongToMatchedClients` | venv/Scripts/vbapp.py:98-104 | every collected row comes from its own client's search, and that client is an input client missing from the not-found list |
| `Runner.MatchedClientsContribute` | venv/Scripts/vbapp.py:100-103 | a client with rows has at least one row in the collected rows |
| `Runner.NoReportIffAllUnmatched` | venv/Scripts/vbapp.py:98-123 | no rows are collected iff the not-found list is the whole input |
| `Runner.UnmatchedKeepsOrder` | venv/Scripts/vbapp.py:98-107 | the not-found list keeps input order: for `a + b`, it is the list for `a` followed by the list for `b` |
| `Runner.OnlyUnmatchedClientListed` | venv/Scripts/vbapp.py:98-107 | of one client with a match and one without, only the second is listed |

## Left out

- Authentication (`authenticate_gdrive`, vbapp.py:18-33): token loading, refresh, the consent flow and writing `token.json` are library calls and I/O.
- Drive queries (vbapp.py:57-58, 67-68): the query strings, the "name contains" matching and the network calls are not modelled. Their answers are given as `Runner.Service`.
- The listing call's query by folder id: a subfolder in the model carries its own listing instead of being listed by its id.
- Date conversion (`pd.to_datetime(...).strftime`, vbapp.py:80) is the uninterpreted parameter `day`. A timestamp it cannot parse would raise an exception; that is not modelled.
- A missing `id` or `mimeType` key (a `KeyError` in vbapp.py:62, 74) is not modelled: a hit always has an id and a file always has a MIME type.
- Writing the spreadsheet and its error branches (vbapp.py:110-121) are library I/O. The model keeps only which rows would be written, as `Runner.Report`.
- Message boxes (vbapp.py:113, 116-123, 128) are UI output.
- The catch-all exception handler of `run_script` (vbapp.py:127-129) depends on failures in foreign code.
- The tkinter UI (`add_client`, `execute_script`, `update_not_found_grid` and the widget setup, vbapp.py:133-211) is not modelled. This includes the `strip()` that `add_client` applies before calling `save_client`.
- `ClientRegistry.LoadClients`: file I/O and encoding errors are not modelled. The file is always readable: a `PermissionError` when opening it (vbapp.py:39) or bytes the locale codec cannot decode would raise instead of returning lines.
- `ClientRegistry.ClientFile.SaveClient`: write errors are not modelled, so every name is writable. Under a locale codec such as cp1252, a name it cannot encode (for example "Łódź") would raise `UnicodeEncodeError` at vbapp.py:50 instead of returning true. By then append mode would already have created an empty file. `ClientRegistry.SaveIntoMissingFile` and `ClientRegistry.SaveTwiceFromMissingFile` inherit this assumption.
- Text-mode newline translation is not modelled: the registry file is the text a read returns, and appending "\n" appends that character.
- `ClientRegistry.SaveKeepsDistinct`: proved only for names with no line boundary, saved into a terminated file. A name holding a line boundary can create duplicates, as `MultiLineNameDuplicates` shows.
- `ClientRegistry.SaveTwiceLeavesOne`: proved only for names with no line boundary, saved into a terminated file. A name holding a line boundary can be accepted twice, as `MultiLineNameAcceptedTwice` shows.
- `ClientRegistry.SaveExtendsRegistry`: proved only for names with no line boundary and for files that are missing, empty or end with a line boundary. Other files behave as `UnterminatedFileMergesLines` shows.
- `Runner.RunScript`: the report is compared with the client-by-client definition, not with a spreadsheet. Column names and the overwrite of an existing file are not modelled.
