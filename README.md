# hyprlauncher, modelled in Dafny

hyprlauncher is an application launcher for Wayland compositors. It keeps a name-keyed
cache of the applications found in the desktop-entry directories and answers each
keystroke in its search field with a ranked list of entries. This project models its core
logic and proves properties of that model:

- **The index and the heatmap** (`launcher.dfy`, module `Launcher`).
  - Parsing one desktop entry, with its defaults.
  - Classifying a filesystem path as a folder, an executable or a typed document.
  - Building the list of desktop-entry directories from `XDG_DATA_DIRS`.
  - Scanning those directories.
  - Merging the parsed entries with the launch counts of the heatmap into the shared
    cache. A later entry with the same name wins.
  - The read-modify-write update of the heatmap file.
- **The search** (`search.dfy`, module `Search`).
  - The empty query ranks every entry by launch count and by having an icon.
  - Any other query keeps the entries the fuzzy matcher accepts, scored by the match
    plus a launch bonus and an icon bonus.
  - Both modes sort by descending score (an in-place insertion sort over an array) and
    keep the first 100.
- **The configuration** (`config.dfy`, module `Config`).
  - `merge_json`, the schema-driven merge of the user's JSON with the defaults.
  - The defaults themselves, as the JSON schema.
  - The border rule of the generated CSS.
  - The debounce of the configuration-file watcher.
- **The window's decisions** (`ui.dfy`, module `Ui`).
  - How an entry is launched: the Exec-line rewrite and the folder navigation text.
  - The result store and the selection moves.
  - The wrapping keystroke counter that cancels superseded searches.

`wrappers.dfy` holds `Option`. `strings.dfy` models the Rust standard-library string and
path calls the core makes: `split`, `replace`, `trim`, `contains`, `Path::file_name`,
`Path::extension` and decimal formatting. `sequences.dfy` holds generic sequence and
multiset lemmas.

Everything outside the process is a parameter of the model:
- the desktop-file parser, `read_dir`, `fs::metadata` and the `file --mime-type` output;
- shell and tilde expansion, and the value of `XDG_DATA_DIRS`;
- the fuzzy matcher;
- the heatmap's JSON codec and whether a write reaches the disk;
- the clock readings and file reads the watcher sees.

The iteration order of the cache's hash map is an explicit sequence of its keys.

## Model

| member | source | states |
|---|---|---|
| Launcher.ParseDesktopEntry | src/launcher.rs:143-171 | The result is None exactly when the file did not parse, `NoDisplay` is exactly "true", or `Name` is missing. Exec defaults to "", Icon to "application-x-executable", and the description is Comment, else GenericName, else "". Every entry gets the file's path, count 0, kind Application and boost 0. |
| Launcher.ParseEntrySection | src/launcher.rs:151-170 | Writing a fresh application entry out as a Desktop Entry section and parsing it back gives the same entry. |
| Launcher.MimeTypeInfo | src/launcher.rs:213-237 | The icon is "text-x-generic" when the MIME string contains "text/". Otherwise it is "application-pdf" for extension "pdf" and "application-x-generic" for anything else. The command is always `xdg-open "<path>"`. |
| Launcher.CreateFileEntry | src/launcher.rs:173-210 | There is an entry exactly when expansion succeeds, the metadata says file or directory, and the path has a file name. A directory gets icon "folder", empty exec and boost 2000. A file with any of the 0o111 bits gets the generic icon, exec = the quoted path and boost 0. Any other file gets the MIME icon and command with boost 0. Every entry is kind File, count 0, with an empty description and the expanded path. |
| Launcher.GetDesktopPaths | src/launcher.rs:79-97 | The result has one "<piece>/applications" per ':'-separated piece of `XDG_DATA_DIRS`, in order, then the five fixed directories, tilde-expanded. When the variable is unset, the result is exactly those five. |
| Launcher.DesktopPathsFromXdg | src/launcher.rs:82-88 | No XDG piece contains ':', and the pieces joined back with ':' give the variable's value. So the XDG directories are exactly the pieces of the variable. |
| Launcher.DesktopPathsShape | src/launcher.rs:79-97 | There are five directories without `XDG_DATA_DIRS` and one more per ':'-separated piece with it. Position k of the XDG part is piece k plus "/applications", and the last five are the fixed directories, tilde-expanded, in order. |
| Launcher.ScanFilesMembers | src/launcher.rs:110-120 | A directory's entries are exactly what its files contribute. Each entry comes from a listed file whose extension is exactly "desktop" and which parses to that entry. Every such listed file has its entry scanned. |
| Launcher.ScanFilesAppend | src/launcher.rs:110-120 | Files are scanned in listing order: scanning a listing gives the entries of its first part followed by those of the rest. |
| Launcher.ScanDirsMembers | src/launcher.rs:107-125 | The scan's entries are exactly the contributions of the files of the readable directories. Each entry comes from a file listed in a readable directory of the list, and every contributing file of every readable directory has its entry scanned. |
| Launcher.ScanDirsAppend | src/launcher.rs:107-125 | Directories are scanned in list order: the entries of a directory list are those of its first part followed by those of the rest. |
| Launcher.ScannedAreApplications | src/launcher.rs:161-170 | Every scanned entry has kind Application, count 0 and boost 0. |
| Launcher.MergeEntries | src/launcher.rs:128-133 | The merge loop builds exactly the index of the entries: each entry is inserted in order under its name, seeded from the heatmap. |
| Launcher.IndexKeys | src/launcher.rs:128-133 | The index's keys are exactly the names of the entries, and each key maps to an entry of that name. |
| Launcher.IndexLastWins | src/launcher.rs:132 | Under a name, the index holds the seeded copy of the last entry with that name. |
| Launcher.IndexCounts | src/launcher.rs:129-131 | Each indexed count is `heatmap[name]` when the heatmap has the name, else 0. |
| Launcher.IndexKinds | src/launcher.rs:128-133 | Seeding keeps the kind, so an index of applications holds only applications. |
| Launcher.AppCache.constructor | src/launcher.rs:8-9 | The cache starts empty. |
| Launcher.AppCache.LoadApplications | src/launcher.rs:99-140 | The cache is replaced wholesale by the index of the scanned entries, seeded from the loaded heatmap. Its keys are the scanned names. Every value is an Application named by its key, and its count comes from the heatmap, else 0. Every file with extension "desktop" that parses, in any readable desktop-entry directory, has its name in the cache. |
| Launcher.HeatmapStore.Load | src/launcher.rs:71-77 | A missing file or undecodable text gives the empty map, never an error. Otherwise the result is the decoded map. |
| Launcher.Written | src/launcher.rs:64 | `fs::write` that completes leaves exactly the text. One whose create fails leaves the file as it was. One interrupted after truncating leaves a prefix of the text. |
| Launcher.HeatmapStore.Save | src/launcher.rs:53-68 | The file becomes what writing the encoding of the loaded map, with `name` set to `count`, leaves under the given write outcome. After a completed write with a codec that round-trips, `name` maps to `count` and every other key is unchanged. |
| Launcher.IncrementLaunchCount | src/launcher.rs:41-50 | It always reports success. It writes `launch_count + 1` under the entry's name, with the file's outcome as for Save. The entry, a value, is not changed. |
| Search.ScoresIncreaseWithLaunches | src/search.rs:22-62 | With everything else fixed, more launches give a strictly higher score in both modes. |
| Search.MoreLaunchedRanksHigher | src/search.rs:22-62 | Of two entries with the same icon and the same fuzzy score, the more launched one scores higher in both modes. |
| Search.ScoreAll | src/search.rs:19-38 | The empty-query candidates are every entry, in order, each scored `(count > 0 ? count*100 + 1000 : 0) + (icon non-generic ? 500 : 0)`. |
| Search.ScoreAllApps | src/search.rs:19-38 | The empty-query candidates' entries are exactly the searched entries. |
| Search.MatchAll | src/search.rs:44-66 | Each fuzzy candidate is a searched entry the matcher accepts, scored `fuzzy + (count > 0 ? count*50 + 500 : 0) + (icon non-generic ? 250 : 0)`. |
| Search.MatchAllComplete | src/search.rs:48-49 | Every entry the matcher accepts has its candidate, so only rejected entries are dropped. |
| Search.MatchAllSubMultiset | src/search.rs:44-66 | The fuzzy candidates' entries form a sub-multiset of the searched entries. |
| Search.CandidateFacts | src/search.rs:18-66 | The empty query selects frequency scoring and any other query fuzzy scoring. Every candidate is a searched entry scored as its mode prescribes. |
| Search.CandidateApps | src/search.rs:18-66 | In either mode the candidates' entries form a sub-multiset of the searched entries. |
| Search.SortByScore | src/search.rs:39 | After the in-place sort the array is in non-increasing score order and is a permutation of the old contents. |
| Search.TopOfSorted | src/search.rs:39-40 | A prefix of a sorted list holds the top scores: everything cut off scores no higher than anything kept. |
| Search.TruncatedTop | src/search.rs:68-69 | Truncating a sorted permutation of the candidates gives a sorted sub-multiset of them. Every left-out candidate scores at most every kept one, and the kept entries form a sub-multiset of the candidates' entries. |
| Search.SearchApplications | src/search.rs:12-76 | The results number min(#candidates, 100); with the empty query, min(#cache, 100). They are sorted by non-increasing score, they are a sub-multiset of the candidates, and they hold the top scores. Their entries form a sub-multiset of the cache's values. Each result is scored as its mode prescribes. |
| Config.MergeJson | src/config.rs:563-624 | It returns `default` when existing or default is not an object, and the default object when the schema is not an object. At depth ≥ 10 it returns the default object unchanged. An object default gives an object, and below the limit its keys are a subset of the schema's keys. |
| Config.MergeKey | src/config.rs:587-617 | Per key: keys outside the schema are dropped. Two objects are merged recursively against the default's sub-value or Null. A same-kind existing value is kept. A wrong-kind or missing value takes the default's value, or is absent when the default lacks the key. |
| Config.MergeMissingDefaultObject | src/config.rs:589-597 | A nested object whose default lacks the key merges against Null, and the key ends up Null. |
| Config.MergeConforms | src/config.rs:563-624 | Merged against the schema as default, any JSON has the schema's shape: the same keys and kinds at every level. |
| Config.MergeKeepsConforming | src/config.rs:587-617 | A configuration object that already has the schema's shape is returned unchanged. |
| Config.MergeIdempotent | src/config.rs:563-624 | Merging the merged value again changes nothing. |
| Config.MergeBelowLimit | src/config.rs:577-585 | When the schema is shallower than the remaining depth, the result does not depend on the starting depth. |
| Config.DefaultConfigNesting | src/config.rs:47-232 | The defaults, as JSON, are at most three objects deep. |
| Config.LoadBelowDepthLimit | src/config.rs:290 | The merge `Config::load` performs never reaches the depth limit: from any counter value up to 7 it gives what it gives at 0. |
| Config.LoadedConfigShape | src/config.rs:282-290 | Whatever the user's JSON, the merged configuration has exactly the keys window, theme and debug and the defaults' shape throughout. A second merge leaves it unchanged. |
| Config.BorderStyleCases | src/config.rs:319-330 | The rule is "border: none;" exactly when `show_border` is false. Otherwise it starts "border: <width>px solid ", the width reads back as the configured number, and it ends "@borders;" with GTK colours or " <theme.colors.border>;" without. |
| Config.RunStopped | src/config.rs:553-556 | Once a receive error (a disconnected channel) ends the loop, later events change nothing. Errors that `notify` reports arrive as messages and do not stop it. |
| Config.RunWellFired | src/config.rs:525-551 | Firing events are changes, in increasing order. Each fired against the state the previous firing left, and the final state is the one the last firing left. |
| Config.RunFiresExactly | src/config.rs:526-551 | A change that arrives while the loop runs fires the callback exactly when it passes the debounce against the state the earlier events left: more than 250 ms since the last accepted change, the file read, and content different from the last accepted. With RunWellFired, the callback runs at exactly the qualifying changes. |
| Config.RunSpaced | src/config.rs:530-545 | Each callback sees successfully read content different from the last accepted content. It comes more than 250 ms after the last accepted change, or after watcher set-up for the first. |
| Config.WatchChanges | src/config.rs:525-558 | The loop fires the callback at exactly the events `Run` fires at and ends in the state `Run` ends in. Content and timestamp change only when it fires. |
| Ui.RewriteExec | src/ui.rs:316-325 | The command handed to the shell neither starts nor ends with whitespace, whatever the Exec line. |
| Ui.RewritePlainExec | src/ui.rs:316-325 | An Exec line without '%' is only trimmed. |
| Ui.RewriteTrailingCode | src/ui.rs:316-325 | After a '%'-free command, a trailing %f/%F/%u/%U/%i disappears, %c becomes the entry's name, and any other code stays; the line is then trimmed. |
| Ui.ReplaceAssembled | src/ui.rs:317-322 | On a line made of '%'-free pieces and two-character codes whose second character is not '%', one `replace` of a code rewrites exactly the codes equal to it and nothing else. |
| Ui.RewriteCodes | src/ui.rs:316-325 | On any such line, with codes anywhere, every %f/%F/%u/%U/%i is removed, every %c becomes the entry's name, every other code is kept, the pieces are kept, and the result is trimmed. |
| Strings.ReplaceFirst | src/ui.rs:317-322 | `str::replace` copies the text before the first occurrence, puts the replacement in place of that occurrence, and carries on after it. |
| Strings.ReplaceAbsent | src/ui.rs:317-322 | `str::replace` of a pattern that does not occur returns the text unchanged. |
| Ui.FolderSearchText | src/ui.rs:337-341 | The folder's search text ends in '/'. It is the path itself exactly when the path already ends in '/', and otherwise the path with one '/' appended. |
| Ui.FolderSearchTextIdempotent | src/ui.rs:337-341 | Applying the folder rule to its own output changes nothing. |
| Ui.LaunchApplication | src/ui.rs:313-356 | The window closes exactly when the entry is not a folder File. A command is spawned exactly when it closes, and search text is set exactly when it does not. A launch is recorded exactly for Applications. Applications run the rewritten Exec line, other Files their Exec unchanged, and folders set the folder search text. |
| Ui.LaunchFileEntry | src/ui.rs:335-353 | Launching an entry built by `create_file_entry` records no launch. A folder keeps the window open and moves the search to its path. Any other file runs its Exec as it is. |
| Ui.NextRow | src/ui.rs:293-300 | Moving down goes from row i to row i+1 exactly when that row exists, otherwise the selection stays. It never leaves the list and never creates a selection. |
| Ui.PreviousRow | src/ui.rs:302-311 | Moving up goes from row i to row i-1 exactly when i > 0 and row i-1 exists, otherwise the selection stays. It never leaves the list. |
| Ui.NextThenPrevious | src/ui.rs:293-311 | A move down that happened is undone by a move up, and the other way round. |
| Ui.NextRowsStopAtLast | src/ui.rs:293-300 | n moves down from row i reach row min(i+n, last). |
| Ui.PreviousRowsStopAtFirst | src/ui.rs:302-311 | n moves up from row i reach row max(i-n, 0). |
| Ui.ResultsView.constructor | src/ui.rs:74 | The store starts empty with nothing selected. |
| Ui.ResultsView.GetAppData | src/ui.rs:219-221 | Row i's entry is the store's i-th element, and there is none past the end of the store. |
| Ui.ResultsView.UpdateResultsList | src/ui.rs:223-244 | The store and the rows are replaced by the results' entries in order. Row 0 is selected exactly when there are results, and row i then yields result i's entry. |
| Ui.ResultsView.SelectNext | src/ui.rs:293-300 | The selection moves as NextRow says, and the store and rows are unchanged. |
| Ui.ResultsView.SelectPrevious | src/ui.rs:302-311 | The selection moves as PreviousRow says, and the store and rows are unchanged. |
| Ui.WrappingIncrement | src/ui.rs:91 | `wrapping_add(1)` on a u32 is (c + 1) mod 2^32. |
| Ui.BumpedIsModular | src/ui.rs:89-93 | After n keystrokes the counter is (c + n) mod 2^32. |
| Ui.StaleTicket | src/ui.rs:85-100 | A search scheduled at counter c still runs after n more keystrokes exactly when n is a multiple of 2^32, so any smaller number of later keystrokes cancels it. (`SearchCounter.ShouldRun` is the check at src/ui.rs:98.) |
| Ui.SearchCounter.constructor | src/ui.rs:85 | The counter starts at 0. |
| Ui.SearchCounter.Keystroke | src/ui.rs:89-93 | A keystroke wraps the counter forward by one, and the scheduled search holds the new value. |

## Notes on the code's behaviour

- The search has two modes: the empty query and the fuzzy query. It has no path-listing
  mode, no exact-match bonus, no `/usr/bin` fallback and no de-duplication by name. The
  cap is the literal 100.
- `get_mime_type_info` distinguishes only text (by MIME type) and pdf (by extension).
- The sort is unstable, so no order among equal scores is promised.
- `increment_launch_count` writes the heatmap file only. The cached entry keeps its count
  until the next `load_applications`, so a search right after a launch ranks the entry
  as before.
- Exec-line placeholders are rewritten by the window at launch time, in
  `launch_application`.

## Left out

- GTK widgets, CSS provider wiring, key-controller dispatch, `LauncherWindow::new`,
  `create_result_row`, the 150 ms timer and focus handling: they are UI plumbing. Only
  the decisions listed above are modelled.
- `src/app.rs` and `src/main.rs`: start-up and timing output with no logic of their own.
- Concurrency is modelled sequentially: rayon's parallel iteration and sort, tokio's
  `RwLock`, `spawn_blocking` and oneshot channel, the thread spawned by
  `increment_launch_count`, the watcher thread and the atomic logging flag.
- File and process I/O (`read_dir`, `fs::metadata`, reading and writing the heatmap and
  the configuration, the `file` subprocess, `sh -c`), the desktop-file parser, shell
  expansion, the environment and serde (de)serialisation are inputs or oracles.
- `Config::load` apart from its call to `merge_json`: file creation, reading,
  pretty-printing, writing back and `from_value` are I/O and serde.
- `CONFIG_DIR` probing and the CSS template text of `get_css` apart from the border rule:
  I/O and formatting only.
- The SkimMatcherV2 fuzzy matcher is an arbitrary function from (name, query) to an
  optional score.
- Launcher.IncrementLaunchCount: requires `launch_count` below the u32 maximum, because
  `launch_count + 1` panics there in a debug build and wraps in a release build.
- Config.MergeJson: the source's static `CURRENT_DEPTH` counter is the `depth` parameter.
  On hitting the limit the source also resets the counter to 0, after which the
  callers' decrements wrap around. The defaults are three levels deep
  (`LoadBelowDepthLimit`), so the merge the program performs never gets there.
- JSON numbers are integers. Every number in the configuration is an integer, and the
  merge only compares kinds.
- Config.BorderStyleCases: the width is read back only for non-negative widths. The
  source's `border_width` is an `i32`, and a negative width is printed with its sign.
- Ui.LaunchApplication: the spawned command, the launch record and the search text are
  returned as an outcome value. The launch record is performed by
  `IncrementLaunchCount`, and the spawn and the text-field update are GTK and process
  calls.
- Ui.RewriteCodes: lines where '%' is followed by another '%' or ends the line are not
  characterised. The source has no special case for the "%%" escape, and `replace` can
  then join a '%' of one code with the next character. Ui.RewriteExec still holds for them.
- Row indices come from GTK as `i32` and are always non-negative for rows in the list.
  They are modelled as naturals.
