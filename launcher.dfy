/**
 * The application index of the launcher: turning desktop-entry files and filesystem
 * paths into entries, the list of directories scanned for desktop entries, the
 * persisted launch counts ("heatmap"), and the rebuild of the name-keyed cache.
 *
 * Filesystem reads, the desktop-file parser, `file --mime-type` and shell expansion
 * are inputs (function-valued parameters or plain values); nothing here does I/O.
 */
module Launcher {
  import opened Wrappers
  import opened Strings

  /** Rust's `u32`, the type of a launch count. */
  const U32_MAX: nat := 0xFFFF_FFFF
  type U32 = n: nat | n <= U32_MAX

  /** Directory bonus given to folders by `create_file_entry`. */
  const DEFAULT_SCORE_BOOST: int := 2000

  /** The icon name that means "no icon of its own". */
  const GENERIC_ICON: string := "application-x-executable"

  datatype EntryType = Application | File

  datatype AppEntry = AppEntry(
    name: string,
    description: string,
    path: string,
    exec: string,
    iconName: string,
    launchCount: U32,
    entryType: EntryType,
    scoreBoost: int)

  // ---------------------------------------------------------------------------
  // Desktop entries

  /** The attributes of a desktop file's "Desktop Entry" section. A file without that
      section reads as the empty map (every attribute lookup fails). */
  type Section = map<string, string>

  function Attr(section: Section, key: string): Option<string> {
    if key in section then Some(section[key]) else None
  }

  /**
   * `parse_desktop_entry`: `parsed` is what the desktop-file parser made of the file at
   * `path` (None when it could not be read or parsed). Hidden entries and entries
   * without a name are dropped; missing attributes take their defaults.
   */
  function ParseDesktopEntry(parsed: Option<Section>, path: string): (r: Option<AppEntry>)
    ensures r.None? <==> parsed.None? || Attr(parsed.value, "NoDisplay") == Some("true")
                         || "Name" !in parsed.value
    ensures r.Some? ==> var s := parsed.value;
      && r.value.name == s["Name"]
      && r.value.exec == (if "Exec" in s then s["Exec"] else "")
      && r.value.iconName == (if "Icon" in s then s["Icon"] else GENERIC_ICON)
      && r.value.description == (if "Comment" in s then s["Comment"]
                                 else if "GenericName" in s then s["GenericName"] else "")
    ensures r.Some? ==> r.value.path == path && r.value.launchCount == 0
                        && r.value.entryType == Application && r.value.scoreBoost == 0
  {
    match parsed
    case None => None
    case Some(section) =>
      if Attr(section, "NoDisplay").GetOr("") == "true" then None
      else match Attr(section, "Name")
        case None => None
        case Some(name) =>
          Some(AppEntry(
            name := name,
            description := match Attr(section, "Comment")
                           case Some(c) => c
                           case None => Attr(section, "GenericName").GetOr(""),
            path := path,
            exec := Attr(section, "Exec").GetOr(""),
            iconName := Attr(section, "Icon").GetOr(GENERIC_ICON),
            launchCount := 0,
            entryType := Application,
            scoreBoost := 0))
  }

  /** The desktop-file section that describes an entry: the reference against which
      the parser's defaults are checked. */
  function EntrySection(e: AppEntry): Section {
    map["Name" := e.name, "Exec" := e.exec, "Icon" := e.iconName, "Comment" := e.description]
  }

  /** Writing a fresh application entry out as a section and parsing it back gives the
      same entry. */
  lemma ParseEntrySection(e: AppEntry)
    requires e.entryType == Application && e.launchCount == 0 && e.scoreBoost == 0
    ensures ParseDesktopEntry(Some(EntrySection(e)), e.path) == Some(e)
  {
    var s := EntrySection(e);
    assert "NoDisplay" !in s;
  }

  // ---------------------------------------------------------------------------
  // Filesystem entries

  /** What `fs::metadata` reports about a path. */
  datatype Metadata = Metadata(isFile: bool, isDir: bool, mode: bv32)

  /** The executable bits 0o111 of a Unix mode. */
  const EXEC_BITS: bv32 := 0x49

  /** `get_mime_type_info`: `mimeType` is the output of `file --mime-type` for the path
      (empty when the command failed). */
  function MimeTypeInfo(path: string, mimeType: string): (r: (string, string))
    ensures r.1 == "xdg-open \"" + path + "\""
    ensures Contains(mimeType, "text/") ==> r.0 == "text-x-generic"
    ensures !Contains(mimeType, "text/") ==>
      r.0 == (if Extension(path) == Some("pdf") then "application-pdf" else "application-x-generic")
  {
    var icon :=
      if Contains(mimeType, "text/") then "text-x-generic"
      else match Extension(path)
        case Some(ext) => if ext == "pdf" then "application-pdf" else "application-x-generic"
        case None => "application-x-generic";
    (icon, "xdg-open \"" + path + "\"")
  }

  /** The path `create_file_entry` works on: paths starting with '~' or '$' go through
      shell expansion (`expand`), which may fail. */
  function ExpandPath(path: string, expand: string -> Option<string>): Option<string> {
    if StartsWith(path, "~") || StartsWith(path, "$") then expand(path) else Some(path)
  }

  /**
   * `create_file_entry`: a folder, an executable or some other file at `path`.
   * `stat` plays `fs::metadata` and `mimeOf` the `file --mime-type` subprocess.
   */
  function CreateFileEntry(path: string, expand: string -> Option<string>,
                           stat: string -> Option<Metadata>, mimeOf: string -> string): (r: Option<AppEntry>)
    ensures r.Some? ==> ExpandPath(path, expand).Some?
    ensures r.Some? ==> var p := ExpandPath(path, expand).value;
      && stat(p).Some? && (stat(p).value.isFile || stat(p).value.isDir)
      && Some(r.value.name) == FileName(p)
      && r.value.path == p && r.value.description == "" && r.value.launchCount == 0
      && r.value.entryType == File
    ensures ExpandPath(path, expand).Some? ==> var p := ExpandPath(path, expand).value;
      (stat(p).Some? && (stat(p).value.isFile || stat(p).value.isDir) && FileName(p).Some?
       <==> r.Some?)
    ensures r.Some? ==> var md := stat(r.value.path).value;
      if md.isDir then
        r.value.iconName == "folder" && r.value.exec == "" && r.value.scoreBoost == DEFAULT_SCORE_BOOST
      else if md.mode & EXEC_BITS != 0 then
        r.value.iconName == GENERIC_ICON && r.value.exec == "\"" + r.value.path + "\""
        && r.value.scoreBoost == 0
      else
        (r.value.iconName, r.value.exec) == MimeTypeInfo(r.value.path, mimeOf(r.value.path))
        && r.value.scoreBoost == 0
  {
    match ExpandPath(path, expand)
    case None => None
    case Some(p) =>
      match stat(p)
      case None => None
      case Some(md) =>
        if !md.isFile && !md.isDir then None
        else match FileName(p)
          case None => None
          case Some(name) =>
            var kind :=
              if md.isDir then ("folder", "", DEFAULT_SCORE_BOOST)
              else if md.mode & EXEC_BITS != 0 then (GENERIC_ICON, "\"" + p + "\"", 0)
              else var info := MimeTypeInfo(p, mimeOf(p)); (info.0, info.1, 0);
            Some(AppEntry(name, "", p, kind.1, kind.0, 0, File, kind.2))
  }

  // ---------------------------------------------------------------------------
  // Desktop-entry directories

  /** The fixed directories scanned after those from `XDG_DATA_DIRS`, before tilde expansion. */
  const DESKTOP_PATHS: seq<string> := [
    "/usr/share/applications",
    "/usr/local/share/applications",
    "/var/lib/flatpak/exports/share/applications",
    "~/.local/share/applications",
    "~/.local/share/flatpak/exports/share/applications"]

  /** The directories scanned for desktop entries: one "<dir>/applications" per ':'-separated
      piece of `XDG_DATA_DIRS` (`xdg`, None when unset), then the fixed list as `tilde`
      expands it. */
  function DesktopPaths(xdg: Option<string>, tilde: string -> string): seq<string> {
    XdgPaths(xdg) + FixedPaths(tilde)
  }

  function XdgPaths(xdg: Option<string>): seq<string> {
    match xdg
    case None => []
    case Some(dirs) =>
      var pieces := Split(dirs, ':');
      seq(|pieces|, k requires 0 <= k < |pieces| => pieces[k] + "/applications")
  }

  function FixedPaths(tilde: string -> string): (r: seq<string>)
    ensures |r| == |DESKTOP_PATHS|
  {
    seq(|DESKTOP_PATHS|, k requires 0 <= k < |DESKTOP_PATHS| => tilde(DESKTOP_PATHS[k]))
  }

  /**
   * `get_desktop_paths`: extends an empty list with the XDG directories, then with the
   * expanded fixed directories.
   */
  method GetDesktopPaths(xdg: Option<string>, tilde: string -> string) returns (paths: seq<string>)
    ensures paths == DesktopPaths(xdg, tilde)
    ensures xdg.None? ==> |paths| == 5
    ensures xdg.Some? ==> |paths| == |Split(xdg.value, ':')| + 5
    ensures xdg.Some? ==> forall k :: 0 <= k < |Split(xdg.value, ':')| ==>
      paths[k] == Split(xdg.value, ':')[k] + "/applications"
    ensures forall k :: 0 <= k < 5 ==> paths[|paths| - 5 + k] == tilde(DESKTOP_PATHS[k])
  {
    paths := [];
    if xdg.Some? {
      var pieces := Split(xdg.value, ':');
      var xdgPaths := XdgPaths(xdg);
      var i := 0;
      while i < |pieces|
        invariant 0 <= i <= |pieces|
        invariant paths == xdgPaths[..i]
      {
        assert xdgPaths[..i + 1] == xdgPaths[..i] + [pieces[i] + "/applications"];
        paths := paths + [pieces[i] + "/applications"];
        i := i + 1;
      }
      assert xdgPaths[..|pieces|] == xdgPaths;
    }
    var front := paths;
    var fixed := FixedPaths(tilde);
    var j := 0;
    while j < |DESKTOP_PATHS|
      invariant 0 <= j <= |DESKTOP_PATHS|
      invariant paths == front + fixed[..j]
    {
      assert fixed[..j + 1] == fixed[..j] + [tilde(DESKTOP_PATHS[j])];
      paths := paths + [tilde(DESKTOP_PATHS[j])];
      j := j + 1;
    }
    assert fixed[..|DESKTOP_PATHS|] == fixed;
    DesktopPathsShape(xdg, tilde);
  }

  /** How many directories there are and where each comes from. */
  lemma DesktopPathsShape(xdg: Option<string>, tilde: string -> string)
    ensures var paths := DesktopPaths(xdg, tilde);
      && (xdg.None? ==> |paths| == 5)
      && (xdg.Some? ==> |paths| == |Split(xdg.value, ':')| + 5)
      && (xdg.Some? ==> forall k :: 0 <= k < |Split(xdg.value, ':')| ==>
            paths[k] == Split(xdg.value, ':')[k] + "/applications")
      && (forall k :: 0 <= k < 5 ==> paths[|paths| - 5 + k] == tilde(DESKTOP_PATHS[k]))
  {
    var paths := DesktopPaths(xdg, tilde);
    var front := XdgPaths(xdg);
    forall k | 0 <= k < 5 ensures paths[|paths| - 5 + k] == tilde(DESKTOP_PATHS[k]) {
      assert paths[|front| + k] == FixedPaths(tilde)[k];
    }
  }

  /** Every desktop-entry directory is a piece of `XDG_DATA_DIRS` followed by "/applications"
      or one of the expanded fixed directories, and the XDG pieces joined back with ':'
      give the variable's value. */
  lemma DesktopPathsFromXdg(dirs: string, tilde: string -> string)
    ensures var paths := DesktopPaths(Some(dirs), tilde);
      var pieces := Split(dirs, ':');
      && |paths| == |pieces| + 5
      && Join(pieces, ':') == dirs
      && (forall k :: 0 <= k < |pieces| ==> ':' !in pieces[k] && paths[k] == pieces[k] + "/applications")
  {
    JoinSplit(dirs, ':');
    SplitPieces(dirs, ':');
  }

  // ---------------------------------------------------------------------------
  // Scanning the directories

  /** `read_dir` on a directory: the paths of its readable entries, None when the
      directory cannot be read. */
  type DirLister = string -> Option<seq<string>>

  /** The desktop-file parser applied to one file. */
  type DesktopParser = string -> Option<Section>

  /** What one listed file contributes to a scan: the entry it parses to when its
      extension is exactly "desktop", nothing otherwise. */
  function Contribution(f: string, parse: DesktopParser): Option<AppEntry> {
    if Extension(f) == Some("desktop") then ParseDesktopEntry(parse(f), f) else None
  }

  /** The entries of one directory: files whose extension is exactly "desktop" and that
      parse to a displayable entry, in listing order. */
  function ScanFiles(files: seq<string>, parse: DesktopParser): (r: seq<AppEntry>)
    ensures |r| <= |files|
  {
    if files == [] then []
    else
      var rest := ScanFiles(files[1..], parse);
      match Contribution(files[0], parse)
      case Some(e) => [e] + rest
      case None => rest
  }

  /** A directory's entries are exactly the contributions of its files: every entry comes
      from a listed file, and every listed file that contributes an entry has it scanned. */
  lemma {:induction false} ScanFilesMembers(files: seq<string>, parse: DesktopParser)
    ensures forall e :: e in ScanFiles(files, parse) ==> e.path in files && Contribution(e.path, parse) == Some(e)
    ensures forall f :: f in files && Contribution(f, parse).Some? ==> Contribution(f, parse).value in ScanFiles(files, parse)
  {
    if files != [] {
      var f := files[0];
      var rest := ScanFiles(files[1..], parse);
      ScanFilesMembers(files[1..], parse);
      assert forall g :: g in files[1..] ==> g in files;
      assert forall g :: g in files ==> g == f || g in files[1..];
      match Contribution(f, parse)
      case Some(e) =>
        assert ScanFiles(files, parse) == [e] + rest;
        assert e.path == f;
      case None =>
        assert ScanFiles(files, parse) == rest;
    }
  }

  /** Scanning keeps listing order: the entries of a listing are those of its first part
      followed by those of the rest. */
  lemma {:induction false} ScanFilesAppend(a: seq<string>, b: seq<string>, parse: DesktopParser)
    ensures ScanFiles(a + b, parse) == ScanFiles(a, parse) + ScanFiles(b, parse)
  {
    if a == [] {
      assert a + b == b;
    } else {
      var ab := a + b;
      assert ab[0] == a[0];
      assert ab[1..] == a[1..] + b;
      ScanFilesAppend(a[1..], b, parse);
    }
  }

  /** `read_dir` over each directory in turn, concatenated; unreadable directories
      contribute nothing. */
  function ScanDirs(dirs: seq<string>, list: DirLister, parse: DesktopParser): seq<AppEntry> {
    if dirs == [] then []
    else
      var here := match list(dirs[0]) case Some(files) => ScanFiles(files, parse) case None => [];
      here + ScanDirs(dirs[1..], list, parse)
  }

  /** The scan's entries are exactly the contributions of the files of the readable
      directories: each comes from such a file, and each such file has its entry scanned. */
  lemma {:induction false} ScanDirsMembers(dirs: seq<string>, list: DirLister, parse: DesktopParser)
    ensures forall e :: e in ScanDirs(dirs, list, parse) ==>
      && Contribution(e.path, parse) == Some(e)
      && exists d :: d in dirs && list(d).Some? && e.path in list(d).value
    ensures forall d, f :: d in dirs && list(d).Some? && f in list(d).value && Contribution(f, parse).Some? ==>
      Contribution(f, parse).value in ScanDirs(dirs, list, parse)
  {
    if dirs != [] {
      var d := dirs[0];
      var here := match list(d) case Some(files) => ScanFiles(files, parse) case None => [];
      var rest := ScanDirs(dirs[1..], list, parse);
      assert ScanDirs(dirs, list, parse) == here + rest;
      ScanDirsMembers(dirs[1..], list, parse);
      if list(d).Some? {
        ScanFilesMembers(list(d).value, parse);
      }
      assert forall g :: g in dirs[1..] ==> g in dirs;
      assert forall g :: g in dirs ==> g == d || g in dirs[1..];
    }
  }

  /** Directories are scanned in list order: the entries of a directory list are those of
      its first part followed by those of the rest. */
  lemma {:induction false} ScanDirsAppend(a: seq<string>, b: seq<string>, list: DirLister, parse: DesktopParser)
    ensures ScanDirs(a + b, list, parse) == ScanDirs(a, list, parse) + ScanDirs(b, list, parse)
  {
    if a == [] {
      assert a + b == b;
    } else {
      var ab := a + b;
      assert ab[0] == a[0];
      assert ab[1..] == a[1..] + b;
      ScanDirsAppend(a[1..], b, list, parse);
    }
  }

  /** Every scanned entry is a fresh application entry: kind Application, count 0, no bonus. */
  lemma ScannedAreApplications(dirs: seq<string>, list: DirLister, parse: DesktopParser)
    ensures forall e :: e in ScanDirs(dirs, list, parse) ==>
      e.entryType == Application && e.launchCount == 0 && e.scoreBoost == 0
  {
    ScanDirsMembers(dirs, list, parse);
  }

  // ---------------------------------------------------------------------------
  // Merging with the heatmap

  /** The entry with its launch count taken from the heatmap when the heatmap has its name. */
  function Seeded(e: AppEntry, heatmap: map<string, U32>): AppEntry {
    if e.name in heatmap then e.(launchCount := heatmap[e.name]) else e
  }

  /** The map the merge loop of `load_applications` builds: the entries inserted in order
      under their names, each seeded from the heatmap, a later entry replacing an earlier
      one of the same name. */
  function Index(entries: seq<AppEntry>, heatmap: map<string, U32>): map<string, AppEntry> {
    if entries == [] then map[]
    else
      var last := entries[|entries| - 1];
      Index(entries[..|entries| - 1], heatmap)[last.name := Seeded(last, heatmap)]
  }

  function Names(entries: seq<AppEntry>): set<string> {
    set e | e in entries :: e.name
  }

  /** The index has exactly the entries' names as keys, and each key names its own entry. */
  lemma {:induction false} IndexKeys(entries: seq<AppEntry>, heatmap: map<string, U32>)
    ensures Index(entries, heatmap).Keys == Names(entries)
    ensures forall k :: k in Index(entries, heatmap) ==> Index(entries, heatmap)[k].name == k
  {
    if entries != [] {
      var init := entries[..|entries| - 1];
      IndexKeys(init, heatmap);
      assert entries == init + [entries[|entries| - 1]];
      assert Names(entries) == Names(init) + {entries[|entries| - 1].name};
    }
  }

  /** Last insert wins: the value under a name is the seeded copy of the last entry with
      that name. */
  lemma {:induction false} IndexLastWins(entries: seq<AppEntry>, heatmap: map<string, U32>, i: nat)
    requires i < |entries|
    requires forall j :: i < j < |entries| ==> entries[j].name != entries[i].name
    ensures entries[i].name in Index(entries, heatmap)
    ensures Index(entries, heatmap)[entries[i].name] == Seeded(entries[i], heatmap)
  {
    if i < |entries| - 1 {
      var init := entries[..|entries| - 1];
      IndexLastWins(init, heatmap, i);
    }
  }

  /** Seeding: an entry's count in the index is the heatmap's count for its name, or the
      count it was parsed with (0 for desktop entries) when the heatmap lacks the name. */
  lemma {:induction false} IndexCounts(entries: seq<AppEntry>, heatmap: map<string, U32>)
    requires forall e :: e in entries ==> e.launchCount == 0
    ensures forall k :: k in Index(entries, heatmap) ==>
      Index(entries, heatmap)[k].launchCount == (if k in heatmap then heatmap[k] else 0)
  {
    if entries != [] {
      var init := entries[..|entries| - 1];
      assert forall e :: e in init ==> e in entries;
      IndexCounts(init, heatmap);
    }
  }

  // ---------------------------------------------------------------------------
  // The heatmap store

  /** The JSON (de)serialisation of the heatmap: `decode` fails on malformed text. */
  datatype HeatmapCodec = HeatmapCodec(
    encode: map<string, U32> -> string,
    decode: string -> Option<map<string, U32>>)

  /**
   * How `fs::write` ended: it creates (truncating) the file and then writes the text.
   * Creating can fail, leaving the file as it was; the write can stop after `kept`
   * characters, leaving the file cut short.
   */
  datatype WriteOutcome = Complete | CreateFailed | Interrupted(kept: nat)

  /** The file's text after writing `text` over `before` with the given outcome. */
  function Written(before: Option<string>, text: string, outcome: WriteOutcome): (after: Option<string>)
    ensures outcome.Complete? ==> after == Some(text)
    ensures outcome.CreateFailed? ==> after == before
    ensures outcome.Interrupted? ==> after.Some? && |after.value| <= |text| && StartsWith(text, after.value)
  {
    match outcome
    case Complete => Some(text)
    case CreateFailed => before
    case Interrupted(kept) => Some(text[..if kept < |text| then kept else |text|])
  }

  /** The heatmap file: its text, or None when it is missing or cannot be read. */
  class HeatmapStore {
    var file: Option<string>

    constructor (contents: Option<string>)
      ensures file == contents
    {
      file := contents;
    }

    /** `load_heatmap`: the stored counts; any read or parse failure gives the empty map
        rather than an error. */
    function Load(codec: HeatmapCodec): (m: map<string, U32>)
      reads this
      ensures file.None? ==> m == map[]
      ensures file.Some? && codec.decode(file.value).None? ==> m == map[]
      ensures file.Some? && codec.decode(file.value).Some? ==> m == codec.decode(file.value).value
    {
      match file
      case None => map[]
      case Some(text) => codec.decode(text).GetOr(map[])
    }

    /**
     * `save_heatmap`: reads the counts, sets `name`'s, and writes the whole map back.
     * `outcome` says how the write ended; whatever it was, the error is ignored.
     */
    method Save(name: string, count: U32, codec: HeatmapCodec, outcome: WriteOutcome)
      modifies this
      ensures file == Written(old(file), codec.encode(old(Load(codec))[name := count]), outcome)
      ensures outcome.Complete? && codec.decode(codec.encode(old(Load(codec))[name := count]))
                                   == Some(old(Load(codec))[name := count]) ==>
        && name in Load(codec) && Load(codec)[name] == count
        && (forall k :: k != name ==> (k in Load(codec) <==> k in old(Load(codec))))
        && (forall k :: k != name && k in Load(codec) ==> Load(codec)[k] == old(Load(codec))[k])
    {
      var heatmap := Load(codec);
      heatmap := heatmap[name := count];
      file := Written(file, codec.encode(heatmap), outcome);
    }
  }

  /**
   * `increment_launch_count`: persists the entry's count plus one and reports success
   * whatever happens to the write. The entry itself is a value and is not changed.
   * The background thread of the source is run to completion here.
   */
  method IncrementLaunchCount(app: AppEntry, store: HeatmapStore, codec: HeatmapCodec, outcome: WriteOutcome)
    returns (ok: bool)
    requires app.launchCount < U32_MAX
    modifies store
    ensures ok
    ensures store.file == Written(old(store.file),
                                  codec.encode(old(store.Load(codec))[app.name := app.launchCount + 1]), outcome)
  {
    store.Save(app.name, app.launchCount + 1, codec, outcome);
    ok := true;
  }

  // ---------------------------------------------------------------------------
  // The shared cache

  /** The process-wide `APP_CACHE`: name to entry. */
  class AppCache {
    var apps: map<string, AppEntry>

    constructor ()
      ensures apps == map[]
    {
      apps := map[];
    }

    /**
     * `load_applications`: loads the heatmap, scans every desktop-entry directory, seeds
     * the counts from the heatmap, and replaces the whole cache with the result.
     */
    method LoadApplications(xdg: Option<string>, tilde: string -> string, list: DirLister,
                            parse: DesktopParser, store: HeatmapStore, codec: HeatmapCodec)
      modifies this
      ensures apps == Index(ScanDirs(DesktopPaths(xdg, tilde), list, parse), store.Load(codec))
      ensures apps.Keys == Names(ScanDirs(DesktopPaths(xdg, tilde), list, parse))
      ensures forall k :: k in apps ==> apps[k].name == k && apps[k].entryType == Application
      ensures var heatmap := store.Load(codec);
        forall k :: k in apps ==> apps[k].launchCount == (if k in heatmap then heatmap[k] else 0)
      ensures forall d, f ::
        (d in DesktopPaths(xdg, tilde) && list(d).Some? && f in list(d).value && Contribution(f, parse).Some?) ==>
        Contribution(f, parse).value.name in apps
    {
      var heatmap := store.Load(codec);
      var paths := GetDesktopPaths(xdg, tilde);
      var entries := ScanDirs(paths, list, parse);
      var built := MergeEntries(entries, heatmap);
      ScannedAreApplications(paths, list, parse);
      ScanDirsMembers(paths, list, parse);
      IndexKeys(entries, heatmap);
      IndexCounts(entries, heatmap);
      IndexKinds(entries, heatmap);
      apps := built;
    }
  }

  /** The merge loop of `load_applications`: each entry, seeded from the heatmap, is
      inserted into a fresh map under its name. */
  method MergeEntries(entries: seq<AppEntry>, heatmap: map<string, U32>) returns (built: map<string, AppEntry>)
    ensures built == Index(entries, heatmap)
  {
    built := map[];
    var i := 0;
    while i < |entries|
      invariant 0 <= i <= |entries|
      invariant built == Index(entries[..i], heatmap)
    {
      var entry := entries[i];
      if entry.name in heatmap {
        entry := entry.(launchCount := heatmap[entry.name]);
      }
      built := built[entry.name := entry];
      assert entries[..i + 1][..i] == entries[..i];
      i := i + 1;
    }
    assert entries[..i] == entries;
  }

  /** Seeding keeps each entry's kind, so an index built from applications holds only
      applications. */
  lemma {:induction false} IndexKinds(entries: seq<AppEntry>, heatmap: map<string, U32>)
    requires forall e :: e in entries ==> e.entryType == Application
    ensures forall k :: k in Index(entries, heatmap) ==> Index(entries, heatmap)[k].entryType == Application
  {
    if entries != [] {
      var init := entries[..|entries| - 1];
      assert forall e :: e in init ==> e in entries;
      IndexKinds(init, heatmap);
    }
  }
}
