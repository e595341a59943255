/**
 * The decisions the launcher window makes outside of GTK: how an entry is launched, how
 * the result list and its selection change, and which scheduled searches still run.
 */
module Ui {
  import opened Wrappers
  import opened Strings
  import opened Launcher
  import opened Search
  import opened Sequences

  // ---------------------------------------------------------------------------
  // Launching an entry

  /** The desktop-entry field codes the launcher deletes from an Exec line, in the order it
      deletes them. */
  const FIELD_CODES: seq<string> := ["%f", "%F", "%u", "%U", "%i"]

  /** The Exec line as it is handed to `sh -c`: the field codes deleted one after another,
      then "%c" replaced by the entry's name, then trimmed. */
  function RewriteExec(exec: string, name: string): (r: string)
    ensures r == [] || (!IsWhitespace(r[0]) && !IsWhitespace(r[|r| - 1]))
  {
    var stripped :=
      ReplaceAll(ReplaceAll(ReplaceAll(ReplaceAll(ReplaceAll(exec, "%f", ""), "%F", ""), "%u", ""), "%U", ""), "%i", "");
    Trim(ReplaceAll(stripped, "%c", name))
  }

  /** An Exec line without any '%' is only trimmed. */
  lemma RewritePlainExec(exec: string, name: string)
    requires '%' !in exec
    ensures RewriteExec(exec, name) == Trim(exec)
  {
    assert exec + [] == exec;
    RewriteStep(exec, [], "%f", "");
    RewriteStep(exec, [], "%F", "");
    RewriteStep(exec, [], "%u", "");
    RewriteStep(exec, [], "%U", "");
    RewriteStep(exec, [], "%i", "");
    RewriteStep(exec, [], "%c", name);
  }

  /** One rewriting step on an Exec line that ends in at most one two-character code. */
  lemma RewriteStep(p: string, code: string, pat: string, rep: string)
    requires '%' !in p && |pat| == 2 && pat[0] == '%'
    requires code == [] || |code| == 2
    ensures ReplaceAll(p + code, pat, rep) == p + (if code == pat then rep else code)
  {
    ReplaceAfterPlain(p, code, pat, rep);
    if code != [] {
      ReplaceTwo(code, pat, rep);
    }
  }

  /**
   * A command followed by one trailing code: a file or URL code disappears, "%c" becomes
   * the entry's name, any other code is left as it is; then the line is trimmed.
   */
  lemma RewriteTrailingCode(p: string, code: string, name: string)
    requires '%' !in p && |code| == 2 && code[0] == '%'
    ensures RewriteExec(p + code, name)
         == Trim(p + (if code in FIELD_CODES then "" else if code == "%c" then name else code))
  {
    var c0 := code;
    RewriteStep(p, c0, "%f", "");
    var c1 := if c0 == "%f" then "" else c0;
    RewriteStep(p, c1, "%F", "");
    var c2 := if c1 == "%F" then "" else c1;
    RewriteStep(p, c2, "%u", "");
    var c3 := if c2 == "%u" then "" else c2;
    RewriteStep(p, c3, "%U", "");
    var c4 := if c3 == "%U" then "" else c3;
    RewriteStep(p, c4, "%i", "");
    var c5 := if c4 == "%i" then "" else c4;
    RewriteStep(p, c5, "%c", name);
    assert c5 == if code in FIELD_CODES then "" else code;
  }

  /** A piece of an Exec line the rewrite leaves alone: it holds no '%'. */
  predicate Plain(p: string) {
    '%' !in p
  }

  /** A field code as it sits in an Exec line: '%' and one character other than '%'.
      The empty string stands for a code already deleted. */
  predicate IsCode(c: string) {
    c == [] || (|c| == 2 && c[0] == '%' && c[1] != '%')
  }

  /** An Exec line laid out as plain pieces with a code between each two of them. */
  function Assemble(pieces: seq<string>, codes: seq<string>): (line: string)
    requires |pieces| == |codes| + 1
    decreases |codes|
  {
    if codes == [] then pieces[0]
    else pieces[0] + codes[0] + Assemble(pieces[1..], codes[1..])
  }

  function SubstCode(c: string, pat: string, rep: string): string {
    if c == pat then rep else c
  }

  /** Every code equal to `pat` replaced by `rep`, the others kept. */
  function Subst(codes: seq<string>, pat: string, rep: string): (r: seq<string>)
    ensures |r| == |codes|
    ensures forall k :: 0 <= k < |codes| ==> r[k] == SubstCode(codes[k], pat, rep)
  {
    if codes == [] then [] else [SubstCode(codes[0], pat, rep)] + Subst(codes[1..], pat, rep)
  }

  /** `str::replace` of a field code on an assembled line replaces exactly the codes equal
      to it: no occurrence can start inside a plain piece or straddle two parts. */
  lemma {:induction false} ReplaceAssembled(pieces: seq<string>, codes: seq<string>, pat: string, rep: string)
    requires |pieces| == |codes| + 1
    requires forall k :: 0 <= k < |pieces| ==> Plain(pieces[k])
    requires forall k :: 0 <= k < |codes| ==> IsCode(codes[k])
    requires |pat| == 2 && pat[0] == '%'
    ensures ReplaceAll(Assemble(pieces, codes), pat, rep) == Assemble(pieces, Subst(codes, pat, rep))
    decreases |codes|
  {
    if codes == [] {
      assert Assemble(pieces, codes) == pieces[0] + [];
      ReplaceAfterPlain(pieces[0], [], pat, rep);
    } else {
      var c := codes[0];
      var rest := Assemble(pieces[1..], codes[1..]);
      assert Assemble(pieces, codes) == pieces[0] + (c + rest);
      assert Plain(pieces[0]) && IsCode(c);
      ReplaceAfterPlain(pieces[0], c + rest, pat, rep);
      ReplaceCode(c, rest, pat, rep);
      assert forall k :: 0 <= k < |pieces| - 1 ==> pieces[1..][k] == pieces[k + 1];
      assert forall k :: 0 <= k < |codes| - 1 ==> codes[1..][k] == codes[k + 1];
      ReplaceAssembled(pieces[1..], codes[1..], pat, rep);
      AssembleSubstCons(pieces, codes, pat, rep);
    }
  }

  /** Unfolding `Assemble` once over substituted codes. */
  lemma AssembleSubstCons(pieces: seq<string>, codes: seq<string>, pat: string, rep: string)
    requires |pieces| == |codes| + 1 && codes != []
    ensures Assemble(pieces, Subst(codes, pat, rep))
         == pieces[0] + (SubstCode(codes[0], pat, rep) + Assemble(pieces[1..], Subst(codes[1..], pat, rep)))
  {
    var subst := Subst(codes, pat, rep);
    assert subst[1..] == Subst(codes[1..], pat, rep);
  }

  /** Replacing in a code followed by the rest of the line. */
  lemma ReplaceCode(c: string, rest: string, pat: string, rep: string)
    requires IsCode(c) && |pat| == 2 && pat[0] == '%'
    ensures ReplaceAll(c + rest, pat, rep) == SubstCode(c, pat, rep) + ReplaceAll(rest, pat, rep)
  {
    if c == [] {
      assert c + rest == rest;
    } else if c == pat {
      assert (c + rest)[..2] == pat;
      assert (c + rest)[2..] == rest;
    } else {
      var line := c + rest;
      assert line[..2] == c;
      assert line[1..] == [c[1]] + rest;
      ReplaceAfterPlain([c[1]], rest, pat, rep);
      assert [c[0]] + [c[1]] == c;
    }
  }

  /** Deleting codes (replacing them by "") leaves codes. */
  lemma DeleteKeepsCodes(codes: seq<string>, pat: string)
    requires forall k :: 0 <= k < |codes| ==> IsCode(codes[k])
    ensures forall k :: 0 <= k < |codes| ==> IsCode(Subst(codes, pat, "")[k])
  {
  }

  /** What launching does to one code: a file or URL code disappears, "%c" becomes the
      entry's name, any other code stays. */
  function LaunchedCode(c: string, name: string): string {
    if c in FIELD_CODES then "" else if c == "%c" then name else c
  }

  function Launched(codes: seq<string>, name: string): (r: seq<string>)
    ensures |r| == |codes|
    ensures forall k :: 0 <= k < |codes| ==> r[k] == LaunchedCode(codes[k], name)
  {
    if codes == [] then [] else [LaunchedCode(codes[0], name)] + Launched(codes[1..], name)
  }

  /**
   * The rewrite on any Exec line whose '%' signs each start a code: the plain text is kept,
   * each %f, %F, %u, %U and %i disappears, each %c becomes the entry's name, every other
   * code stays, and the line is trimmed. This covers codes anywhere and in any number,
   * for instance "kcalc -qwindowtitle %c %i %u".
   */
  lemma RewriteCodes(pieces: seq<string>, codes: seq<string>, name: string)
    requires |pieces| == |codes| + 1
    requires forall k :: 0 <= k < |pieces| ==> Plain(pieces[k])
    requires forall k :: 0 <= k < |codes| ==> IsCode(codes[k])
    ensures RewriteExec(Assemble(pieces, codes), name) == Trim(Assemble(pieces, Launched(codes, name)))
  {
    ReplaceAssembled(pieces, codes, "%f", "");
    var c1 := Subst(codes, "%f", "");
    DeleteKeepsCodes(codes, "%f");
    ReplaceAssembled(pieces, c1, "%F", "");
    var c2 := Subst(c1, "%F", "");
    DeleteKeepsCodes(c1, "%F");
    ReplaceAssembled(pieces, c2, "%u", "");
    var c3 := Subst(c2, "%u", "");
    DeleteKeepsCodes(c2, "%u");
    ReplaceAssembled(pieces, c3, "%U", "");
    var c4 := Subst(c3, "%U", "");
    DeleteKeepsCodes(c3, "%U");
    ReplaceAssembled(pieces, c4, "%i", "");
    var c5 := Subst(c4, "%i", "");
    DeleteKeepsCodes(c4, "%i");
    ReplaceAssembled(pieces, c5, "%c", name);
    var c6 := Subst(c5, "%c", name);
    forall k | 0 <= k < |codes| ensures c6[k] == Launched(codes, name)[k] {
      LaunchedCodeSteps(codes[k], name);
    }
    assert c6 == Launched(codes, name);
  }

  /** The six replacements, seen on one code. */
  lemma LaunchedCodeSteps(c: string, name: string)
    requires IsCode(c)
    ensures SubstCode(SubstCode(SubstCode(SubstCode(SubstCode(SubstCode(c, "%f", ""), "%F", ""), "%u", ""),
              "%U", ""), "%i", ""), "%c", name) == LaunchedCode(c, name)
  {
  }

  /** The search text a folder entry puts in the search field: its path, ending in '/'. */
  function FolderSearchText(path: string): (r: string)
    ensures EndsWith(r, "/")
    ensures r == path || r == path + "/"
    ensures r == path <==> EndsWith(path, "/")
  {
    if EndsWith(path, "/") then path else path + "/"
  }

  /** The folder text is already a folder text: a second application changes nothing. */
  lemma FolderSearchTextIdempotent(path: string)
    ensures FolderSearchText(FolderSearchText(path)) == FolderSearchText(path)
  {
  }

  /** What launching an entry does: the shell command it spawns, whether it records a
      launch in the heatmap, the text it puts in the search field, whether the window closes. */
  datatype LaunchOutcome = LaunchOutcome(
    command: Option<string>,
    recordLaunch: bool,
    searchText: Option<string>,
    closeWindow: bool)

  /** `launch_application`. */
  function LaunchApplication(app: AppEntry): (o: LaunchOutcome)
    ensures o.closeWindow <==> !(app.entryType == File && app.iconName == "folder")
    ensures o.command.Some? <==> o.closeWindow
    ensures o.searchText.Some? <==> !o.closeWindow
    ensures o.recordLaunch <==> app.entryType == Application
    ensures app.entryType == Application ==> o.command == Some(RewriteExec(app.exec, app.name))
    ensures app.entryType == File ==> o.command.Some? ==> o.command == Some(app.exec)
    ensures o.searchText.Some? ==> o.searchText.value == FolderSearchText(app.path)
  {
    match app.entryType
    case Application =>
      LaunchOutcome(Some(RewriteExec(app.exec, app.name)), true, None, true)
    case File =>
      if app.iconName == "folder" then LaunchOutcome(None, false, Some(FolderSearchText(app.path)), false)
      else LaunchOutcome(Some(app.exec), false, None, true)
  }

  /**
   * Entries built from a directory keep the window open and move the search to the
   * directory; those built from an executable or a document run their Exec line as it is.
   */
  lemma LaunchFileEntry(path: string, expand: string -> Option<string>, stat: string -> Option<Metadata>,
                        mimeOf: string -> string)
    requires CreateFileEntry(path, expand, stat, mimeOf).Some?
    ensures var e := CreateFileEntry(path, expand, stat, mimeOf).value;
      var o := LaunchApplication(e);
      && !o.recordLaunch
      && (o.closeWindow ==> o.command == Some(e.exec))
      && (!o.closeWindow ==> e.exec == "" && o.searchText == Some(FolderSearchText(e.path)))
  {
  }

  // ---------------------------------------------------------------------------
  // The result list

  /** The row after the selected one, when there is one; otherwise the selection stays. */
  function NextRow(selected: Option<nat>, rows: nat): (r: Option<nat>)
    ensures r.Some? <==> selected.Some?
    ensures selected.Some? && selected.value < rows ==> r.value < rows
    ensures r != selected ==> r.value == selected.value + 1
    ensures selected.Some? && selected.value + 1 < rows ==> r == Some(selected.value + 1)
  {
    match selected
    case None => None
    case Some(i) => if i + 1 < rows then Some(i + 1) else selected
  }

  /** The row before the selected one, when the selected one is not the first. */
  function PreviousRow(selected: Option<nat>, rows: nat): (r: Option<nat>)
    ensures r.Some? <==> selected.Some?
    ensures selected.Some? && selected.value < rows ==> r.value < rows
    ensures r != selected ==> r.value + 1 == selected.value
    ensures selected.Some? && 0 < selected.value <= rows ==> r == Some(selected.value - 1)
  {
    match selected
    case None => None
    case Some(i) => if i > 0 && i - 1 < rows then Some(i - 1) else selected
  }

  /** A move down that happened is undone by a move up, and the other way round. */
  lemma NextThenPrevious(selected: Option<nat>, rows: nat)
    requires selected.Some? ==> selected.value < rows
    ensures NextRow(selected, rows) != selected ==> PreviousRow(NextRow(selected, rows), rows) == selected
    ensures PreviousRow(selected, rows) != selected ==> NextRow(PreviousRow(selected, rows), rows) == selected
  {
  }

  function NextRows(selected: Option<nat>, rows: nat, n: nat): Option<nat> {
    if n == 0 then selected else NextRow(NextRows(selected, rows, n - 1), rows)
  }

  function PreviousRows(selected: Option<nat>, rows: nat, n: nat): Option<nat> {
    if n == 0 then selected else PreviousRow(PreviousRows(selected, rows, n - 1), rows)
  }

  /** Pressing Down `n` times moves `n` rows, stopping at the last one. */
  lemma {:induction false} NextRowsStopAtLast(i: nat, rows: nat, n: nat)
    requires i < rows
    ensures NextRows(Some(i), rows, n) == Some(if i + n < rows then i + n else rows - 1)
  {
    if n > 0 {
      NextRowsStopAtLast(i, rows, n - 1);
    }
  }

  /** Pressing Up `n` times moves `n` rows, stopping at the first one. */
  lemma {:induction false} PreviousRowsStopAtFirst(i: nat, rows: nat, n: nat)
    requires i < rows
    ensures PreviousRows(Some(i), rows, n) == Some(if n <= i then i - n else 0)
  {
    if n > 0 {
      PreviousRowsStopAtFirst(i, rows, n - 1);
    }
  }

  /** The list box of results and the store of the entries behind its rows. */
  class ResultsView {
    /** The entries behind the rows, row by row. */
    var store: seq<AppEntry>
    /** The number of rows in the list box. */
    var rows: nat
    /** The selected row. */
    var selected: Option<nat>

    ghost predicate Valid()
      reads this
    {
      rows == |store| && (selected.Some? ==> selected.value < rows)
    }

    constructor()
      ensures Valid() && store == [] && selected == None
    {
      store := [];
      rows := 0;
      selected := None;
    }

    /** `get_app_data`: the entry behind a row, none past the end of the store. */
    function GetAppData(index: nat): (r: Option<AppEntry>)
      reads this
      ensures r.Some? <==> index < |store|
      ensures r.Some? ==> r.value == store[index]
    {
      if index < |store| then Some(store[index]) else None
    }

    /** `update_results_list`: the rows and the store are replaced by the results, in order,
        and the first row is selected when there is one. */
    method UpdateResultsList(results: seq<SearchResult>)
      modifies this
      ensures Valid()
      ensures store == Apps(results) && rows == |results|
      ensures selected == if results == [] then None else Some(0)
      ensures forall i :: 0 <= i < |results| ==> GetAppData(i) == Some(results[i].app)
    {
      rows := 0;
      selected := None;
      store := [];
      var i := 0;
      while i < |results|
        invariant 0 <= i <= |results|
        invariant store == Apps(results[..i]) && rows == i && selected == None
      {
        assert results[..i + 1] == results[..i] + [results[i]];
        ProjectAppend(results[..i], results[i], AppOf);
        store := store + [results[i].app];
        rows := rows + 1;
        i := i + 1;
      }
      assert results[..i] == results;
      if rows > 0 {
        selected := Some(0);
      }
      forall k | 0 <= k < |results| ensures store[k] == results[k].app {
        ProjectIndex(results, AppOf, k);
      }
    }

    /** `select_next`. */
    method SelectNext()
      requires Valid()
      modifies this
      ensures Valid() && store == old(store) && rows == old(rows)
      ensures selected == NextRow(old(selected), rows)
    {
      if selected.Some? && selected.value + 1 < rows {
        selected := Some(selected.value + 1);
      }
    }

    /** `select_previous`. */
    method SelectPrevious()
      requires Valid()
      modifies this
      ensures Valid() && store == old(store) && rows == old(rows)
      ensures selected == PreviousRow(old(selected), rows)
    {
      if selected.Some? && selected.value > 0 {
        if selected.value - 1 < rows {
          selected := Some(selected.value - 1);
        }
      }
    }
  }

  // ---------------------------------------------------------------------------
  // The keystroke counter

  /** `u32::wrapping_add(1)`. */
  function WrappingIncrement(c: U32): (r: U32)
    ensures r == (c + 1) % (U32_MAX + 1)
  {
    if c == U32_MAX then 0 else c + 1
  }

  /** The counter after `n` more keystrokes. */
  function Bumped(c: U32, n: nat): U32 {
    if n == 0 then c else WrappingIncrement(Bumped(c, n - 1))
  }

  lemma {:induction false} BumpedIsModular(c: U32, n: nat)
    ensures Bumped(c, n) == (c + n) % (U32_MAX + 1)
  {
    if n > 0 {
      BumpedIsModular(c, n - 1);
      IncrementMod(c + n - 1);
    }
  }

  /** One more keystroke on the residue of `x` is the residue of `x + 1`. */
  lemma IncrementMod(x: nat)
    ensures WrappingIncrement(x % (U32_MAX + 1)) == (x + 1) % (U32_MAX + 1)
  {
    var m := U32_MAX + 1;
    var q, b := x / m, x % m;
    assert x == q * m + b;
    if b == U32_MAX {
      assert x + 1 == (q + 1) * m + 0;
    } else {
      assert x + 1 == q * m + (b + 1);
    }
  }

  /**
   * A search scheduled at counter value `c` still runs after `n` further keystrokes
   * exactly when `n` is a multiple of 2^32: any smaller number of later keystrokes
   * cancels it.
   */
  lemma StaleTicket(c: U32, n: nat)
    ensures Bumped(c, n) == c <==> n % (U32_MAX + 1) == 0
  {
    BumpedIsModular(c, n);
  }

  /** The keystroke counter of the search field. */
  class SearchCounter {
    var counter: U32

    constructor()
      ensures counter == 0
    {
      counter := 0;
    }

    /** A keystroke bumps the counter and schedules a search holding the new value. */
    method Keystroke() returns (ticket: U32)
      modifies this
      ensures counter == WrappingIncrement(old(counter)) && ticket == counter
    {
      counter := WrappingIncrement(counter);
      ticket := counter;
    }

    /** The scheduled search runs only when the counter still holds its ticket. */
    function ShouldRun(ticket: U32): bool
      reads this
    {
      ticket == counter
    }
  }
}
