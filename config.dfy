/**
 * The configuration side of the launcher: the schema-driven merge of a user's JSON
 * configuration with the defaults, the defaults themselves, the border rule of the
 * generated CSS, and the debounce of the configuration-file watcher.
 */
module Config {
  import opened Wrappers
  import opened Strings

  /** A JSON value. Numbers are kept as integers: every number of the configuration is one. */
  datatype Json =
    | Null
    | Bool(b: bool)
    | Number(n: int)
    | String(s: string)
    | Array(items: seq<Json>)
    | Object(fields: map<string, Json>)

  /** Nesting depth at which `merge_json` stops and returns the defaults. */
  const MAX_DEPTH: nat := 10

  /** The kind test of `merge_json`: both values are the same sort of JSON value. */
  predicate SameKind(a: Json, b: Json) {
    match a
    case Null => b.Null?
    case Bool(_) => b.Bool?
    case Number(_) => b.Number?
    case String(_) => b.String?
    case Array(_) => b.Array?
    case Object(_) => b.Object?
  }

  function Field(m: map<string, Json>, key: string): Option<Json> {
    if key in m then Some(m[key]) else None
  }

  function Remaining(depth: nat): nat {
    if depth < MAX_DEPTH then MAX_DEPTH - depth else 0
  }

  // ---------------------------------------------------------------------------
  // merge_json

  /**
   * `merge_json(existing, default, schema)`. The source counts the nesting depth in a
   * static counter; here the counter's value on entry is the parameter `depth`, and a
   * nested merge runs at `depth + 1`.
   */
  function MergeJson(existing: Json, default: Json, schema: Json, depth: nat): (r: Json)
    ensures !existing.Object? || !default.Object? || !schema.Object? ==> r == default
    ensures existing.Object? && default.Object? && depth >= MAX_DEPTH ==> r == default
    ensures default.Object? ==> r.Object?
    ensures existing.Object? && default.Object? && schema.Object? && depth < MAX_DEPTH ==>
      r.fields.Keys <= schema.fields.Keys
    decreases Remaining(depth), 1
  {
    match (existing, default)
    case (Object(e), Object(d)) =>
      if !schema.Object? then default
      else if depth >= MAX_DEPTH then default
      else Object(map k | k in schema.fields && MergeField(e, d, schema.fields, k, depth).Some?
                        :: MergeField(e, d, schema.fields, k, depth).value)
    case _ => default
  }

  /** The value the merge gives schema key `k`, or None when the key is left out. */
  function MergeField(e: map<string, Json>, d: map<string, Json>, s: map<string, Json>,
                      k: string, depth: nat): Option<Json>
    requires k in s && depth < MAX_DEPTH
    decreases Remaining(depth), 0
  {
    if k in e then
      if s[k].Object? && e[k].Object? then
        Some(MergeJson(e[k], Field(d, k).GetOr(Null), s[k], depth + 1))
      else if SameKind(s[k], e[k]) then Some(e[k])
      else Field(d, k)
    else Field(d, k)
  }

  /**
   * What the merge does with one schema key, when existing, default and schema are all
   * objects below the depth limit.
   */
  lemma MergeKey(existing: map<string, Json>, default: map<string, Json>, schema: map<string, Json>,
                 depth: nat, k: string)
    requires depth < MAX_DEPTH
    ensures var r := MergeJson(Object(existing), Object(default), Object(schema), depth).fields;
      && (k !in schema ==> k !in r)
      && (k in schema && k in existing && schema[k].Object? && existing[k].Object? ==>
            k in r && r[k] == MergeJson(existing[k], Field(default, k).GetOr(Null), schema[k], depth + 1))
      && (k in schema && k in existing && !(schema[k].Object? && existing[k].Object?) && SameKind(schema[k], existing[k]) ==>
            k in r && r[k] == existing[k])
      && (k in schema && k in existing && !SameKind(schema[k], existing[k]) ==>
            Field(r, k) == Field(default, k))
      && (k in schema && k !in existing ==> Field(r, k) == Field(default, k))
  {
  }

  /** A nested object whose default is missing merges against Null, so the key ends up Null. */
  lemma MergeMissingDefaultObject(existing: map<string, Json>, default: map<string, Json>,
                                  schema: map<string, Json>, depth: nat, k: string)
    requires depth < MAX_DEPTH
    requires k in schema && k in existing && schema[k].Object? && existing[k].Object? && k !in default
    ensures var r := MergeJson(Object(existing), Object(default), Object(schema), depth).fields;
      k in r && r[k] == Null
  {
    MergeKey(existing, default, schema, depth, k);
  }

  // ---------------------------------------------------------------------------
  // Conformance to the schema

  /**
   * `v` has the shape of `schema`: same kind everywhere, and the same keys in every
   * object the merge looks into. Past the depth limit the merge keeps nothing of the
   * user's, so there an object conforms only when it is the schema itself.
   */
  predicate Conforms(v: Json, schema: Json, depth: nat)
    decreases Remaining(depth)
  {
    if v.Object? && schema.Object? then
      if depth >= MAX_DEPTH then v == schema
      else v.fields.Keys == schema.fields.Keys
           && forall k :: k in v.fields ==> Conforms(v.fields[k], schema.fields[k], depth + 1)
    else SameKind(v, schema)
  }

  lemma {:induction false} ConformsToSelf(schema: Json, depth: nat)
    ensures Conforms(schema, schema, depth)
    decreases Remaining(depth)
  {
    if schema.Object? && depth < MAX_DEPTH {
      forall k | k in schema.fields ensures Conforms(schema.fields[k], schema.fields[k], depth + 1) {
        ConformsToSelf(schema.fields[k], depth + 1);
      }
    }
  }

  /**
   * Merging against the schema as default (what `Config::load` does) always yields a
   * value of the schema's shape, whatever the user wrote.
   */
  lemma {:induction false} MergeConforms(existing: Json, schema: Json, depth: nat)
    ensures Conforms(MergeJson(existing, schema, schema, depth), schema, depth)
    decreases Remaining(depth), 1
  {
    var r := MergeJson(existing, schema, schema, depth);
    if existing.Object? && schema.Object? && depth < MAX_DEPTH {
      var e, s := existing.fields, schema.fields;
      forall k | k in s ensures k in r.fields && Conforms(r.fields[k], s[k], depth + 1) {
        MergeConformsKey(e, s, depth, k);
      }
      assert r.fields.Keys == s.Keys;
    } else {
      ConformsToSelf(schema, depth);
    }
  }

  /** One key of `MergeConforms`. */
  lemma {:induction false} MergeConformsKey(e: map<string, Json>, s: map<string, Json>, depth: nat, k: string)
    requires depth < MAX_DEPTH && k in s
    ensures MergeField(e, s, s, k, depth).Some?
    ensures Conforms(MergeField(e, s, s, k, depth).value, s[k], depth + 1)
    decreases Remaining(depth), 0
  {
    if k in e && s[k].Object? && e[k].Object? {
      MergeConforms(e[k], s[k], depth + 1);
    } else if k !in e || !SameKind(s[k], e[k]) {
      ConformsToSelf(s[k], depth + 1);
    }
  }

  /**
   * A configuration object that already has the schema's shape comes out of the merge
   * unchanged. (A top-level value that is not an object is replaced by the default.)
   */
  lemma {:induction false} MergeKeepsConforming(existing: Json, schema: Json, depth: nat)
    requires existing.Object? && Conforms(existing, schema, depth)
    ensures MergeJson(existing, schema, schema, depth) == existing
    decreases Remaining(depth), 1
  {
    if existing.Object? && schema.Object? && depth < MAX_DEPTH {
      var e, s := existing.fields, schema.fields;
      var r := MergeJson(existing, schema, schema, depth).fields;
      forall k | k in s ensures k in r && r[k] == e[k] {
        assert Conforms(e[k], s[k], depth + 1);
        MergeKeepsKey(e, s, depth, k);
      }
      assert r == e;
    }
  }

  /** One key of `MergeKeepsConforming`. */
  lemma {:induction false} MergeKeepsKey(e: map<string, Json>, s: map<string, Json>, depth: nat, k: string)
    requires depth < MAX_DEPTH && k in s && k in e && Conforms(e[k], s[k], depth + 1)
    ensures MergeField(e, s, s, k, depth) == Some(e[k])
    decreases Remaining(depth), 0
  {
    if s[k].Object? && e[k].Object? {
      MergeKeepsConforming(e[k], s[k], depth + 1);
    }
  }

  /** Merging twice is merging once: a configuration written back by `Config::load` is
      not rewritten on the next load. */
  lemma MergeIdempotent(existing: Json, schema: Json, depth: nat)
    ensures var once := MergeJson(existing, schema, schema, depth);
      MergeJson(once, schema, schema, depth) == once
  {
    var once := MergeJson(existing, schema, schema, depth);
    if once.Object? {
      MergeConforms(existing, schema, depth);
      MergeKeepsConforming(once, schema, depth);
    }
  }

  // ---------------------------------------------------------------------------
  // The defaults, serialised: the schema `Config::load` merges against

  function Num(n: int): Json { Number(n) }
  function Str(s: string): Json { String(s) }

  function DefaultCorners(): Json {
    Object(map["window" := Num(12), "search" := Num(8), "list_item" := Num(8)])
  }

  function DefaultColors(): Json {
    Object(map[
      "window_bg" := Str("#0f0f0f"), "search_bg" := Str("#1f1f1f"),
      "search_bg_focused" := Str("#282828"), "item_bg" := Str("#0f0f0f"),
      "item_bg_hover" := Str("#181818"), "item_bg_selected" := Str("#1f1f1f"),
      "search_text" := Str("#e0e0e0"), "search_caret" := Str("#808080"),
      "item_name" := Str("#ffffff"), "item_name_selected" := Str("#ffffff"),
      "item_description" := Str("#a0a0a0"), "item_description_selected" := Str("#a0a0a0"),
      "item_path" := Str("#808080"), "item_path_selected" := Str("#808080"),
      "border" := Str("#333333")])
  }

  function DefaultSpacing(): Json {
    Object(map["search_margin" := Num(12), "search_padding" := Num(12),
               "item_margin" := Num(6), "item_padding" := Num(4)])
  }

  function DefaultTypography(): Json {
    Object(map["search_font_size" := Num(16), "item_name_size" := Num(14),
               "item_description_size" := Num(12), "item_path_size" := Num(12),
               "item_path_font_family" := Str("monospace")])
  }

  function DefaultNavigateKeys(): Json {
    Object(map["up" := Str("k"), "down" := Str("j"), "delete_word" := Str("h")])
  }

  function DefaultWindow(): Json {
    Object(map[
      "width" := Num(600), "height" := Num(600), "anchor" := Str("center"),
      "margin_top" := Num(0), "margin_bottom" := Num(0), "margin_left" := Num(0),
      "margin_right" := Num(0), "show_descriptions" := Bool(false), "show_paths" := Bool(false),
      "show_icons" := Bool(true), "show_search" := Bool(true),
      "custom_navigate_keys" := DefaultNavigateKeys(), "show_border" := Bool(true),
      "border_width" := Num(2), "use_gtk_colors" := Bool(false), "max_entries" := Num(50)])
  }

  /** `Config::default()` as JSON. */
  function DefaultConfig(): Json {
    Object(map[
      "window" := DefaultWindow(),
      "theme" := DefaultTheme(),
      "debug" := DefaultDebug()])
  }

  function DefaultTheme(): Json {
    Object(map["colors" := DefaultColors(), "corners" := DefaultCorners(),
               "spacing" := DefaultSpacing(), "typography" := DefaultTypography()])
  }

  function DefaultDebug(): Json {
    Object(map["disable_auto_focus" := Bool(false), "enable_logging" := Bool(false)])
  }

  /**
   * The merge `Config::load` performs, at the counter's initial value 0: whatever JSON the
   * user's file holds, the result has every key of the defaults with a value of the right
   * kind, and merging it again changes nothing.
   */
  lemma LoadedConfigShape(user: Json)
    ensures var merged := MergeJson(user, DefaultConfig(), DefaultConfig(), 0);
      && merged.Object? && merged.fields.Keys == {"window", "theme", "debug"}
      && Conforms(merged, DefaultConfig(), 0)
      && MergeJson(merged, DefaultConfig(), DefaultConfig(), 0) == merged
  {
    MergeConforms(user, DefaultConfig(), 0);
    MergeIdempotent(user, DefaultConfig(), 0);
  }

  /** Objects in `s` are nested at most `n` deep. */
  predicate NestingAtMost(s: Json, n: nat)
    decreases n
  {
    s.Object? ==> n > 0 && forall k :: k in s.fields ==> NestingAtMost(s.fields[k], n - 1)
  }

  /**
   * When the schema is shallow enough that the depth limit cannot be reached, the result
   * does not depend on the depth the merge starts at.
   */
  lemma {:induction false} MergeBelowLimit(existing: Json, default: Json, schema: Json, n: nat, d1: nat, d2: nat)
    requires NestingAtMost(schema, n) && d1 + n <= MAX_DEPTH && d2 + n <= MAX_DEPTH
    ensures MergeJson(existing, default, schema, d1) == MergeJson(existing, default, schema, d2)
    decreases n
  {
    if existing.Object? && default.Object? && schema.Object? {
      var e, d, s := existing.fields, default.fields, schema.fields;
      var r1 := MergeJson(existing, default, schema, d1).fields;
      var r2 := MergeJson(existing, default, schema, d2).fields;
      forall k | k in s ensures MergeField(e, d, s, k, d1) == MergeField(e, d, s, k, d2) {
        if k in e && s[k].Object? && e[k].Object? {
          MergeBelowLimit(e[k], Field(d, k).GetOr(Null), s[k], n - 1, d1 + 1, d2 + 1);
        }
      }
      assert r1 == r2;
    }
  }

  /** An object none of whose values is an object is one level deep. */
  lemma FlatObject(m: map<string, Json>)
    requires forall k :: k in m ==> !m[k].Object?
    ensures NestingAtMost(Object(m), 1)
  {
  }

  lemma DefaultWindowNesting()
    ensures NestingAtMost(DefaultWindow(), 2)
  {
    FlatObject(DefaultNavigateKeys().fields);
    var w := DefaultWindow().fields;
    assert forall k :: k in w && k != "custom_navigate_keys" ==> !w[k].Object?;
  }

  lemma DefaultThemeNesting()
    ensures NestingAtMost(DefaultTheme(), 2)
  {
    FlatObject(DefaultColors().fields);
    FlatObject(DefaultCorners().fields);
    FlatObject(DefaultSpacing().fields);
    FlatObject(DefaultTypography().fields);
  }

  lemma DefaultConfigNesting()
    ensures NestingAtMost(DefaultConfig(), 3)
  {
    DefaultWindowNesting();
    DefaultThemeNesting();
    FlatObject(DefaultDebug().fields);
  }

  /**
   * The defaults are three objects deep, so the merge `Config::load` performs never
   * reaches the depth limit: started at any counter value up to 7, it gives what it gives
   * at 0.
   */
  lemma LoadBelowDepthLimit(user: Json, depth: nat)
    requires depth + 3 <= MAX_DEPTH
    ensures MergeJson(user, DefaultConfig(), DefaultConfig(), depth)
         == MergeJson(user, DefaultConfig(), DefaultConfig(), 0)
  {
    DefaultConfigNesting();
    MergeBelowLimit(user, DefaultConfig(), DefaultConfig(), 3, depth, 0);
  }

  // ---------------------------------------------------------------------------
  // The border rule of get_css

  /** The `border` declaration `get_css` puts on the window. */
  function BorderStyle(showBorder: bool, useGtkColors: bool, borderWidth: int, borderColor: string): string {
    if showBorder then
      if useGtkColors then "border: " + IntToString(borderWidth) + "px solid @borders;"
      else "border: " + IntToString(borderWidth) + "px solid " + borderColor + ";"
    else "border: none;"
  }

  /**
   * The border is switched off exactly when `show_border` is false; otherwise the rule
   * carries the configured width (read back as a number) and takes its colour from the
   * GTK theme's `@borders` or from `theme.colors.border`.
   */
  lemma BorderStyleCases(showBorder: bool, useGtkColors: bool, borderWidth: nat, borderColor: string)
    ensures var css := BorderStyle(showBorder, useGtkColors, borderWidth, borderColor);
      && (css == "border: none;" <==> !showBorder)
      && (showBorder ==>
            var digits := NatToString(borderWidth);
            && StartsWith(css, "border: " + digits + "px solid ")
            && ParseNat(digits) == borderWidth
            && (useGtkColors ==> EndsWith(css, "@borders;"))
            && (!useGtkColors ==> EndsWith(css, " " + borderColor + ";")))
  {
    ParseNatToString(borderWidth);
    if showBorder {
      var digits := NatToString(borderWidth);
      var colour := if useGtkColors then "@borders;" else borderColor + ";";
      BorderShownForm(useGtkColors, borderWidth, borderColor);
      BorderRule(digits, colour);
      if !useGtkColors {
        assert " " + colour == " " + borderColor + ";";
      }
    }
  }

  /** A shown border is "border: ", the width's digits, "px solid ", then the colour part. */
  lemma BorderShownForm(useGtkColors: bool, borderWidth: nat, borderColor: string)
    ensures BorderStyle(true, useGtkColors, borderWidth, borderColor)
         == "border: " + NatToString(borderWidth) + "px solid "
            + (if useGtkColors then "@borders;" else borderColor + ";")
  {
    var digits := NatToString(borderWidth);
    assert IntToString(borderWidth) == digits;
    if useGtkColors {
      assert "px solid @borders;" == "px solid " + "@borders;";
      assert "border: " + digits + "px solid @borders;" == "border: " + digits + "px solid " + "@borders;";
    } else {
      assert "border: " + digits + "px solid " + borderColor + ";"
          == "border: " + digits + "px solid " + (borderColor + ";");
    }
  }

  /** A rule built around a number is not the "none" rule, starts with its width and ends
      with its colour part. */
  lemma BorderRule(digits: string, colour: string)
    requires |digits| >= 1 && '0' <= digits[0] <= '9'
    ensures var css := "border: " + digits + "px solid " + colour;
      && css != "border: none;"
      && StartsWith(css, "border: " + digits + "px solid ")
      && EndsWith(css, colour)
      && EndsWith(css, " " + colour)
  {
    var head := "border: " + digits + "px solid ";
    var css := head + colour;
    assert css[8] == digits[0];
    assert "border: none;"[8] == 'n';
    assert css[..|head|] == head;
    assert css[|css| - |colour|..] == colour;
    assert css[|css| - |colour| - 1..] == " " + colour;
  }

  // ---------------------------------------------------------------------------
  // The debounce of watch_changes

  /** A nanosecond clock reading, as `Instant` gives. */
  type Instant = nat

  const NANOS_PER_MILLI: nat := 1_000_000

  /** `now.duration_since(last).as_millis()`: whole milliseconds, zero when `now` is earlier. */
  function ElapsedMillis(last: Instant, now: Instant): nat {
    if now >= last then (now - last) / NANOS_PER_MILLI else 0
  }

  /**
   * One result of receiving from the watcher's channel. `Changed` is any message that
   * arrives, received at `now`, with what reading the file gave afterwards (None on a read
   * error). Errors that `notify` reports are sent down the channel as messages, so they
   * are `Changed` too. `WatchError` is the receive error of a disconnected channel, the
   * only thing that ends the loop.
   */
  datatype WatchEvent = Changed(now: Instant, read: Option<string>) | WatchError

  /** The watcher's state: the content last accepted and when. */
  datatype WatchState = WatchState(lastContent: Option<string>, lastUpdate: Instant)

  /** Whether a change fires the callback. */
  predicate Fires(st: WatchState, now: Instant, read: Option<string>) {
    ElapsedMillis(st.lastUpdate, now) > 250 && read.Some? && st.lastContent != read
  }

  /** What the watcher has done after some events: the positions of the events that fired
      the callback, its state, and whether an error has ended the loop. */
  datatype Trace = Trace(fired: seq<nat>, state: WatchState, stopped: bool)

  /** The watcher run over `events` in order, ignoring everything after the first error. */
  function Run(initial: WatchState, events: seq<WatchEvent>): Trace {
    if events == [] then Trace([], initial, false)
    else
      var i := |events| - 1;
      var t := Run(initial, events[..i]);
      if t.stopped then t
      else match events[i]
        case WatchError => t.(stopped := true)
        case Changed(now, read) =>
          if Fires(t.state, now, read) then Trace(t.fired + [i], WatchState(read, now), false) else t
  }

  /** Once a disconnected channel has ended the loop, later events change nothing. */
  lemma {:induction false} RunStopped(initial: WatchState, events: seq<WatchEvent>, i: nat)
    requires i <= |events| && Run(initial, events[..i]).stopped
    ensures Run(initial, events) == Run(initial, events[..i])
  {
    if i < |events| {
      var prefix := events[..|events| - 1];
      assert prefix[..i] == events[..i];
      RunStopped(initial, prefix, i);
    } else {
      assert events[..i] == events;
    }
  }

  /** The state the watcher was in when the `j`-th firing event arrived. */
  function Prior(initial: WatchState, events: seq<WatchEvent>, fired: seq<nat>, j: nat): WatchState
    requires j <= |fired|
  {
    if j == 0 then initial
    else
      var e := fired[j - 1];
      if e < |events| && events[e].Changed? then Accepted(events[e]) else initial
  }

  /** The facts of a run: the firing events are changes, in increasing order; each fired
      against the state the previous one left; and the final state is the one the last
      firing left (or the initial one). */
  predicate WellFired(initial: WatchState, events: seq<WatchEvent>, t: Trace) {
    && (forall k :: 0 <= k < |t.fired| ==> t.fired[k] < |events| && events[t.fired[k]].Changed?)
    && (forall k :: 0 < k < |t.fired| ==> t.fired[k - 1] < t.fired[k])
    && (forall k :: 0 <= k < |t.fired| ==>
          Fires(Prior(initial, events, t.fired, k), events[t.fired[k]].now, events[t.fired[k]].read))
    && t.state == Prior(initial, events, t.fired, |t.fired|)
  }

  /** The facts of a run over a prefix of the events hold over all of them. */
  lemma WellFiredPrefix(initial: WatchState, events: seq<WatchEvent>, n: nat, t: Trace)
    requires n <= |events| && WellFired(initial, events[..n], t)
    ensures WellFired(initial, events, t)
    ensures forall k :: 0 <= k < |t.fired| ==> t.fired[k] < n
  {
    var prefix := events[..n];
    forall k | 0 <= k < |t.fired| ensures events[t.fired[k]] == prefix[t.fired[k]] {
    }
    forall k | 0 <= k <= |t.fired|
      ensures Prior(initial, events, t.fired, k) == Prior(initial, prefix, t.fired, k)
    {
    }
  }

  /** A firing event appended after the earlier ones keeps the facts. */
  lemma WellFiredFire(initial: WatchState, events: seq<WatchEvent>, t: Trace, i: nat)
    requires WellFired(initial, events, t)
    requires i < |events| && events[i].Changed? && Fires(t.state, events[i].now, events[i].read)
    requires forall k :: 0 <= k < |t.fired| ==> t.fired[k] < i
    ensures WellFired(initial, events, Trace(t.fired + [i], Accepted(events[i]), false))
  {
    var f := t.fired + [i];
    FiredAppend(events, t.fired, i);
    FiresAppend(initial, events, t.fired, i);
    assert Prior(initial, events, f, |f|) == Accepted(events[i]);
  }

  /** Appending a change that fires against the last state keeps every firing justified. */
  lemma FiresAppend(initial: WatchState, events: seq<WatchEvent>, fired: seq<nat>, i: nat)
    requires forall k :: 0 <= k < |fired| ==> fired[k] < |events| && events[fired[k]].Changed?
    requires forall k :: 0 <= k < |fired| ==>
      Fires(Prior(initial, events, fired, k), events[fired[k]].now, events[fired[k]].read)
    requires i < |events| && events[i].Changed?
    requires Fires(Prior(initial, events, fired, |fired|), events[i].now, events[i].read)
    ensures var f := fired + [i];
      forall k :: 0 <= k < |f| ==>
        && f[k] < |events| && events[f[k]].Changed?
        && Fires(Prior(initial, events, f, k), events[f[k]].now, events[f[k]].read)
  {
    var f := fired + [i];
    forall k | 0 <= k < |f|
      ensures f[k] < |events| && events[f[k]].Changed?
      ensures Fires(Prior(initial, events, f, k), events[f[k]].now, events[f[k]].read)
    {
      PriorAppend(initial, events, fired, i, k);
    }
  }

  /** Appending a later change keeps the firing positions valid and increasing. */
  lemma FiredAppend(events: seq<WatchEvent>, fired: seq<nat>, i: nat)
    requires forall k :: 0 <= k < |fired| ==> fired[k] < |events| && events[fired[k]].Changed?
    requires forall k :: 0 < k < |fired| ==> fired[k - 1] < fired[k]
    requires forall k :: 0 <= k < |fired| ==> fired[k] < i
    requires i < |events| && events[i].Changed?
    ensures var f := fired + [i];
      && (forall k :: 0 <= k < |f| ==> f[k] < |events| && events[f[k]].Changed?)
      && (forall k :: 0 < k < |f| ==> f[k - 1] < f[k])
  {
  }

  /** Appending a position does not change the states up to it. */
  lemma PriorAppend(initial: WatchState, events: seq<WatchEvent>, fired: seq<nat>, i: nat, k: nat)
    requires k <= |fired|
    ensures Prior(initial, events, fired + [i], k) == Prior(initial, events, fired, k)
    ensures (fired + [i])[k] == if k < |fired| then fired[k] else i
  {
    if k > 0 {
      assert (fired + [i])[k - 1] == fired[k - 1];
    }
  }

  lemma {:induction false} RunWellFired(initial: WatchState, events: seq<WatchEvent>)
    ensures WellFired(initial, events, Run(initial, events))
  {
    if events != [] {
      var i := |events| - 1;
      var t := Run(initial, events[..i]);
      RunWellFired(initial, events[..i]);
      WellFiredPrefix(initial, events, i, t);
      if !t.stopped && events[i].Changed? && Fires(t.state, events[i].now, events[i].read) {
        WellFiredFire(initial, events, t, i);
      }
    }
  }

  /**
   * The debounce decides every change: a change that arrives while the loop runs fires
   * the callback exactly when it passes the rule against the state the earlier events
   * left. With `RunWellFired` this says the callback runs at exactly the qualifying changes.
   */
  lemma RunFiresExactly(initial: WatchState, events: seq<WatchEvent>, i: nat)
    requires i < |events| && events[i].Changed? && !Run(initial, events[..i]).stopped
    ensures i in Run(initial, events).fired <==>
      Fires(Run(initial, events[..i]).state, events[i].now, events[i].read)
  {
    var before := Run(initial, events[..i]);
    var upTo := events[..i + 1];
    assert upTo[..i] == events[..i];
    RunFiredBelow(initial, events[..i]);
    RunExtends(initial, events, i + 1);
    assert i !in before.fired;
  }

  /** Every firing position is a position of the events. */
  lemma {:induction false} RunFiredBelow(initial: WatchState, events: seq<WatchEvent>)
    ensures forall x :: x in Run(initial, events).fired ==> x < |events|
  {
    if events != [] {
      RunFiredBelow(initial, events[..|events| - 1]);
    }
  }

  /** Later events only add firings at their own, later positions. */
  lemma {:induction false} RunExtends(initial: WatchState, events: seq<WatchEvent>, n: nat)
    requires n <= |events|
    ensures forall x :: x in Run(initial, events[..n]).fired ==> x in Run(initial, events).fired
    ensures forall x :: x in Run(initial, events).fired && x < n ==> x in Run(initial, events[..n]).fired
    decreases |events| - n
  {
    if n == |events| {
      assert events[..n] == events;
    } else {
      var prefix := events[..|events| - 1];
      assert prefix[..n] == events[..n];
      RunExtends(initial, prefix, n);
    }
  }

  /**
   * Consecutive callbacks are more than 250 ms apart and each reports content different
   * from the content the previous one accepted; the first differs from the initial content.
   */
  lemma RunSpaced(initial: WatchState, events: seq<WatchEvent>)
    ensures var t := Run(initial, events);
      && (forall k :: 0 <= k < |t.fired| ==> t.fired[k] < |events| && events[t.fired[k]].Changed?)
      && (|t.fired| > 0 ==> events[t.fired[0]].read.Some? && events[t.fired[0]].read != initial.lastContent
                            && ElapsedMillis(initial.lastUpdate, events[t.fired[0]].now) > 250)
      && (forall k :: 0 < k < |t.fired| ==>
            && events[t.fired[k]].read.Some?
            && events[t.fired[k]].read != events[t.fired[k - 1]].read
            && ElapsedMillis(events[t.fired[k - 1]].now, events[t.fired[k]].now) > 250)
  {
    var t := Run(initial, events);
    RunWellFired(initial, events);
    forall k | 0 < k < |t.fired|
      ensures events[t.fired[k]].read.Some?
      ensures events[t.fired[k]].read != events[t.fired[k - 1]].read
      ensures ElapsedMillis(events[t.fired[k - 1]].now, events[t.fired[k]].now) > 250
    {
      assert Fires(Prior(initial, events, t.fired, k), events[t.fired[k]].now, events[t.fired[k]].read);
    }
    if |t.fired| > 0 {
      assert Fires(Prior(initial, events, t.fired, 0), events[t.fired[0]].now, events[t.fired[0]].read);
    }
  }

  /** The loop of `watch_changes`, over the events it receives: returns the positions of
      the events that fired the callback and the final state. */
  method WatchChanges(initial: WatchState, events: seq<WatchEvent>) returns (fired: seq<nat>, st: WatchState)
    ensures fired == Run(initial, events).fired && st == Run(initial, events).state
  {
    st := initial;
    fired := [];
    var i := 0;
    while i < |events|
      invariant 0 <= i <= |events|
      invariant Run(initial, events[..i]) == Trace(fired, st, false)
    {
      assert events[..i + 1][..i] == events[..i];
      match events[i]
      case WatchError =>
        RunStopped(initial, events, i + 1);
        return;
      case Changed(now, read) =>
        if ElapsedMillis(st.lastUpdate, now) > 250 {
          if read.Some? && st.lastContent != read {
            st := WatchState(read, now);
            fired := fired + [i];
          }
        }
      i := i + 1;
    }
    assert events[..i] == events;
  }

  /** The state after an event that fired. */
  function Accepted(ev: WatchEvent): WatchState
    requires ev.Changed?
  {
    WatchState(ev.read, ev.now)
  }
}
