/** String helpers with the semantics of the Rust standard-library calls the launcher makes. */
module Strings {
  import opened Wrappers

  predicate StartsWith(s: string, prefix: string) {
    |prefix| <= |s| && s[..|prefix|] == prefix
  }

  predicate EndsWith(s: string, suffix: string) {
    |suffix| <= |s| && s[|s| - |suffix|..] == suffix
  }

  /** `sub` occurs in `s` starting at index `i`. */
  predicate OccursAt(s: string, sub: string, i: int) {
    0 <= i <= |s| - |sub| && s[i..i + |sub|] == sub
  }

  /** `str::contains` for a string pattern. */
  predicate Contains(s: string, sub: string) {
    exists i | 0 <= i <= |s| - |sub| :: OccursAt(s, sub, i)
  }

  // ---------------------------------------------------------------------------
  // `str::split(c)` and its inverse

  /** `s.split(c)`: the pieces between occurrences of `c`; "" splits into [""], and
      adjacent separators give empty pieces. */
  function Split(s: string, c: char): (parts: seq<string>)
    ensures |parts| >= 1
  {
    if s == [] then [""]
    else
      var rest := Split(s[1..], c);
      if s[0] == c then [""] + rest
      else [[s[0]] + rest[0]] + rest[1..]
  }

  /** The pieces joined back with the separator. */
  function Join(parts: seq<string>, c: char): string
    requires |parts| >= 1
  {
    if |parts| == 1 then parts[0] else parts[0] + [c] + Join(parts[1..], c)
  }

  /** Splitting loses nothing: joining the pieces with the separator gives the input back. */
  lemma {:induction false} JoinSplit(s: string, c: char)
    ensures Join(Split(s, c), c) == s
  {
    if s != [] {
      var rest := Split(s[1..], c);
      JoinSplit(s[1..], c);
      if s[0] == c {
        assert ([""] + rest)[1..] == rest;
      } else {
        JoinGlue([s[0]], rest, c);
      }
      assert s == [s[0]] + s[1..];
    }
  }

  /** Gluing a prefix onto the first piece glues it onto the joined string. */
  lemma JoinGlue(x: string, parts: seq<string>, c: char)
    requires |parts| >= 1
    ensures Join([x + parts[0]] + parts[1..], c) == x + Join(parts, c)
  {
    var glued := [x + parts[0]] + parts[1..];
    assert glued[0] == x + parts[0] && glued[1..] == parts[1..];
  }

  /** No piece contains the separator, and there is one more piece than separators. */
  lemma {:induction false} SplitPieces(s: string, c: char)
    ensures forall k :: 0 <= k < |Split(s, c)| ==> c !in Split(s, c)[k]
    ensures |Split(s, c)| == 1 + multiset(s)[c]
  {
    if s != [] {
      SplitPieces(s[1..], c);
      assert s == [s[0]] + s[1..];
      assert multiset(s) == multiset{s[0]} + multiset(s[1..]);
    }
  }

  // ---------------------------------------------------------------------------
  // `str::replace(pat, rep)`: left-to-right, non-overlapping

  function ReplaceAll(s: string, pat: string, rep: string): string
    requires |pat| > 0
    decreases |s|
  {
    if |s| < |pat| then s
    else if s[..|pat|] == pat then rep + ReplaceAll(s[|pat|..], pat, rep)
    else [s[0]] + ReplaceAll(s[1..], pat, rep)
  }

  /** Replacing a pattern that does not occur leaves the string unchanged. */
  lemma {:induction false} ReplaceAbsent(s: string, pat: string, rep: string)
    requires |pat| > 0
    requires !Contains(s, pat)
    ensures ReplaceAll(s, pat, rep) == s
    decreases |s|
  {
    if |s| >= |pat| {
      assert !OccursAt(s, pat, 0);
      assert !Contains(s[1..], pat) by {
        forall i | 0 <= i <= |s[1..]| - |pat|
          ensures !OccursAt(s[1..], pat, i)
        {
          if OccursAt(s[1..], pat, i) {
            assert s[1..][i..i + |pat|] == s[i + 1..i + 1 + |pat|];
            assert OccursAt(s, pat, i + 1);
          }
        }
      }
      ReplaceAbsent(s[1..], pat, rep);
    }
  }

  /**
   * `replace` rewrites the first occurrence and carries on after it: the text before the
   * first occurrence is kept, the occurrence becomes `rep`, and the rest is replaced in
   * turn. With `ReplaceAbsent` this determines `ReplaceAll` on every input.
   */
  lemma ReplaceFirst(s: string, pat: string, rep: string, i: nat)
    requires |pat| > 0 && OccursAt(s, pat, i)
    requires forall j :: 0 <= j < i ==> !OccursAt(s, pat, j)
    ensures ReplaceAll(s, pat, rep) == s[..i] + rep + ReplaceAll(s[i + |pat|..], pat, rep)
  {
    NoneBeforeFromAll(s, pat, i);
    ReplaceAtFirst(s, pat, rep, i);
  }

  lemma ReplaceAtFirst(s: string, pat: string, rep: string, i: nat)
    requires |pat| > 0 && OccursAt(s, pat, i) && NoneBefore(s, pat, i)
    ensures ReplaceAll(s, pat, rep) == s[..i] + rep + ReplaceAll(s[i + |pat|..], pat, rep)
  {
    var before, after := s[..i], s[i + |pat|..];
    var whole, fromHit, tail := ReplaceAll(s, pat, rep), ReplaceAll(s[i..], pat, rep), ReplaceAll(after, pat, rep);
    ReplaceKeepsPrefix(s, pat, rep, i);
    assert whole == before + fromHit;
    ReplaceHitAt(s, pat, rep, i);
    assert fromHit == rep + tail;
    assert before + rep + tail == before + (rep + tail);
  }

  /** The replacement of the suffix starting at an occurrence. */
  lemma ReplaceHitAt(s: string, pat: string, rep: string, i: nat)
    requires |pat| > 0 && OccursAt(s, pat, i)
    ensures ReplaceAll(s[i..], pat, rep) == rep + ReplaceAll(s[i + |pat|..], pat, rep)
  {
    var at := s[i..];
    assert at[..|pat|] == s[i..i + |pat|];
    assert at[|pat|..] == s[i + |pat|..];
    ReplaceHit(at, pat, rep);
  }

  /** No occurrence of `pat` starts before index `i` of `s`, stated character by character. */
  predicate NoneBefore(s: string, pat: string, i: nat)
    decreases i
  {
    i == 0 || (0 < |s| && !OccursAt(s, pat, 0) && NoneBefore(s[1..], pat, i - 1))
  }

  lemma {:induction false} NoneBeforeFromAll(s: string, pat: string, i: nat)
    requires i <= |s|
    requires forall j :: 0 <= j < i ==> !OccursAt(s, pat, j)
    ensures NoneBefore(s, pat, i)
    decreases i
  {
    if i > 0 {
      NoEarlierInTail(s, pat, i);
      NoneBeforeFromAll(s[1..], pat, i - 1);
    }
  }

  /** Text before the first occurrence is copied unchanged. */
  lemma {:induction false} ReplaceKeepsPrefix(s: string, pat: string, rep: string, i: nat)
    requires |pat| > 0 && i <= |s| && NoneBefore(s, pat, i)
    ensures ReplaceAll(s, pat, rep) == s[..i] + ReplaceAll(s[i..], pat, rep)
    decreases i
  {
    if i == 0 {
      assert s[..0] + s[0..] == s;
    } else {
      ReplaceSkip(s, pat, rep);
      ReplaceKeepsPrefix(s[1..], pat, rep, i - 1);
      assert s[1..][i - 1..] == s[i..];
      PrefixGlue(s, i, ReplaceAll(s[1..], pat, rep), ReplaceAll(s[i..], pat, rep));
    }
  }

  /** Putting the first character back in front of a tail that keeps its prefix. */
  lemma PrefixGlue(s: string, i: nat, tailResult: string, after: string)
    requires 0 < i <= |s|
    requires tailResult == s[1..][..i - 1] + after
    ensures [s[0]] + tailResult == s[..i] + after
  {
    assert [s[0]] + s[1..][..i - 1] == s[..i];
  }

  /** One step of `ReplaceAll` at an occurrence. */
  lemma ReplaceHit(s: string, pat: string, rep: string)
    requires |pat| > 0 && OccursAt(s, pat, 0)
    ensures ReplaceAll(s, pat, rep) == rep + ReplaceAll(s[|pat|..], pat, rep)
  {
    assert s[..|pat|] == pat;
  }

  /** One step of `ReplaceAll` where no occurrence starts. */
  lemma ReplaceSkip(s: string, pat: string, rep: string)
    requires |pat| > 0 && |s| > 0 && !OccursAt(s, pat, 0)
    ensures ReplaceAll(s, pat, rep) == [s[0]] + ReplaceAll(s[1..], pat, rep)
  {
    if |s| < |pat| {
      var tail := s[1..];
      assert ReplaceAll(tail, pat, rep) == tail;
      assert [s[0]] + tail == s;
    }
  }

  /** No occurrence before `i` in `s` means none before `i - 1` in its tail. */
  lemma NoEarlierInTail(s: string, pat: string, i: nat)
    requires 0 < i <= |s|
    requires forall j :: 0 <= j < i ==> !OccursAt(s, pat, j)
    ensures forall j :: 0 <= j < i - 1 ==> !OccursAt(s[1..], pat, j)
  {
    forall j | 0 <= j < i - 1 ensures !OccursAt(s[1..], pat, j) {
      if OccursAt(s[1..], pat, j) {
        assert s[1..][j..j + |pat|] == s[j + 1..j + 1 + |pat|];
        assert OccursAt(s, pat, j + 1);
      }
    }
  }

  /** A prefix that cannot start the pattern passes through the replacement untouched. */
  lemma ReplaceAfterPlain(s: string, t: string, pat: string, rep: string)
    requires |pat| > 0 && pat[0] !in s
    ensures ReplaceAll(s + t, pat, rep) == s + ReplaceAll(t, pat, rep)
  {
    PlainNoneBefore(s, t, pat);
    ReplaceKeepsPrefix(s + t, pat, rep, |s|);
    assert (s + t)[..|s|] == s && (s + t)[|s|..] == t;
  }

  /** No occurrence starts inside a prefix that holds no first character of the pattern. */
  lemma {:induction false} PlainNoneBefore(s: string, t: string, pat: string)
    requires |pat| > 0 && pat[0] !in s
    ensures NoneBefore(s + t, pat, |s|)
    decreases |s|
  {
    if s != [] {
      var st := s + t;
      assert st[0] == s[0];
      assert st[1..] == s[1..] + t;
      PlainNoneBefore(s[1..], t, pat);
    }
  }

  /** Replacing a two-character pattern in a two-character string. */
  lemma ReplaceTwo(s: string, pat: string, rep: string)
    requires |s| == 2 && |pat| == 2
    ensures ReplaceAll(s, pat, rep) == if s == pat then rep else s
  {
    assert s[2..] == [];
    assert |s[1..]| < |pat|;
    assert s[..2] == s;
    assert [s[0]] + s[1..] == s;
  }

  // ---------------------------------------------------------------------------
  // `str::trim`: strips Unicode White_Space from both ends

  predicate IsWhitespace(ch: char) {
    ('\U{9}' <= ch <= '\U{D}') || ch == ' ' || ch == '\U{85}' || ch == '\U{A0}'
    || ch == '\U{1680}' || ('\U{2000}' <= ch <= '\U{200A}') || ch == '\U{2028}'
    || ch == '\U{2029}' || ch == '\U{202F}' || ch == '\U{205F}' || ch == '\U{3000}'
  }

  function TrimStart(s: string): (r: string)
    ensures |r| <= |s| && r == s[|s| - |r|..]
    ensures r == [] || !IsWhitespace(r[0])
    ensures forall k :: 0 <= k < |s| - |r| ==> IsWhitespace(s[k])
  {
    if s != [] && IsWhitespace(s[0]) then TrimStart(s[1..]) else s
  }

  function TrimEnd(s: string): (r: string)
    ensures |r| <= |s| && r == s[..|r|]
    ensures r == [] || !IsWhitespace(r[|r| - 1])
    ensures forall k :: |r| <= k < |s| ==> IsWhitespace(s[k])
  {
    if s != [] && IsWhitespace(s[|s| - 1]) then TrimEnd(s[..|s| - 1]) else s
  }

  /** The trimmed string is the middle of `s`: what is cut off on either side is all
      whitespace, and the result neither starts nor ends with whitespace. */
  function Trim(s: string): (r: string)
    ensures exists i, j :: 0 <= i <= j <= |s| && r == s[i..j]
                           && (forall k :: 0 <= k < i ==> IsWhitespace(s[k]))
                           && (forall k :: j <= k < |s| ==> IsWhitespace(s[k]))
    ensures r == [] || (!IsWhitespace(r[0]) && !IsWhitespace(r[|r| - 1]))
  {
    var a := TrimStart(s);
    var b := TrimEnd(a);
    CutBothEnds(s, a, b);
    b
  }

  /** Cutting whitespace off the front of `s` (leaving `a`) and then off the end of `a`
      (leaving `b`) leaves a slice of `s` with only whitespace outside it. */
  lemma CutBothEnds(s: string, a: string, b: string)
    requires |a| <= |s| && a == s[|s| - |a|..]
    requires forall k :: 0 <= k < |s| - |a| ==> IsWhitespace(s[k])
    requires |b| <= |a| && b == a[..|b|]
    requires forall k :: |b| <= k < |a| ==> IsWhitespace(a[k])
    ensures var i := |s| - |a|;
      && 0 <= i <= i + |b| <= |s| && b == s[i..i + |b|]
      && (forall k :: 0 <= k < i ==> IsWhitespace(s[k]))
      && (forall k :: i + |b| <= k < |s| ==> IsWhitespace(s[k]))
  {
    var i := |s| - |a|;
    forall k | i + |b| <= k < |s| ensures IsWhitespace(s[k]) {
      assert s[k] == a[k - i];
    }
  }

  // ---------------------------------------------------------------------------
  // Decimal formatting of integers (`format!("{}", n)`) and its inverse

  function DigitChar(d: nat): char
    requires d < 10
  {
    ['0', '1', '2', '3', '4', '5', '6', '7', '8', '9'][d]
  }

  function DigitValue(ch: char): nat {
    if '0' <= ch <= '9' then (ch as int - '0' as int) as nat else 0
  }

  function NatToString(n: nat): (s: string)
    ensures |s| >= 1
    ensures forall k :: 0 <= k < |s| ==> '0' <= s[k] <= '9'
  {
    if n < 10 then [DigitChar(n)] else NatToString(n / 10) + [DigitChar(n % 10)]
  }

  function IntToString(n: int): string {
    if n < 0 then "-" + NatToString(-n) else NatToString(n)
  }

  /** Reads a run of decimal digits. */
  function ParseNat(s: string): nat {
    if s == [] then 0 else 10 * ParseNat(s[..|s| - 1]) + DigitValue(s[|s| - 1])
  }

  /** Formatting a number in decimal and reading it back gives the number. */
  lemma {:induction false} ParseNatToString(n: nat)
    ensures ParseNat(NatToString(n)) == n
  {
    var s := NatToString(n);
    if n < 10 {
      DigitRoundTrip(n);
      assert s[..|s| - 1] == [];
    } else {
      var last := DigitChar(n % 10);
      assert s == NatToString(n / 10) + [last];
      assert s[..|s| - 1] == NatToString(n / 10);
      assert s[|s| - 1] == last;
      ParseNatToString(n / 10);
      DigitRoundTrip(n % 10);
      assert ParseNat(s) == 10 * (n / 10) + n % 10;
    }
  }

  /** A digit's character reads back as the digit. */
  lemma DigitRoundTrip(d: nat)
    requires d < 10
    ensures DigitValue(DigitChar(d)) == d
  {
  }

  // ---------------------------------------------------------------------------
  // `Path::file_name` and `Path::extension`

  /** The path's components as Rust's `Path::components` normalises them: empty pieces
      (repeated or trailing '/') and "." pieces do not count. */
  function Components(path: string): (cs: seq<string>)
    ensures forall k :: 0 <= k < |cs| ==> cs[k] != "" && cs[k] != "."
  {
    Normal(Split(path, '/'))
  }

  function Normal(pieces: seq<string>): (cs: seq<string>)
    ensures forall k :: 0 <= k < |cs| ==> cs[k] != "" && cs[k] != "."
    ensures forall k :: 0 <= k < |cs| ==> cs[k] in pieces
  {
    if pieces == [] then []
    else if pieces[0] == "" || pieces[0] == "." then Normal(pieces[1..])
    else [pieces[0]] + Normal(pieces[1..])
  }

  /** `Path::file_name`: the last normal component; none for "/", "" or a path ending in "..". */
  function FileName(path: string): (r: Option<string>)
    ensures r.Some? ==> r.value != "" && r.value != "." && r.value != ".."
    ensures r.Some? ==> '/' !in r.value
  {
    var cs := Components(path);
    if cs == [] || cs[|cs| - 1] == ".." then None
    else
      SplitPieces(path, '/');
      Some(cs[|cs| - 1])
  }

  function LastDot(name: string): (r: Option<nat>)
    ensures r.Some? ==> r.value < |name| && name[r.value] == '.'
                        && '.' !in name[r.value + 1..]
    ensures r.None? ==> '.' !in name
  {
    if name == [] then None
    else if name[|name| - 1] == '.' then Some(|name| - 1)
    else
      var r := LastDot(name[..|name| - 1]);
      assert name == name[..|name| - 1] + [name[|name| - 1]];
      if r.Some? then
        assert name[r.value + 1..] == name[..|name| - 1][r.value + 1..] + [name[|name| - 1]];
        r
      else r
  }

  /** `Path::extension`: what follows the last '.' of the file name, unless that dot is
      the name's first character ("`.bashrc`" has no extension). */
  function Extension(path: string): (r: Option<string>)
    ensures r.Some? ==> '.' !in r.value
  {
    match FileName(path)
    case None => None
    case Some(name) =>
      match LastDot(name)
      case None => None
      case Some(i) => if i == 0 then None else Some(name[i + 1..])
  }
}
