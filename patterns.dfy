/**
 * The handful of fixed regular expressions the command handlers apply to the
 * text of a slash command (src/index.js), each written out as a scanner over
 * the characters of the text.
 *
 * A JavaScript regular expression without the `g` flag reports the match that
 * starts at the smallest index; `MatchAt` decides whether a pattern matches at
 * one index, with the greedy repetitions of the source, and `Search` finds the
 * leftmost such index. With the `g` flag, `String.prototype.match` collects the
 * text of every match, each search starting where the previous match ended;
 * that is `MatchAll` and `Matched`.
 */
module Patterns {
  import opened Wrappers
  import opened Strings

  /** A letter `A`-`Z` in either case: the `i` flag folds ASCII letters only. */
  predicate IsLetter(c: char) {
    'A' <= c <= 'Z' || 'a' <= c <= 'z'
  }

  /** `[A-Z0-9_-]` under the `i` flag: the characters of handles, group ids and user ids. */
  predicate IsIdChar(c: char) {
    IsLetter(c) || '0' <= c <= '9' || c == '_' || c == '-'
  }

  /** No identifier character is white space, so `trim` leaves identifiers alone. */
  lemma IdCharNotSpace(c: char)
    requires IsIdChar(c)
    ensures !IsSpace(c)
  {
  }

  /** The character classes that occur in the patterns. */
  datatype CharClass =
    | Id         // [A-Z0-9_-] with the i flag
    | DottedId   // [A-Z0-9\._-] with the i flag
    | NotHashAt  // [^#@]

  predicate InClass(c: char, k: CharClass) {
    match k
    case Id => IsIdChar(c)
    case DottedId => IsIdChar(c) || c == '.'
    case NotHashAt => c != '#' && c != '@'
  }

  /**
   * The number of characters of class `k` that follow index `i` without a
   * break: how far a greedy repetition of the class reaches from `i`.
   */
  function RunLength(s: string, i: nat, k: CharClass): (n: nat)
    requires i <= |s|
    ensures i + n <= |s|
    ensures forall j :: i <= j < i + n ==> InClass(s[j], k)
    ensures i + n == |s| || !InClass(s[i + n], k)
    decreases |s| - i
  {
    if i < |s| && InClass(s[i], k) then 1 + RunLength(s, i + 1, k) else 0
  }

  /** A run of class `k` that is followed by the end or by another class is the greedy run. */
  lemma RunLengthUnique(s: string, i: nat, k: CharClass, n: nat)
    requires i + n <= |s|
    requires forall j :: i <= j < i + n ==> InClass(s[j], k)
    requires i + n == |s| || !InClass(s[i + n], k)
    ensures RunLength(s, i, k) == n
  {
  }

  /** ASCII lower case, the folding the `i` flag applies to the letters of a literal. */
  function Lower(c: char): char {
    if 'A' <= c <= 'Z' then (c as int + 32) as char else c
  }

  /** `lit` (lower case) occurs at index `i` of `s`, letters compared case-insensitively. */
  predicate FoldedAt(s: string, i: nat, lit: string) {
    i + |lit| <= |s| && forall j :: 0 <= j < |lit| ==> Lower(s[i + j]) == lit[j]
  }

  /** The fixed patterns of the handlers. */
  datatype Pattern =
    | Handle    // /@([A-Z0-9_-]+)/i
    | Name      // /\s([^#@][^#@]+)/
    | Subteam   // /subteam\^([A-Z0-9_-]+)(?:\|(@[A-Z0-9\._-]+))?/i
    | SubteamId // /subteam\^([A-Z0-9_-]+)/i
    | Mention   // /<@(U[A-Z0-9_-]+)(?:\|([A-Z0-9_-]+))?>/gi
    | PipeName  // /\|([A-Z0-9\._-]+)>/i
    | UserRef   // /@(U[A-Z0-9_-]+)/i

  /**
   * One match: the matched text is `s[start..end]`; `group1` and `group2` are the
   * first and second capture groups (`group2` is absent when the optional
   * group did not take part).
   */
  datatype Match = Match(start: nat, end: nat, group1: string, group2: Option<string>)

  /** The matched text. */
  function Text(s: string, m: Match): string
    requires m.start <= m.end <= |s|
  {
    s[m.start..m.end]
  }

  /** `@` and a greedy run of identifier characters; the run is captured. */
  function HandleAt(s: string, i: nat): Option<Match> {
    if i < |s| && s[i] == '@' then
      var n := RunLength(s, i + 1, Id);
      if n >= 1 then Some(Match(i, i + 1 + n, s[i + 1..i + 1 + n], None)) else None
    else None
  }

  /**
   * A white-space character, then at least two characters other than `#` and
   * `@`, taken greedily and captured. Backtracking cannot help: a shorter run
   * matches only where the greedy one does.
   */
  function NameAt(s: string, i: nat): Option<Match> {
    if i < |s| && IsSpace(s[i]) then
      var n := RunLength(s, i + 1, NotHashAt);
      if n >= 2 then Some(Match(i, i + 1 + n, s[i + 1..i + 1 + n], None)) else None
    else None
  }

  const SubteamPrefix: string := "subteam^"

  /**
   * `subteam^` in any case, a greedy run of identifier characters (captured
   * first), then optionally `|@` and a run of identifier characters and dots
   * (captured second, with its `@`). The first run is never shortened: the
   * optional group is allowed to match nothing.
   */
  function SubteamAt(s: string, i: nat): Option<Match> {
    if FoldedAt(s, i, SubteamPrefix) then
      var n := RunLength(s, i + 8, Id);
      var j := i + 8 + n;
      var m := if j + 1 < |s| && s[j] == '|' && s[j + 1] == '@' then RunLength(s, j + 2, DottedId) else 0;
      if n == 0 then None
      else if m >= 1 then Some(Match(i, j + 2 + m, s[i + 8..j], Some(s[j + 1..j + 2 + m])))
      else Some(Match(i, j, s[i + 8..j], None))
    else None
  }

  /** `subteam^` in any case and a greedy run of identifier characters, captured. */
  function SubteamIdAt(s: string, i: nat): Option<Match> {
    if FoldedAt(s, i, SubteamPrefix) then
      var n := RunLength(s, i + 8, Id);
      if n >= 1 then Some(Match(i, i + 8 + n, s[i + 8..i + 8 + n], None)) else None
    else None
  }

  /**
   * `<@`, `U` in any case and a run of identifier characters (captured first
   * with the `U`), optionally `|` and a run of identifier characters (captured
   * second), then `>`. Neither `|` nor `>` is an identifier character, so only
   * the greedy runs can be followed by them.
   */
  function MentionAt(s: string, i: nat): Option<Match> {
    if i + 2 < |s| && s[i] == '<' && s[i + 1] == '@' && Lower(s[i + 2]) == 'u' then
      var n := RunLength(s, i + 3, Id);
      var j := i + 3 + n;
      if n == 0 || j == |s| then None
      else if s[j] == '>' then Some(Match(i, j + 1, s[i + 2..j], None))
      else if s[j] == '|' then
        var m := RunLength(s, j + 1, Id);
        if m >= 1 && j + 1 + m < |s| && s[j + 1 + m] == '>'
        then Some(Match(i, j + 2 + m, s[i + 2..j], Some(s[j + 1..j + 1 + m])))
        else None
      else None
    else None
  }

  /** `|`, a run of identifier characters and dots (captured), then `>`. */
  function PipeNameAt(s: string, i: nat): Option<Match> {
    if i < |s| && s[i] == '|' then
      var n := RunLength(s, i + 1, DottedId);
      if n >= 1 && i + 1 + n < |s| && s[i + 1 + n] == '>'
      then Some(Match(i, i + 2 + n, s[i + 1..i + 1 + n], None))
      else None
    else None
  }

  /** `@`, `U` in any case and a run of identifier characters, captured with the `U`. */
  function UserRefAt(s: string, i: nat): Option<Match> {
    if i + 1 < |s| && s[i] == '@' && Lower(s[i + 1]) == 'u' then
      var n := RunLength(s, i + 2, Id);
      if n >= 1 then Some(Match(i, i + 2 + n, s[i + 1..i + 2 + n], None)) else None
    else None
  }

  /** Does pattern `p` match `s` at index `i`, and with what captures? */
  function MatchAt(p: Pattern, s: string, i: nat): (r: Option<Match>)
    ensures r.Some? ==> r.value.start == i < r.value.end <= |s|
  {
    match p
    case Handle => HandleAt(s, i)
    case Name => NameAt(s, i)
    case Subteam => SubteamAt(s, i)
    case SubteamId => SubteamIdAt(s, i)
    case Mention => MentionAt(s, i)
    case PipeName => PipeNameAt(s, i)
    case UserRef => UserRefAt(s, i)
  }

  /** The leftmost match of `p` in `s` that starts at or after `from`. */
  function Search(p: Pattern, s: string, from: nat): (r: Option<Match>)
    requires from <= |s|
    ensures r.None? ==> forall i :: from <= i < |s| ==> MatchAt(p, s, i).None?
    ensures r.Some? ==> from <= r.value.start && MatchAt(p, s, r.value.start) == r
    ensures r.Some? ==> forall i :: from <= i < r.value.start ==> MatchAt(p, s, i).None?
    decreases |s| - from
  {
    if from == |s| then None
    else if MatchAt(p, s, from).Some? then MatchAt(p, s, from)
    else Search(p, s, from + 1)
  }

  /** `s.match(p)` without the `g` flag: the leftmost match, if any. */
  function First(p: Pattern, s: string): Option<Match> {
    Search(p, s, 0)
  }

  /** A match at index `i` that no match at a smaller index precedes is the one `First` reports. */
  lemma FirstIsLeftmost(p: Pattern, s: string, i: nat)
    requires MatchAt(p, s, i).Some?
    requires forall k :: 0 <= k < i ==> MatchAt(p, s, k).None?
    ensures First(p, s) == MatchAt(p, s, i)
  {
    var r := First(p, s);
    assert r.Some?;
    assert r.value.start == i;
  }

  /**
   * The matches of `p` from index `from` on, in the order the `g` flag finds
   * them: each search resumes where the previous match ended.
   */
  function MatchAll(p: Pattern, s: string, from: nat): (r: seq<Match>)
    requires from <= |s|
    ensures r == [] <==> Search(p, s, from).None?
    ensures forall k :: 0 <= k < |r| ==> from <= r[k].start && MatchAt(p, s, r[k].start) == Some(r[k])
    ensures forall k :: 0 <= k < |r| - 1 ==> r[k].end <= r[k + 1].start
    ensures r != [] ==> Search(p, s, from) == Some(r[0])
    decreases |s| - from
  {
    match Search(p, s, from)
    case None => []
    case Some(m) =>
      var rest := MatchAll(p, s, m.end);
      assert rest != [] ==> m.end <= rest[0].start;
      [m] + rest
  }

  /** Each match after the first is the leftmost one from the end of the match before it. */
  lemma {:induction false} MatchAllResumes(p: Pattern, s: string, from: nat, k: nat)
    requires from <= |s| && k + 1 < |MatchAll(p, s, from)|
    ensures MatchAll(p, s, from)[k].end <= |s|
    ensures Search(p, s, MatchAll(p, s, from)[k].end) == Some(MatchAll(p, s, from)[k + 1])
    decreases k
  {
    var r := MatchAll(p, s, from);
    var m := Search(p, s, from).value;
    var rest := MatchAll(p, s, m.end);
    assert r == [m] + rest;
    if k > 0 {
      MatchAllResumes(p, s, m.end, k - 1);
      assert r[k] == rest[k - 1] && r[k + 1] == rest[k];
    }
  }

  /**
   * Nothing is skipped: every index where `p` matches is the start of a
   * listed match or lies inside one.
   */
  lemma {:induction false} MatchAllComplete(p: Pattern, s: string, from: nat, i: nat)
    requires from <= i < |s| && MatchAt(p, s, i).Some?
    ensures exists k :: 0 <= k < |MatchAll(p, s, from)| && MatchAll(p, s, from)[k].start <= i < MatchAll(p, s, from)[k].end
    decreases |s| - from
  {
    var r := MatchAll(p, s, from);
    var m := Search(p, s, from).value;
    assert r[0] == m;
    if i < m.end {
      assert m.start <= i;
    } else {
      var rest := MatchAll(p, s, m.end);
      assert r == [m] + rest;
      MatchAllComplete(p, s, m.end, i);
      var k :| 0 <= k < |rest| && rest[k].start <= i < rest[k].end;
      assert r[k + 1] == rest[k];
    }
  }

  /** `s.match(p)` with the `g` flag: the text of every match, left to right (empty for `null`). */
  function Matched(p: Pattern, s: string): (r: seq<string>)
    ensures |r| == |MatchAll(p, s, 0)|
  {
    var ms := MatchAll(p, s, 0);
    seq(|ms|, k requires 0 <= k < |ms| => Text(s, ms[k]))
  }

  /**
   * The shape of a mention token: `<@U`, identifier characters up to index
   * `j`, then either `>` alone or `|`, the name and `>`.
   */
  lemma MentionShape(s: string, m: Match) returns (j: nat)
    requires MatchAt(Mention, s, m.start) == Some(m)
    ensures j < |Text(s, m)|
    ensures forall k :: 0 <= k < j ==> Text(s, m)[k] != '|'
    ensures m.group2.None? ==> |Text(s, m)| == j + 1 && Text(s, m)[j] == '>'
    ensures m.group2.Some? ==>
      && Text(s, m)[j] == '|'
      && |m.group2.value| >= 1
      && |Text(s, m)| == j + 2 + |m.group2.value|
      && Text(s, m)[j + 1..j + 1 + |m.group2.value|] == m.group2.value
      && Text(s, m)[|Text(s, m)| - 1] == '>'
      && forall q :: 0 <= q < |m.group2.value| ==> IsIdChar(m.group2.value[q])
  {
    var a := m.start;
    var t := Text(s, m);
    j := MentionAtShape(s, a);
    forall k | 0 <= k < j ensures t[k] != '|' {
      assert t[k] == s[a + k];
    }
    assert t[j] == s[a + j];
    if m.group2.Some? {
      var v := m.group2.value;
      assert t[|t| - 1] == s[m.end - 1];
      SliceOfSlice(s, a, m.end, j + 1, j + 1 + |v|);
    }
  }

  /** A slice of a slice is a slice of the whole. */
  lemma SliceOfSlice(s: string, a: nat, b: nat, c: nat, d: nat)
    requires a <= b <= |s| && c <= d <= b - a
    ensures s[a..b][c..d] == s[a + c..a + d]
  {
    forall k | 0 <= k < d - c ensures s[a..b][c..d][k] == s[a + c..a + d][k] {
      assert s[a..b][c..d][k] == s[a..b][c + k] == s[a + c + k];
    }
  }

  /** `MentionShape`, stated at index `a` of the whole text. */
  lemma MentionAtShape(s: string, a: nat) returns (j: nat)
    requires MentionAt(s, a).Some?
    ensures var m := MentionAt(s, a).value;
      && a + j < m.end <= |s|
      && (forall k :: a <= k < a + j ==> s[k] != '|')
      && (m.group2.None? ==> m.end == a + j + 1 && s[a + j] == '>')
      && (m.group2.Some? ==>
            var v := m.group2.value;
            && s[a + j] == '|'
            && |v| >= 1
            && m.end == a + j + 2 + |v|
            && s[a + j + 1..a + j + 1 + |v|] == v
            && s[m.end - 1] == '>'
            && forall q :: 0 <= q < |v| ==> IsIdChar(v[q]))
  {
    var n := RunLength(s, a + 3, Id);
    j := 3 + n;
    var m := MentionAt(s, a).value;
    if m.group2.Some? {
      var v := m.group2.value;
      forall q | 0 <= q < |v| ensures IsIdChar(v[q]) {
        assert v[q] == s[a + j + 1 + q];
        assert InClass(s[a + j + 1 + q], Id);
      }
    }
  }

  /** In a text shaped like a mention token, `/\|([A-Z0-9\._-]+)>/i` finds exactly the name. */
  lemma PipeNameInToken(t: string, j: nat, name: Option<string>)
    requires j < |t|
    requires forall k :: 0 <= k < j ==> t[k] != '|'
    requires name.None? ==> |t| == j + 1 && t[j] == '>'
    requires name.Some? ==>
      && t[j] == '|'
      && |name.value| >= 1
      && |t| == j + 2 + |name.value|
      && t[j + 1..j + 1 + |name.value|] == name.value
      && t[|t| - 1] == '>'
      && forall q :: 0 <= q < |name.value| ==> IsIdChar(name.value[q])
    ensures First(PipeName, t).Some? <==> name.Some?
    ensures name.Some? ==> First(PipeName, t).value.group1 == name.value
  {
    if name.None? {
      forall k | 0 <= k < |t| ensures MatchAt(PipeName, t, k).None? {
      }
    } else {
      var v := name.value;
      forall q | j + 1 <= q < j + 1 + |v| ensures InClass(t[q], DottedId) {
        assert t[q] == v[q - j - 1];
      }
      assert t[j + 1 + |v|] == '>';
      RunLengthUnique(t, j + 1, DottedId, |v|);
      assert PipeNameAt(t, j) == Some(Match(j, |t|, v, None));
      forall k | 0 <= k < j ensures MatchAt(PipeName, t, k).None? {
      }
      FirstIsLeftmost(PipeName, t, j);
    }
  }

  /**
   * A mention token as the `g` match of `<@U…|name>` returns it holds its name
   * where `/\|([A-Z0-9\._-]+)>/i` finds it, and a token without `|name` holds
   * no such name at all.
   */
  lemma PipeNameOfMention(s: string, m: Match)
    requires MatchAt(Mention, s, m.start) == Some(m)
    ensures First(PipeName, Text(s, m)).Some? <==> m.group2.Some?
    ensures m.group2.Some? ==> First(PipeName, Text(s, m)).value.group1 == m.group2.value
  {
    var j := MentionShape(s, m);
    PipeNameInToken(Text(s, m), j, m.group2);
  }

  /** Every text `Matched` returns is the text of one match, and its captures come with it. */
  lemma MatchedTexts(p: Pattern, s: string)
    ensures forall k :: 0 <= k < |Matched(p, s)| ==>
      Matched(p, s)[k] == Text(s, MatchAll(p, s, 0)[k])
  {
  }

  // ---------------------------------------------------------------------------
  // What each pattern finds, stated without the scanner: where a match can
  // start, and which run of characters the first group captures.

  /** `h` is a whole run of identifier characters starting at index `a` of `s`. */
  predicate IsIdRunAt(s: string, a: int, h: string) {
    && |h| >= 1
    && OccursAt(s, h, a)
    && (forall q :: 0 <= q < |h| ==> IsIdChar(h[q]))
    && (a + |h| == |s| || !IsIdChar(s[a + |h|]))
  }

  /** The characters from `a` up to `e` are identifier characters, and the one at `e` is not. */
  predicate IdRunBetween(s: string, a: int, e: int) {
    && 0 <= a < e < |s|
    && (forall k :: a <= k < e ==> IsIdChar(s[k]))
    && !IsIdChar(s[e])
  }

  /**
   * A mention token spans `s[i..end]`: `<@`, `U` in either case and more
   * identifier characters up to `idEnd`; then `>`, or `|`, a run of
   * identifier characters and `>`.
   */
  predicate MentionTokenAt(s: string, i: int, idEnd: int, end: int) {
    && 0 <= i && i + 3 < idEnd < end <= |s|
    && s[i] == '<' && s[i + 1] == '@' && Lower(s[i + 2]) == 'u'
    && IdRunBetween(s, i + 2, idEnd)
    && ((end == idEnd + 1 && s[idEnd] == '>')
        || (s[idEnd] == '|' && IdRunBetween(s, idEnd + 1, end - 1) && s[end - 1] == '>'))
  }

  /** The captures of a mention token: the id with its `U`, and the name when there is one. */
  function MentionTokenMatch(s: string, i: nat, idEnd: nat, end: nat): Match
    requires i + 2 <= idEnd < end <= |s|
  {
    Match(i, end, s[i + 2..idEnd], if end == idEnd + 1 then None else Some(s[idEnd + 1..end - 1]))
  }

  /** `h` is a run of at least two characters other than `#` and `@` that stops only at one of them or at the end. */
  predicate IsFreeRunAt(s: string, a: int, h: string) {
    && |h| >= 2
    && OccursAt(s, h, a)
    && (forall q :: 0 <= q < |h| ==> h[q] != '#' && h[q] != '@')
    && (a + |h| == |s| || s[a + |h|] == '#' || s[a + |h|] == '@')
  }

  /** `@` followed by an identifier character. */
  predicate HandleStartsAt(s: string, i: int) {
    0 <= i && i + 1 < |s| && s[i] == '@' && IsIdChar(s[i + 1])
  }

  /** White space followed by two characters other than `#` and `@`. */
  predicate NameStartsAt(s: string, i: int) {
    && 0 <= i && i + 2 < |s| && IsSpace(s[i])
    && s[i + 1] != '#' && s[i + 1] != '@' && s[i + 2] != '#' && s[i + 2] != '@'
  }

  /** `subteam^` in any case followed by an identifier character. */
  predicate SubteamStartsAt(s: string, i: int) {
    0 <= i && FoldedAt(s, i, SubteamPrefix) && i + 8 < |s| && IsIdChar(s[i + 8])
  }

  /** `@`, `U` in any case, then an identifier character. */
  predicate UserRefStartsAt(s: string, i: int) {
    0 <= i && i + 2 < |s| && s[i] == '@' && Lower(s[i + 1]) == 'u' && IsIdChar(s[i + 2])
  }

  /** The leftmost `@identifier` of `text` starts at `i` and its identifier is `h`. */
  predicate FirstHandleAt(text: string, i: int, h: string) {
    && HandleStartsAt(text, i)
    && (forall k :: 0 <= k < i ==> !HandleStartsAt(text, k))
    && IsIdRunAt(text, i + 1, h)
  }

  /** The leftmost name starts after the white space at `i` and runs as `run` up to a `#`, an `@` or the end. */
  predicate FirstNameAt(text: string, i: int, run: string) {
    && NameStartsAt(text, i)
    && (forall k :: 0 <= k < i ==> !NameStartsAt(text, k))
    && IsFreeRunAt(text, i + 1, run)
  }

  /** The leftmost `subteam^` reference of `text` starts at `i` and names group `g`. */
  predicate FirstSubteamAt(text: string, i: int, g: string) {
    && SubteamStartsAt(text, i)
    && (forall k :: 0 <= k < i ==> !SubteamStartsAt(text, k))
    && IsIdRunAt(text, i + 8, g)
  }

  /** The leftmost `@U…` user id of `text` starts at `i` and is `u`, its `U` included. */
  predicate FirstUserRefAt(text: string, i: int, u: string) {
    && UserRefStartsAt(text, i)
    && (forall k :: 0 <= k < i ==> !UserRefStartsAt(text, k))
    && |u| >= 2
    && u[0] == text[i + 1]
    && IsIdRunAt(text, i + 2, u[1..])
  }

  /**
   * `/@([A-Z0-9_-]+)/i` matches where `@` is followed by an identifier
   * character; its first match captures the whole identifier after the
   * leftmost such `@`.
   */
  lemma FirstHandle(s: string)
    ensures First(Handle, s).None? <==> forall i :: 0 <= i < |s| ==> !HandleStartsAt(s, i)
    ensures First(Handle, s).Some? ==> FirstHandleAt(s, First(Handle, s).value.start, First(Handle, s).value.group1)
  {
    forall i | 0 <= i < |s| ensures MatchAt(Handle, s, i).Some? <==> HandleStartsAt(s, i) {
      HandleAtRun(s, i);
    }
    if First(Handle, s).Some? {
      HandleAtRun(s, First(Handle, s).value.start);
    }
  }

  /** One index: where `@` and an identifier character start, the handle is the whole identifier. */
  lemma HandleAtRun(s: string, i: nat)
    ensures HandleAt(s, i).Some? <==> HandleStartsAt(s, i)
    ensures HandleAt(s, i).Some? ==> IsIdRunAt(s, i + 1, HandleAt(s, i).value.group1)
  {
    if i < |s| && s[i] == '@' {
      var n := RunLength(s, i + 1, Id);
      if n >= 1 {
        assert OccursAt(s, s[i + 1..i + 1 + n], i + 1);
      }
    }
  }

  /**
   * `/\s([^#@][^#@]+)/` matches where white space is followed by two
   * characters other than `#` and `@`; its first match captures everything
   * from there up to the next `#`, `@` or the end.
   */
  lemma FirstName(s: string)
    ensures First(Name, s).None? <==> forall i :: 0 <= i < |s| ==> !NameStartsAt(s, i)
    ensures First(Name, s).Some? ==> FirstNameAt(s, First(Name, s).value.start, First(Name, s).value.group1)
  {
    forall i | 0 <= i < |s| ensures MatchAt(Name, s, i).Some? <==> NameStartsAt(s, i) {
      NameAtRun(s, i);
    }
    if First(Name, s).Some? {
      NameAtRun(s, First(Name, s).value.start);
    }
  }

  /** One index: where white space and two free characters start, the name is the whole free run. */
  lemma NameAtRun(s: string, i: nat)
    ensures NameAt(s, i).Some? <==> NameStartsAt(s, i)
    ensures NameAt(s, i).Some? ==> IsFreeRunAt(s, i + 1, NameAt(s, i).value.group1)
  {
    if i < |s| && IsSpace(s[i]) {
      var n := RunLength(s, i + 1, NotHashAt);
      assert n >= 2 <==> NameStartsAt(s, i) by {
        if n == 0 {
        } else if n == 1 {
        }
      }
      if n >= 2 {
        assert OccursAt(s, s[i + 1..i + 1 + n], i + 1);
      }
    }
  }

  /**
   * `/subteam\^([A-Z0-9_-]+)…/i` matches where `subteam^` is followed by an
   * identifier character; its first match captures the whole group id there,
   * which therefore never holds a `|`.
   */
  lemma FirstSubteam(s: string)
    ensures First(Subteam, s).None? <==> forall i :: 0 <= i < |s| ==> !SubteamStartsAt(s, i)
    ensures First(Subteam, s).Some? ==>
      && FirstSubteamAt(s, First(Subteam, s).value.start, First(Subteam, s).value.group1)
      && '|' !in First(Subteam, s).value.group1
  {
    forall i | 0 <= i < |s| ensures MatchAt(Subteam, s, i).Some? <==> SubteamStartsAt(s, i) {
      SubteamAtGroup(s, i);
    }
    if First(Subteam, s).Some? {
      SubteamAtGroup(s, First(Subteam, s).value.start);
      var g := First(Subteam, s).value.group1;
      assert forall q :: 0 <= q < |g| ==> g[q] != '|';
    }
  }

  /**
   * The short subteam pattern finds what the long one finds: it matches at
   * the same leftmost index and captures the same group id, and only the
   * optional `|@handle` part the long one may add is missing.
   */
  lemma FirstSubteamId(s: string)
    ensures First(SubteamId, s).Some? <==> First(Subteam, s).Some?
    ensures First(SubteamId, s).Some? ==>
      && First(SubteamId, s).value.start == First(Subteam, s).value.start
      && First(SubteamId, s).value.group1 == First(Subteam, s).value.group1
  {
    SearchSubteamAgrees(s, 0);
  }

  /** From any index on, the two subteam patterns find a match at the same index with the same group id. */
  lemma {:induction false} SearchSubteamAgrees(s: string, from: nat)
    requires from <= |s|
    ensures Search(SubteamId, s, from).Some? <==> Search(Subteam, s, from).Some?
    ensures Search(SubteamId, s, from).Some? ==>
      && Search(SubteamId, s, from).value.start == Search(Subteam, s, from).value.start
      && Search(SubteamId, s, from).value.group1 == Search(Subteam, s, from).value.group1
    decreases |s| - from
  {
    if from < |s| {
      SubteamIdAtAgrees(s, from);
      if SubteamIdAt(s, from).None? {
        SearchSubteamAgrees(s, from + 1);
      }
    }
  }

  /** At one index the two subteam patterns match together, with the same group id. */
  lemma SubteamIdAtAgrees(s: string, i: nat)
    ensures SubteamIdAt(s, i).Some? <==> SubteamAt(s, i).Some?
    ensures SubteamIdAt(s, i).Some? ==> SubteamIdAt(s, i).value.group1 == SubteamAt(s, i).value.group1
  {
  }

  /** One index: where `subteam^` and an identifier character start, the group id is the whole identifier. */
  lemma SubteamAtGroup(s: string, i: nat)
    ensures SubteamAt(s, i).Some? <==> SubteamStartsAt(s, i)
    ensures SubteamAt(s, i).Some? ==> IsIdRunAt(s, i + 8, SubteamAt(s, i).value.group1)
  {
    if FoldedAt(s, i, SubteamPrefix) {
      var n := RunLength(s, i + 8, Id);
      if n >= 1 {
        assert OccursAt(s, s[i + 8..i + 8 + n], i + 8);
      }
    }
  }

  /**
   * `/@(U[A-Z0-9_-]+)/i` matches where `@` is followed by `U` (either case) and
   * an identifier character; its first match captures the `U` and the whole
   * identifier after it.
   */
  lemma FirstUserRef(s: string)
    ensures First(UserRef, s).None? <==> forall i :: 0 <= i < |s| ==> !UserRefStartsAt(s, i)
    ensures First(UserRef, s).Some? ==> FirstUserRefAt(s, First(UserRef, s).value.start, First(UserRef, s).value.group1)
  {
    forall i | 0 <= i < |s| ensures MatchAt(UserRef, s, i).Some? <==> UserRefStartsAt(s, i) {
      UserRefAtRun(s, i);
    }
    if First(UserRef, s).Some? {
      UserRefAtRun(s, First(UserRef, s).value.start);
    }
  }

  /** One index: where `@U` and an identifier character start, the user id is the `U` and the whole identifier. */
  lemma UserRefAtRun(s: string, i: nat)
    ensures UserRefAt(s, i).Some? <==> UserRefStartsAt(s, i)
    ensures UserRefAt(s, i).Some? ==>
      var u := UserRefAt(s, i).value.group1;
      |u| >= 2 && u[0] == s[i + 1] && IsIdRunAt(s, i + 2, u[1..])
  {
    if i + 1 < |s| && s[i] == '@' && Lower(s[i + 1]) == 'u' {
      var n := RunLength(s, i + 2, Id);
      if n >= 1 {
        var u := s[i + 1..i + 2 + n];
        assert u[1..] == s[i + 2..i + 2 + n];
        assert OccursAt(s, u[1..], i + 2);
      }
    }
  }

  /** Where the mention pattern matches, a mention token starts, and the match captures its id and name. */
  lemma MentionAtToken(s: string, i: nat) returns (idEnd: nat)
    requires MatchAt(Mention, s, i).Some?
    ensures var m := MatchAt(Mention, s, i).value;
      MentionTokenAt(s, i, idEnd, m.end) && m == MentionTokenMatch(s, i, idEnd, m.end)
  {
    idEnd := i + 3 + RunLength(s, i + 3, Id);
  }

  /** Where a mention token starts, the mention pattern matches it whole and captures its id and name. */
  lemma MentionTokenMatches(s: string, i: nat, idEnd: nat, end: nat)
    requires MentionTokenAt(s, i, idEnd, end)
    ensures MatchAt(Mention, s, i) == Some(MentionTokenMatch(s, i, idEnd, end))
  {
    RunLengthUnique(s, i + 3, Id, idEnd - i - 3);
    if end == idEnd + 1 {
      assert MentionAt(s, i) == Some(Match(i, end, s[i + 2..idEnd], None));
    } else {
      RunLengthUnique(s, idEnd + 1, Id, end - 1 - idEnd - 1);
      assert MentionAt(s, i) == Some(Match(i, end, s[i + 2..idEnd], Some(s[idEnd + 1..end - 1])));
    }
  }
}
