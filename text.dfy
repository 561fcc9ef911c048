/** The Rust standard-library string operations the scraper depends on
    (`str::contains`, `str::split`, `str::replace`, `str::trim`,
    `char::is_whitespace`, `str::to_lowercase`), stated over `seq<char>`, with
    the first-occurrence search they share. */
module Text {
  import opened Wrappers

  /** `pat` occurs in `s` starting at index `i`. */
  predicate OccursAt(s: string, pat: string, i: int) {
    0 <= i && i + |pat| <= |s| && s[i..i + |pat|] == pat
  }

  /** The first occurrence of `pat` in `s` at or after `from`. */
  function IndexFrom(s: string, pat: string, from: nat): (r: Option<nat>)
    ensures r.Some? ==> from <= r.value && OccursAt(s, pat, r.value)
    ensures forall j :: from <= j && (r.None? || j < r.value) ==> !OccursAt(s, pat, j)
    decreases |s| - from
  {
    if from + |pat| > |s| then None
    else if s[from..from + |pat|] == pat then Some(from)
    else IndexFrom(s, pat, from + 1)
  }

  /** The index of the first occurrence of `pat` in `s`, where `contains`
      and `split` look for the pattern. */
  function IndexOf(s: string, pat: string): (r: Option<nat>)
    ensures r.Some? ==> OccursAt(s, pat, r.value)
    ensures forall j :: 0 <= j && (r.None? || j < r.value) ==> !OccursAt(s, pat, j)
  {
    IndexFrom(s, pat, 0)
  }

  /** `str::contains`. */
  function Contains(s: string, pat: string): (b: bool)
    ensures b <==> exists i :: OccursAt(s, pat, i)
  {
    IndexOf(s, pat).Some?
  }

  /** A one-character pattern is contained exactly when the character is. */
  lemma ContainsChar(s: string, c: char)
    ensures Contains(s, [c]) <==> c in s
  {
    if c in s {
      var i :| 0 <= i < |s| && s[i] == c;
      assert OccursAt(s, [c], i);
    }
    if Contains(s, [c]) {
      var i :| OccursAt(s, [c], i);
      assert s[i..i + 1][0] == s[i];
    }
  }

  /** Dropping the first character keeps every occurrence that did not start there. */
  lemma ContainsTail(s: string, pat: string)
    requires |s| > 0 && Contains(s[1..], pat)
    ensures Contains(s, pat)
  {
    var i :| OccursAt(s[1..], pat, i);
    assert s[1..][i..i + |pat|] == s[i + 1..i + 1 + |pat|];
    assert OccursAt(s, pat, i + 1);
  }

  /** An occurrence inside a prefix is an occurrence in the whole text. */
  lemma OccursInPrefix(s: string, pat: string, n: nat, j: int)
    requires n <= |s| && OccursAt(s[..n], pat, j)
    ensures OccursAt(s, pat, j)
  {
    assert s[..n][j..j + |pat|] == s[j..j + |pat|];
  }

  /** The text before the first occurrence of `pat` does not contain `pat`. */
  lemma BeforeFirstIsClean(s: string, pat: string, i: nat)
    requires |pat| > 0 && IndexOf(s, pat) == Some(i)
    ensures !Contains(s[..i], pat)
  {
    forall j | OccursAt(s[..i], pat, j) ensures false {
      OccursInPrefix(s, pat, i, j);
    }
  }

  /** `str::split` with a non-empty pattern: the pieces between the
      non-overlapping occurrences of `sep`, scanned left to right. */
  function Split(s: string, sep: string): (parts: seq<string>)
    requires |sep| > 0
    ensures |parts| >= 1
    ensures |parts| == 1 <==> !Contains(s, sep)
    ensures parts[0] <= s && !Contains(parts[0], sep)
    ensures |parts| == 1 ==> parts[0] == s
    ensures |parts| > 1 ==> OccursAt(s, sep, |parts[0]|)
    decreases |s|
  {
    match IndexOf(s, sep)
    case None => [s]
    case Some(i) =>
      BeforeFirstIsClean(s, sep, i);
      [s[..i]] + Split(s[i + |sep|..], sep)
  }

  /** `[&str]::join`: the inverse of `Split`. */
  function Join(parts: seq<string>, sep: string): string {
    if |parts| == 0 then []
    else if |parts| == 1 then parts[0]
    else parts[0] + sep + Join(parts[1..], sep)
  }

  /** Joining a first piece onto at least one more puts a separator between them. */
  lemma JoinCons(head: string, tail: seq<string>, sep: string)
    requires |tail| >= 1
    ensures Join([head] + tail, sep) == head + sep + Join(tail, sep)
  {
    assert ([head] + tail)[1..] == tail;
  }

  /** A text is the part before an occurrence, the occurrence and the part after. */
  lemma AroundOccurrence(s: string, pat: string, i: int)
    requires OccursAt(s, pat, i)
    ensures s == s[..i] + pat + s[i + |pat|..]
  {
    assert s == s[..i] + s[i..i + |pat|] + s[i + |pat|..];
  }

  /** One step of `Split`: the part before the first occurrence, then the split of the rest. */
  lemma SplitFirst(s: string, sep: string)
    requires |sep| > 0 && IndexOf(s, sep).Some?
    ensures var i := IndexOf(s, sep).value;
            Split(s, sep) == [s[..i]] + Split(s[i + |sep|..], sep)
  {
  }

  /** Splitting loses nothing: joining the pieces with the separator gives the text back. */
  lemma {:induction false} JoinSplit(s: string, sep: string)
    requires |sep| > 0
    ensures Join(Split(s, sep), sep) == s
    decreases |s|
  {
    match IndexOf(s, sep)
    case None =>
    case Some(i) =>
      var rest := s[i + |sep|..];
      JoinSplit(rest, sep);
      SplitFirst(s, sep);
      JoinCons(s[..i], Split(rest, sep), sep);
      AroundOccurrence(s, sep, i);
  }

  /** No piece of a split contains the separator. */
  lemma {:induction false} SplitPiecesAvoidSep(s: string, sep: string)
    requires |sep| > 0
    ensures forall k :: 0 <= k < |Split(s, sep)| ==> !Contains(Split(s, sep)[k], sep)
    decreases |s|
  {
    match IndexOf(s, sep)
    case None =>
    case Some(i) =>
      var rest := s[i + |sep|..];
      var tail := Split(rest, sep);
      SplitPiecesAvoidSep(rest, sep);
      var parts := Split(s, sep);
      assert parts == [s[..i]] + tail;
      forall k | 0 <= k < |parts| ensures !Contains(parts[k], sep) {
        if k > 0 {
          assert parts[k] == tail[k - 1];
        }
      }
  }

  /** `str::replace`: every non-overlapping occurrence of `pat`, scanned left
      to right, is replaced by `rep`. A replacement no longer than the pattern
      never lengthens the text, and replacing a pattern by itself changes nothing. */
  function ReplaceAll(s: string, pat: string, rep: string): (r: string)
    requires |pat| > 0
    ensures |rep| <= |pat| ==> |r| <= |s|
    ensures rep == pat ==> r == s
    decreases |s|
  {
    if |s| == 0 then []
    else if OccursAt(s, pat, 0) then
      assert s == s[..|pat|] + s[|pat|..];
      rep + ReplaceAll(s[|pat|..], pat, rep)
    else
      assert s == [s[0]] + s[1..];
      [s[0]] + ReplaceAll(s[1..], pat, rep)
  }

  /** Replacing a pattern that does not occur changes nothing. */
  lemma {:induction false} ReplaceAbsent(s: string, pat: string, rep: string)
    requires |pat| > 0 && !Contains(s, pat)
    ensures ReplaceAll(s, pat, rep) == s
    decreases |s|
  {
    if |s| > 0 {
      assert !OccursAt(s, pat, 0);
      if Contains(s[1..], pat) {
        ContainsTail(s, pat);
      }
      ReplaceAbsent(s[1..], pat, rep);
      assert s == [s[0]] + s[1..];
    }
  }

  /** Occurrences in the tail of `s` are those of `s` shifted by one. */
  lemma OccursInTail(s: string, pat: string, j: nat)
    requires |s| > 0
    ensures OccursAt(s[1..], pat, j) <==> OccursAt(s, pat, j + 1)
  {
    if j + 1 + |pat| <= |s| {
      assert s[1..][j..j + |pat|] == s[j + 1..j + 1 + |pat|];
    }
  }

  /** With no occurrence before `i` in `s`, there is none before `i - 1` in its tail. */
  lemma NoEarlierInTail(s: string, pat: string, i: nat)
    requires |s| > 0 && i > 0
    requires forall j :: 0 <= j < i ==> !OccursAt(s, pat, j)
    ensures forall j :: 0 <= j < i - 1 ==> !OccursAt(s[1..], pat, j)
  {
    forall j | 0 <= j < i - 1 ensures !OccursAt(s[1..], pat, j) {
      OccursInTail(s, pat, j);
    }
  }

  /** An occurrence at the start is replaced and the scan resumes after it. */
  lemma ReplaceAtStart(s: string, pat: string, rep: string)
    requires |pat| > 0 && OccursAt(s, pat, 0)
    ensures ReplaceAll(s, pat, rep) == s[..0] + rep + ReplaceAll(s[|pat|..], pat, rep)
  {
    assert s[..0] + rep == rep;
  }

  /** A character that does not start an occurrence is copied as it is, so a
      statement about the tail extends to the whole text by that character. */
  lemma ReplaceSkip(c: char, t: string, pat: string, rep: string, head: string, tail: string)
    requires |pat| > 0 && !OccursAt([c] + t, pat, 0)
    requires ReplaceAll(t, pat, rep) == head + rep + ReplaceAll(tail, pat, rep)
    ensures ReplaceAll([c] + t, pat, rep) == [c] + head + rep + ReplaceAll(tail, pat, rep)
  {
    assert ([c] + t)[1..] == t;
  }

  /** `ReplaceSkip` with the pieces taken from `s`: an occurrence at `i - 1` of
      the tail is one at `i` of `s`. */
  lemma ReplaceShiftBack(s: string, pat: string, rep: string, i: nat)
    requires |pat| > 0 && |s| > 0 && !OccursAt(s, pat, 0)
    requires 0 < i && i + |pat| <= |s|
    requires ReplaceAll(s[1..], pat, rep)
             == s[1..][..i - 1] + rep + ReplaceAll(s[1..][i - 1 + |pat|..], pat, rep)
    ensures ReplaceAll(s, pat, rep) == s[..i] + rep + ReplaceAll(s[i + |pat|..], pat, rep)
  {
    var t := s[1..];
    assert s == [s[0]] + t;
    assert t[i - 1 + |pat|..] == s[i + |pat|..];
    assert s[..i] == [s[0]] + t[..i - 1];
    ReplaceSkip(s[0], t, pat, rep, t[..i - 1], s[i + |pat|..]);
  }

  /** Up to the first occurrence of `pat` the text is copied unchanged; that
      occurrence becomes `rep` and the rest is replaced in turn. */
  lemma {:induction false} ReplaceUpToFirst(s: string, pat: string, rep: string, i: nat)
    requires |pat| > 0 && OccursAt(s, pat, i)
    requires forall j :: 0 <= j < i ==> !OccursAt(s, pat, j)
    ensures ReplaceAll(s, pat, rep) == s[..i] + rep + ReplaceAll(s[i + |pat|..], pat, rep)
    decreases i
  {
    if i == 0 {
      ReplaceAtStart(s, pat, rep);
    } else {
      assert !OccursAt(s, pat, 0);
      OccursInTail(s, pat, i - 1);
      NoEarlierInTail(s, pat, i);
      ReplaceUpToFirst(s[1..], pat, rep, i - 1);
      ReplaceShiftBack(s, pat, rep, i);
    }
  }

  /** `replace` is `split` followed by `join` with the replacement: the text
      between occurrences is kept and every occurrence becomes `rep`. */
  lemma {:induction false} ReplaceIsJoinSplit(s: string, pat: string, rep: string)
    requires |pat| > 0
    ensures ReplaceAll(s, pat, rep) == Join(Split(s, pat), rep)
    decreases |s|
  {
    match IndexOf(s, pat)
    case None =>
      ReplaceAbsent(s, pat, rep);
    case Some(i) =>
      var rest := s[i + |pat|..];
      ReplaceUpToFirst(s, pat, rep, i);
      ReplaceIsJoinSplit(rest, pat, rep);
      SplitFirst(s, pat);
      JoinCons(s[..i], Split(rest, pat), rep);
  }

  /** `t` ends with `c` and holds no other `c`. */
  predicate EndsWithOnly(t: string, c: char) {
    |t| > 0 && t[|t| - 1] == c && forall i :: 0 <= i < |t| - 1 ==> t[i] != c
  }

  /** Replacing a pattern by text that both lack `c` keeps "ends with the only `c`". */
  lemma {:induction false} ReplaceKeepsEndsWithOnly(s: string, pat: string, rep: string, c: char)
    requires |pat| > 0 && c !in pat && c !in rep
    requires EndsWithOnly(s, c)
    ensures EndsWithOnly(ReplaceAll(s, pat, rep), c)
    decreases |s|
  {
    if OccursAt(s, pat, 0) {
      var rest := s[|pat|..];
      assert s[|pat| - 1] == pat[|pat| - 1];
      assert |rest| > 0;
      assert EndsWithOnly(rest, c);
      ReplaceKeepsEndsWithOnly(rest, pat, rep, c);
    } else if |s| > 1 {
      var rest := s[1..];
      assert EndsWithOnly(rest, c);
      ReplaceKeepsEndsWithOnly(rest, pat, rep, c);
    }
  }

  /** `char::is_whitespace`: the Unicode `White_Space` property. */
  predicate IsWhitespace(c: char) {
    var n := c as int;
    (9 <= n <= 13) || n == 32 || n == 0x85 || n == 0xA0 || n == 0x1680
    || (0x2000 <= n <= 0x200A) || n == 0x2028 || n == 0x2029 || n == 0x202F
    || n == 0x205F || n == 0x3000
  }

  /** Among ASCII characters, exactly space, tab, line feed, vertical tab,
      form feed and carriage return are whitespace; digits, signs and
      brackets are not. */
  lemma AsciiWhitespace(c: char)
    requires c as int < 128
    ensures IsWhitespace(c) <==> c == ' ' || '\t' <= c <= '\r'
  {
  }

  predicate AllWhitespace(s: string) {
    forall i :: 0 <= i < |s| ==> IsWhitespace(s[i])
  }

  /** How many whitespace characters `s` starts with. */
  function LeadingWhitespace(s: string): (n: nat)
    ensures n <= |s| && AllWhitespace(s[..n])
    ensures n < |s| ==> !IsWhitespace(s[n])
  {
    if |s| > 0 && IsWhitespace(s[0]) then 1 + LeadingWhitespace(s[1..]) else 0
  }

  /** How many whitespace characters `s` ends with. */
  function TrailingWhitespace(s: string): (n: nat)
    ensures n <= |s| && AllWhitespace(s[|s| - n..])
    ensures n < |s| ==> !IsWhitespace(s[|s| - n - 1])
  {
    if |s| > 0 && IsWhitespace(s[|s| - 1]) then
      var init := s[..|s| - 1];
      var m := TrailingWhitespace(init);
      assert s[|s| - (m + 1)..] == init[|init| - m..] + [s[|s| - 1]];
      assert m < |init| ==> s[|s| - (m + 1) - 1] == init[|init| - m - 1];
      m + 1
    else
      assert s[|s|..] == [];
      0
  }

  /** `r` is the slice of `s` at `lo` with only whitespace around it. */
  predicate TrimmedAt(s: string, r: string, lo: int) {
    0 <= lo && lo + |r| <= |s| && r == s[lo..lo + |r|]
    && AllWhitespace(s[..lo]) && AllWhitespace(s[lo + |r|..])
  }

  /** `str::trim`: a slice of `s` with only whitespace cut off either end. */
  function Trim(s: string): (r: string)
    ensures exists lo :: TrimmedAt(s, r, lo)
    ensures r != [] ==> !IsWhitespace(r[0]) && !IsWhitespace(r[|r| - 1])
  {
    var lo := LeadingWhitespace(s);
    if lo == |s| then
      assert s[..lo] == s && s[lo..] == [];
      assert TrimmedAt(s, [], lo);
      []
    else
      var hi := |s| - TrailingWhitespace(s);
      forall j | hi <= j < |s| ensures IsWhitespace(s[j]) {
        assert s[hi..][j - hi] == s[j];
      }
      assert TrimmedAt(s, s[lo..hi], lo);
      s[lo..hi]
  }

  /** `char::to_lowercase` restricted to ASCII letters. */
  function LowerChar(c: char): char {
    if 'A' <= c <= 'Z' then (c as int + 32) as char else c
  }

  /** `str::to_lowercase`, ASCII letters only: no upper-case ASCII letter is
      left, and every other character is kept. */
  function ToLower(s: string): (r: string)
    ensures |r| == |s|
    ensures forall i :: 0 <= i < |s| ==> !('A' <= r[i] <= 'Z')
    ensures forall i :: 0 <= i < |s| ==>
              r[i] == s[i] || ('A' <= s[i] <= 'Z' && r[i] as int == s[i] as int + 32)
  {
    seq(|s|, i requires 0 <= i < |s| => LowerChar(s[i]))
  }
}
