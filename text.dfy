/** The handful of JavaScript string operations the handlers use: `indexOf`, `split` on one
    character and `join`, and `replace` with a string pattern, once or globally, including the
    `$` patterns of the replacement text. All of them work on the characters of the string.
    The strings they meet (URLs, file names and the mail template with its placeholders)
    compare the same whether they are read in UTF-16 code units or in characters, because
    every character they look for (`/`, `.`, `{`, `$`) is a single code unit. */
module Text {
  import opened Common

  /** `pat` occurs in `s` at position `i`. */
  predicate MatchAt(s: string, pat: string, i: nat) {
    i + |pat| <= |s| && s[i..i + |pat|] == pat
  }

  /** The first position at or after `from` where `pat` occurs in `s`. */
  function FindFrom(s: string, pat: string, from: nat): (r: Option<nat>)
    requires from <= |s|
    ensures r.Some? ==> from <= r.value <= |s| && MatchAt(s, pat, r.value)
    ensures r.Some? ==> forall k :: from <= k < r.value ==> !MatchAt(s, pat, k)
    ensures r.None? ==> forall k :: from <= k <= |s| ==> !MatchAt(s, pat, k)
    decreases |s| - from
  {
    if MatchAt(s, pat, from) then Some(from)
    else if from == |s| then None
    else FindFrom(s, pat, from + 1)
  }

  /** `s.indexOf(pat)`, with `None` for -1. */
  function Find(s: string, pat: string): (r: Option<nat>)
    ensures r.Some? ==> r.value <= |s| && MatchAt(s, pat, r.value)
    ensures r.Some? ==> forall k :: 0 <= k < r.value ==> !MatchAt(s, pat, k)
    ensures r.None? ==> forall k :: 0 <= k <= |s| ==> !MatchAt(s, pat, k)
  {
    FindFrom(s, pat, 0)
  }

  /** The replacement text of one match, with its `$` patterns expanded: `$$` is a dollar
      sign, `$&` the matched text, `` $` `` the text before the match and `$'` the text after
      it. A string pattern has no capture groups, so `$1` or `$<` and every other `$` stay
      as they are. */
  function Expand(rep: string, matched: string, before: string, after: string): string
    decreases |rep|
  {
    if |rep| >= 2 && rep[0] == '$' && rep[1] == '$' then "$" + Expand(rep[2..], matched, before, after)
    else if |rep| >= 2 && rep[0] == '$' && rep[1] == '&' then matched + Expand(rep[2..], matched, before, after)
    else if |rep| >= 2 && rep[0] == '$' && rep[1] == '`' then before + Expand(rep[2..], matched, before, after)
    else if |rep| >= 2 && rep[0] == '$' && rep[1] == '\'' then after + Expand(rep[2..], matched, before, after)
    else if rep == [] then []
    else [rep[0]] + Expand(rep[1..], matched, before, after)
  }

  predicate NoChar(s: string, c: char) {
    forall k :: 0 <= k < |s| ==> s[k] != c
  }

  lemma NoCharAppend(a: string, b: string, c: char)
    requires NoChar(a, c) && NoChar(b, c)
    ensures NoChar(a + b, c)
  {
    forall k | 0 <= k < |a + b| ensures (a + b)[k] != c {
      if k >= |a| { assert (a + b)[k] == b[k - |a|]; }
    }
  }

  /** A replacement text without a dollar sign is inserted as it is. */
  lemma {:induction false} ExpandLiteral(rep: string, matched: string, before: string, after: string)
    requires NoChar(rep, '$')
    ensures Expand(rep, matched, before, after) == rep
    decreases |rep|
  {
    if rep != [] {
      ExpandLiteral(rep[1..], matched, before, after);
      assert rep == [rep[0]] + rep[1..];
    }
  }

  /** `s.replace(pat, rep)` with a string `pat`: the first occurrence only. */
  function ReplaceFirst(s: string, pat: string, rep: string): string {
    match Find(s, pat)
    case None => s
    case Some(i) => s[..i] + Expand(rep, pat, s[..i], s[i + |pat|..]) + s[i + |pat|..]
  }

  /** `s.replace(/pat/g, rep)` from position `from` on: every occurrence, left to right and
      not overlapping; the `$` patterns of each replacement see the original string. */
  function ReplaceAllFrom(s: string, pat: string, rep: string, from: nat): string
    requires |pat| >= 1 && from <= |s|
    decreases |s| - from
  {
    var t := s[from..];
    match Find(t, pat)
    case None => t
    case Some(i) =>
      assert MatchAt(t, pat, i);
      t[..i] + Expand(rep, pat, s[..from + i], s[from + i + |pat|..]) + ReplaceAllFrom(s, pat, rep, from + i + |pat|)
  }

  function ReplaceAll(s: string, pat: string, rep: string): string
    requires |pat| >= 1
  {
    ReplaceAllFrom(s, pat, rep, 0)
  }

  /** Replacing every occurrence by a fixed text, stated on the rest of the string alone. */
  function Substitute(t: string, pat: string, rep: string): string
    requires |pat| >= 1
    decreases |t|
  {
    match Find(t, pat)
    case None => t
    case Some(i) => t[..i] + rep + Substitute(t[i + |pat|..], pat, rep)
  }

  /** With a dollar-free replacement the global replace is the plain substitution. */
  lemma {:induction false} ReplaceAllLiteral(s: string, pat: string, rep: string, from: nat)
    requires |pat| >= 1 && from <= |s| && NoChar(rep, '$')
    ensures ReplaceAllFrom(s, pat, rep, from) == Substitute(s[from..], pat, rep)
    decreases |s| - from
  {
    var t := s[from..];
    match Find(t, pat)
    case None =>
    case Some(i) =>
      assert MatchAt(t, pat, i);
      var j := from + i + |pat|;
      assert t[i + |pat|..] == s[j..];
      ExpandLiteral(rep, pat, s[..from + i], s[j..]);
      ReplaceAllLiteral(s, pat, rep, j);
      assert ReplaceAllFrom(s, pat, rep, from) == t[..i] + rep + ReplaceAllFrom(s, pat, rep, j);
      assert Substitute(t, pat, rep) == t[..i] + rep + Substitute(s[j..], pat, rep);
  }

  /** A text without `pat[0]` cannot hold an occurrence, nor start one. */
  lemma FindAfterFree(a: string, pat: string, rest: string)
    requires |pat| >= 1 && NoChar(a, pat[0])
    ensures Find(a + pat + rest, pat) == Some(|a|)
  {
    var s := a + pat + rest;
    assert s[|a|..|a| + |pat|] == pat;
    assert MatchAt(s, pat, |a|);
    forall k | 0 <= k < |a| && k + |pat| <= |s|
      ensures s[k..k + |pat|][0] == s[k]
    {
    }
  }

  lemma NoMatchConcat(a: string, pat: string, rest: string)
    requires |pat| >= 1 && NoChar(a, pat[0]) && Find(rest, pat).None?
    ensures Find(a + rest, pat).None?
  {
    var s := a + rest;
    forall k | 0 <= k <= |s|
      ensures !MatchAt(s, pat, k)
    {
      if k < |a| && k + |pat| <= |s| {
        assert s[k..k + |pat|][0] == s[k];
      } else if k >= |a| && k + |pat| <= |s| {
        assert s[k..k + |pat|] == rest[k - |a|..k - |a| + |pat|];
        assert !MatchAt(rest, pat, k - |a|);
      }
    }
  }

  /** A first replacement lands on the first occurrence: here the one after a text that
      cannot start one. */
  lemma ReplaceFirstAt(a: string, pat: string, rest: string, rep: string)
    requires |pat| >= 1 && NoChar(a, pat[0]) && NoChar(rep, '$')
    ensures ReplaceFirst(a + pat + rest, pat, rep) == a + rep + rest
  {
    var s := a + pat + rest;
    FindAfterFree(a, pat, rest);
    assert s[..|a|] == a;
    assert s[|a| + |pat|..] == rest;
    ExpandLiteral(rep, pat, a, rest);
  }

  /** JavaScript's `parts.join(sep)`. */
  function Join(parts: seq<string>, sep: string): string
    requires |parts| >= 1
  {
    if |parts| == 1 then parts[0] else parts[0] + sep + Join(parts[1..], sep)
  }

  lemma {:induction false} JoinNoChar(parts: seq<string>, sep: string, c: char)
    requires |parts| >= 1 && NoChar(sep, c)
    requires forall k :: 0 <= k < |parts| ==> NoChar(parts[k], c)
    ensures NoChar(Join(parts, sep), c)
  {
    if |parts| > 1 {
      JoinNoChar(parts[1..], sep, c);
    }
  }

  /** Substituting in pieces joined by the pattern puts the replacement at every joint. */
  lemma {:induction false} SubstituteJoin(parts: seq<string>, pat: string, rep: string, tail: string)
    requires |parts| >= 1 && |pat| >= 1 && Find(tail, pat).None?
    requires forall k :: 0 <= k < |parts| ==> NoChar(parts[k], pat[0])
    ensures Substitute(Join(parts, pat) + tail, pat, rep) == Join(parts, rep) + tail
  {
    if |parts| == 1 {
      NoMatchConcat(parts[0], pat, tail);
    } else {
      var rest := Join(parts[1..], pat) + tail;
      assert Join(parts, pat) + tail == parts[0] + pat + rest;
      FindAfterFree(parts[0], pat, rest);
      var s := parts[0] + pat + rest;
      assert s[..|parts[0]|] == parts[0];
      assert s[|parts[0]| + |pat|..] == rest;
      SubstituteJoin(parts[1..], pat, rep, tail);
    }
  }

  /** The first position of `c` in `s`. */
  function CharIndex(s: string, c: char): (r: Option<nat>)
    ensures r.Some? ==> r.value < |s| && s[r.value] == c && NoChar(s[..r.value], c)
    ensures r.None? ==> NoChar(s, c)
  {
    if s == [] then None
    else if s[0] == c then Some(0)
    else
      var r := CharIndex(s[1..], c);
      if r.None? then None
      else
        assert s[..r.value + 1] == [s[0]] + s[1..][..r.value];
        Some(r.value + 1)
  }

  /** `s.split(c)`: the pieces between the occurrences of `c`, always at least one. */
  function Split(s: string, c: char): (r: seq<string>)
    ensures |r| >= 1
    ensures forall k :: 0 <= k < |r| ==> NoChar(r[k], c)
    decreases |s|
  {
    match CharIndex(s, c)
    case None => [s]
    case Some(i) => [s[..i]] + Split(s[i + 1..], c)
  }

  /** Splitting and joining again gives the string back. */
  lemma {:induction false} JoinSplit(s: string, c: char)
    ensures Join(Split(s, c), [c]) == s
    decreases |s|
  {
    match CharIndex(s, c)
    case None =>
    case Some(i) =>
      var rest := Split(s[i + 1..], c);
      JoinSplit(s[i + 1..], c);
      assert Split(s, c) == [s[..i]] + rest;
      assert ([s[..i]] + rest)[1..] == rest;
      assert Join(Split(s, c), [c]) == s[..i] + [c] + Join(rest, [c]);
      assert s == s[..i] + [c] + s[i + 1..];
  }

  lemma {:induction false} CharIndexAfterFree(a: string, c: char, rest: string)
    requires NoChar(a, c)
    ensures CharIndex(a + [c] + rest, c) == Some(|a|)
  {
    if a != [] {
      CharIndexAfterFree(a[1..], c, rest);
      assert (a + [c] + rest)[1..] == a[1..] + [c] + rest;
    }
  }

  /** Joining pieces that do not hold the separator and splitting again gives the pieces. */
  lemma {:induction false} SplitJoin(parts: seq<string>, c: char)
    requires |parts| >= 1
    requires forall k :: 0 <= k < |parts| ==> NoChar(parts[k], c)
    ensures Split(Join(parts, [c]), c) == parts
  {
    if |parts| > 1 {
      var rest := Join(parts[1..], [c]);
      var s := parts[0] + [c] + rest;
      assert Join(parts, [c]) == s;
      CharIndexAfterFree(parts[0], c, rest);
      assert s[..|parts[0]|] == parts[0];
      assert s[|parts[0]| + 1..] == rest;
      SplitJoin(parts[1..], c);
    }
  }
}
