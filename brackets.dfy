/**
 * The two regular expressions of Fire, written out as scans. Both `\[(.*?)\]` (title
 * extraction) and `\[.*?\]` (message cleaning) match a `[`, then as few characters as
 * possible, then a `]`; RE2's `.` matches every character except a newline. So a match
 * starting at a `[` ends at the first `]` after it, provided no newline comes first.
 */
module Brackets {
  import opened Wrappers

  /** No character of s[lo..hi] ends or blocks a bracket group. */
  ghost predicate Plain(s: string, lo: nat, hi: nat)
    requires lo <= hi <= |s|
  {
    forall m :: lo <= m < hi ==> s[m] != ']' && s[m] != '\n'
  }

  /** s[i..j+1] is a match of `\[.*?\]`: the group opened at i closes at j. */
  ghost predicate IsMatch(s: string, i: nat, j: nat)
  {
    i < j < |s| && s[i] == '[' && s[j] == ']' && Plain(s, i + 1, j)
  }

  /** A match that starts at i ends at one place only: the lazy `.*?` takes the nearest `]`. */
  lemma MatchEndUnique(s: string, i: nat, j: nat, j': nat)
    requires IsMatch(s, i, j) && IsMatch(s, i, j')
    ensures j == j'
  {
  }

  /**
   * Where the group whose content starts at k closes: the first `]` from k on, unless a
   * newline comes first or the text ends.
   */
  function CloseFrom(s: string, k: nat): (r: Option<nat>)
    requires k <= |s|
    decreases |s| - k
    ensures r.Some? ==> k <= r.value < |s|
  {
    if k == |s| then None
    else if s[k] == ']' then Some(k)
    else if s[k] == '\n' then None
    else CloseFrom(s, k + 1)
  }

  /**
   * CloseFrom finds the nearest `]` with no newline before it, and finds none exactly when
   * every `]` from k on has a newline before it.
   */
  lemma {:induction false} CloseFromIsNearest(s: string, k: nat)
    requires k <= |s|
    decreases |s| - k
    ensures var r := CloseFrom(s, k);
            (r.Some? ==> s[r.value] == ']' && Plain(s, k, r.value))
            && (r.None? ==> forall j :: k <= j < |s| && s[j] == ']' ==> !Plain(s, k, j))
  {
    if k < |s| && s[k] != ']' && s[k] != '\n' {
      CloseFromIsNearest(s, k + 1);
    }
  }

  /** The leftmost match that starts at p or later, as (opening, closing) index. */
  function MatchFrom(s: string, p: nat): (r: Option<(nat, nat)>)
    requires p <= |s|
    decreases |s| - p
    ensures r.Some? ==> p <= r.value.0 < r.value.1 < |s|
  {
    if p == |s| then None
    else if s[p] == '[' && CloseFrom(s, p + 1).Some? then Some((p, CloseFrom(s, p + 1).value))
    else MatchFrom(s, p + 1)
  }

  /** MatchFrom finds a match, no match starts to its left, and it finds one whenever one exists. */
  lemma {:induction false} MatchFromIsLeftmost(s: string, p: nat)
    requires p <= |s|
    decreases |s| - p
    ensures MatchFrom(s, p).Some? ==> IsMatch(s, MatchFrom(s, p).value.0, MatchFrom(s, p).value.1)
    ensures MatchFrom(s, p).Some? ==> forall i, j :: p <= i < MatchFrom(s, p).value.0 ==> !IsMatch(s, i, j)
    ensures MatchFrom(s, p).None? ==> forall i, j :: p <= i ==> !IsMatch(s, i, j)
  {
    if p < |s| {
      CloseFromIsNearest(s, p + 1);
      if !(s[p] == '[' && CloseFrom(s, p + 1).Some?) {
        MatchFromIsLeftmost(s, p + 1);
      }
    }
  }

  /** `FindStringSubmatch` of `\[(.*?)\]`: the text of the first group of the leftmost match. */
  function Submatch(s: string): Option<string>
  {
    match MatchFrom(s, 0)
    case None => None
    case Some((i, j)) => Some(s[i + 1..j])
  }

  /**
   * The title Fire extracts: the submatch, or "" when there is no match. A title holds no
   * `]` and no newline, and a non-empty one is shorter than the message by its two brackets
   * at least.
   */
  function Title(s: string): (r: string)
    ensures ']' !in r && '\n' !in r
    ensures r != "" ==> |r| + 2 <= |s|
  {
    MatchFromIsLeftmost(s, 0);
    Submatch(s).GetOr("")
  }

  /** `ReplaceAllString(s[p..], "")` of `\[.*?\]`: s from p on with every match deleted. */
  function CleanFrom(s: string, p: nat): (r: string)
    requires p <= |s|
    decreases |s| - p
    ensures |r| <= |s| - p
  {
    if p == |s| then []
    else if s[p] == '[' && CloseFrom(s, p + 1).Some? then CleanFrom(s, CloseFrom(s, p + 1).value + 1)
    else [s[p]] + CleanFrom(s, p + 1)
  }

  /** The message Fire sends: the entry's message with every bracket group removed. */
  function Clean(s: string): (r: string)
    ensures |r| <= |s|
  {
    CleanFrom(s, 0)
  }

  /**
   * Cleaning s from p on deletes the leftmost match, keeps everything before it and goes
   * on after it; when nothing matches, it keeps the text as it is.
   */
  ghost predicate DeletesLeftmostMatch(s: string, p: nat)
    requires p <= |s|
  {
    match MatchFrom(s, p)
    case None => CleanFrom(s, p) == s[p..]
    case Some(m) => CleanFrom(s, p) == s[p..m.0] + CleanFrom(s, m.1 + 1)
  }

  /** ReplaceAll's step at p, when a match starts at p: that match is deleted. */
  lemma CleanFromAtMatch(s: string, p: nat)
    requires p < |s| && s[p] == '[' && CloseFrom(s, p + 1).Some?
    ensures DeletesLeftmostMatch(s, p)
  {
    assert MatchFrom(s, p) == Some((p, CloseFrom(s, p + 1).value));
    assert s[p..p] == [];
  }

  /** A character that starts no match is kept, and the search for a match goes on after it. */
  lemma CleanFromKeepsChar(s: string, p: nat)
    requires p < |s| && !(s[p] == '[' && CloseFrom(s, p + 1).Some?)
    ensures MatchFrom(s, p) == MatchFrom(s, p + 1)
    ensures CleanFrom(s, p) == [s[p]] + CleanFrom(s, p + 1)
  {
  }

  lemma ConsDrop<T>(s: seq<T>, p: nat)
    requires p < |s|
    ensures [s[p]] + s[p + 1..] == s[p..]
  {
  }

  lemma ConsSlice<T>(s: seq<T>, p: nat, i: nat, c: seq<T>)
    requires p < i <= |s|
    ensures [s[p]] + (s[p + 1..i] + c) == s[p..i] + c
  {
    assert [s[p]] + s[p + 1..i] == s[p..i];
  }

  /** ReplaceAll's step at p, when no match starts at p: the character is kept. */
  lemma CleanFromPastChar(s: string, p: nat)
    requires p < |s| && !(s[p] == '[' && CloseFrom(s, p + 1).Some?)
    requires DeletesLeftmostMatch(s, p + 1)
    ensures DeletesLeftmostMatch(s, p)
  {
    CleanFromKeepsChar(s, p);
    match MatchFrom(s, p + 1)
    case None =>
      ConsDrop(s, p);
    case Some(m) =>
      ConsSlice(s, p, m.0, CleanFrom(s, m.1 + 1));
  }

  /**
   * ReplaceAll deletes the leftmost match, keeps everything before it and goes on after
   * it; when nothing matches, the text is kept as it is.
   */
  lemma {:induction false} CleanFromDeletesLeftmostMatch(s: string, p: nat)
    requires p <= |s|
    decreases |s| - p
    ensures DeletesLeftmostMatch(s, p)
  {
    if p == |s| {
    } else if s[p] == '[' && CloseFrom(s, p + 1).Some? {
      CleanFromAtMatch(s, p);
    } else {
      CleanFromDeletesLeftmostMatch(s, p + 1);
      CleanFromPastChar(s, p);
    }
  }

  /** The title is the inside of the leftmost match, and "" exactly when that inside is empty or nothing matches. */
  lemma TitleIsLeftmostGroup(s: string)
    ensures MatchFrom(s, 0).None? ==> Title(s) == "" && Clean(s) == s
    ensures MatchFrom(s, 0).Some? ==>
              Title(s) == s[MatchFrom(s, 0).value.0 + 1..MatchFrom(s, 0).value.1]
              && Clean(s) == s[..MatchFrom(s, 0).value.0] + CleanFrom(s, MatchFrom(s, 0).value.1 + 1)
  {
    CleanFromDeletesLeftmostMatch(s, 0);
  }

  /** Putting one character in front shifts where a group closes by one. */
  lemma {:induction false} CloseFromShift(c: char, t: string, m: nat)
    requires m <= |t|
    decreases |t| - m
    ensures CloseFrom([c] + t, m + 1).None? == CloseFrom(t, m).None?
  {
    assert ([c] + t)[m + 1..] == t[m..];
    if m < |t| {
      assert ([c] + t)[m + 1] == t[m];
      CloseFromShift(c, t, m + 1);
    }
  }

  /** Putting one character in front shifts where the leftmost match is by one. */
  lemma {:induction false} MatchFromShift(c: char, t: string, m: nat)
    requires m <= |t|
    decreases |t| - m
    ensures MatchFrom([c] + t, m + 1).None? == MatchFrom(t, m).None?
  {
    if m < |t| {
      assert ([c] + t)[m + 1] == t[m];
      CloseFromShift(c, t, m + 1);
      MatchFromShift(c, t, m + 1);
    }
  }

  /** A `[` that is kept because it never closes still never closes once later groups are gone. */
  lemma {:induction false} CleanKeepsUnclosed(s: string, k: nat)
    requires k <= |s| && CloseFrom(s, k).None?
    decreases |s| - k
    ensures CloseFrom(CleanFrom(s, k), 0).None?
  {
    if k < |s| && s[k] != '\n' {
      CleanKeepsUnclosed(s, k + 1);
      CloseFromShift(s[k], CleanFrom(s, k + 1), 0);
    }
  }

  /** No bracket group survives cleaning. */
  lemma {:induction false} CleanFromLeavesNoMatch(s: string, p: nat)
    requires p <= |s|
    decreases |s| - p
    ensures MatchFrom(CleanFrom(s, p), 0).None?
  {
    if p == |s| {
    } else if s[p] == '[' && CloseFrom(s, p + 1).Some? {
      CleanFromLeavesNoMatch(s, CloseFrom(s, p + 1).value + 1);
    } else {
      var t := CleanFrom(s, p + 1);
      CleanFromLeavesNoMatch(s, p + 1);
      MatchFromShift(s[p], t, 0);
      if s[p] == '[' {
        CleanKeepsUnclosed(s, p + 1);
        CloseFromShift(s[p], t, 0);
      }
    }
  }

  /** Cleaning is idempotent, and a cleaned message has no title left in it. */
  lemma CleanIdempotent(s: string)
    ensures Clean(Clean(s)) == Clean(s)
    ensures Title(Clean(s)) == ""
  {
    CleanFromLeavesNoMatch(s, 0);
    CleanFromDeletesLeftmostMatch(Clean(s), 0);
  }

  /** Text with no `[` from p on holds no match there and is kept as it is. */
  lemma {:induction false} CleanFromWithoutOpen(s: string, p: nat)
    requires p <= |s| && '[' !in s[p..]
    decreases |s| - p
    ensures MatchFrom(s, p).None? && CleanFrom(s, p) == s[p..]
  {
    if p < |s| {
      ConsDrop(s, p);
      assert s[p] != '[' && '[' !in s[p + 1..];
      CleanFromWithoutOpen(s, p + 1);
      CleanFromKeepsChar(s, p);
    }
  }

  /** A message without a `[` keeps its text and yields no title. */
  lemma NoBracketKeepsText(s: string)
    requires '[' !in s
    ensures Title(s) == "" && Clean(s) == s
  {
    CleanFromWithoutOpen(s, 0);
  }

  /** "[ERR] disk full" gives the title "ERR" and the message " disk full": no trimming. */
  lemma TitleExample()
    ensures Title("[ERR] disk full") == "ERR"
    ensures Clean("[ERR] disk full") == " disk full"
  {
    var s := "[ERR] disk full";
    assert CloseFrom(s, 1) == Some(4);
    assert MatchFrom(s, 0) == Some((0, 4));
    assert s[1..4] == "ERR";
    assert Submatch(s) == Some("ERR");
    assert s[5..] == " disk full";
    CleanFromWithoutOpen(s, 5);
  }

  /** A newline inside the brackets stops the group: "[a\nb] c" is kept whole. */
  lemma NewlineExample()
    ensures Title("[a\nb] c") == ""
    ensures Clean("[a\nb] c") == "[a\nb] c"
  {
    var s := "[a\nb] c";
    assert CloseFrom(s, 1).None?;
    assert s[1..] == "a\nb] c";
    CleanFromWithoutOpen(s, 1);
    CleanFromKeepsChar(s, 0);
    ConsDrop(s, 0);
  }
}
