/** The console-visibility flag (`ShouldShow` in Backup/Program.cs:111-126):
    the lines of `ConsoleMetaData.txt` are read in order, each lowercased,
    and the first that is `visible:` followed by `true` or `false`, with
    optional white space around the word, decides; without one the
    console stays hidden. */
module Visibility {
  import opened FileSystem

  /** Lowercasing of one character (ASCII letters only). */
  function Lower(c: char): char
  {
    if 'A' <= c <= 'Z' then (c as int - 'A' as int + 'a' as int) as char else c
  }

  function LowerLine(s: string): (t: string)
    ensures |t| == |s| && forall i :: 0 <= i < |s| ==> t[i] == Lower(s[i])
  {
    if s == [] then [] else [Lower(s[0])] + LowerLine(s[1..])
  }

  /** `\s`: space, tab, line feed, vertical tab, form feed, carriage return. */
  predicate IsSpace(c: char)
  {
    c == ' ' || c == '\t' || c == '\n' || c == '\r' || c as int == 11 || c as int == 12
  }

  predicate AllSpace(s: string)
  {
    forall i :: 0 <= i < |s| ==> IsSpace(s[i])
  }

  /** `s` with its leading white space removed. */
  function TrimStart(s: string): (t: string)
    ensures |t| <= |s|
    ensures t == [] || !IsSpace(t[0])
  {
    if s != [] && IsSpace(s[0]) then TrimStart(s[1..]) else s
  }

  /** What `TrimStart` removes is white space, and what it keeps is the
      rest of `s`. */
  lemma {:induction false} TrimStartSplits(s: string)
    ensures s[..|s| - |TrimStart(s)|] + TrimStart(s) == s
    ensures AllSpace(s[..|s| - |TrimStart(s)|])
    decreases |s|
  {
    if s != [] && IsSpace(s[0]) {
      TrimStartSplits(s[1..]);
      var t := TrimStart(s[1..]);
      assert s[..|s| - |t|] == [s[0]] + s[1..][..|s| - 1 - |t|];
    }
  }

  /** `s` with its trailing white space removed. */
  function TrimEnd(s: string): (t: string)
    ensures |t| <= |s|
    ensures t == [] || !IsSpace(t[|t| - 1])
  {
    if s != [] && IsSpace(s[|s| - 1]) then TrimEnd(s[..|s| - 1]) else s
  }

  /** What `TrimEnd` keeps is the start of `s`, and what it removes is
      white space. */
  lemma {:induction false} TrimEndSplits(s: string)
    ensures TrimEnd(s) + s[|TrimEnd(s)|..] == s
    ensures AllSpace(s[|TrimEnd(s)|..])
    decreases |s|
  {
    if s != [] && IsSpace(s[|s| - 1]) {
      var init := s[..|s| - 1];
      TrimEndSplits(init);
      var t := TrimEnd(init);
      assert s[|t|..] == init[|t|..] + [s[|s| - 1]];
    }
  }

  /** The language of `^visible:\s*(true|false)\s*$` with `word` as the
      captured group. */
  ghost predicate Matches(line: string, word: string)
  {
    (word == "true" || word == "false") &&
    exists pre: string, post: string {:trigger "visible:" + pre + word + post} ::
      AllSpace(pre) && AllSpace(post) && line == "visible:" + pre + word + post
  }

  /** The regular expression applied to one lowercased line: `Some(b)`
      exactly when it matches, `b` telling whether the group is `true`. */
  function MatchVisible(line: string): (r: Option<bool>)
    ensures r.Some? ==> Matches(line, if r.value then "true" else "false")
    ensures Matches(line, "true") ==> r == Some(true)
    ensures Matches(line, "false") ==> r == Some(false)
  {
    MatchTrims(line, "true");
    MatchTrims(line, "false");
    if |line| >= 8 && line[..8] == "visible:" then
      var word := TrimEnd(TrimStart(line[8..]));
      if word == "true" then VerdictMatches(line, word); Some(true)
      else if word == "false" then VerdictMatches(line, word); Some(false)
      else None
    else None
  }

  /** Trimming both ends leaves the middle of `s` between two runs of
      white space. */
  lemma TrimSplits(s: string) returns (pre: string, post: string)
    ensures AllSpace(pre) && AllSpace(post)
    ensures s == pre + TrimEnd(TrimStart(s)) + post
  {
    var t := TrimStart(s);
    TrimStartSplits(s);
    TrimEndSplits(t);
    pre, post := s[..|s| - |t|], t[|TrimEnd(t)|..];
  }

  /** A line starting `visible:` whose rest, trimmed, is the word matches
      with that word as the group. */
  lemma VerdictMatches(line: string, word: string)
    requires |line| >= 8 && line[..8] == "visible:" && (word == "true" || word == "false")
    requires TrimEnd(TrimStart(line[8..])) == word
    ensures Matches(line, word)
  {
    var pre, post := TrimSplits(line[8..]);
    assert line[8..] == pre + word + post;
    assert line == "visible:" + pre + word + post by {
      assert line == line[..8] + line[8..];
    }
  }

  lemma {:induction false} TrimStartSpaces(pre: string, s: string)
    requires AllSpace(pre) && (s == [] || !IsSpace(s[0]))
    ensures TrimStart(pre + s) == s
    decreases |pre|
  {
    if pre != [] {
      assert (pre + s)[1..] == pre[1..] + s;
      TrimStartSpaces(pre[1..], s);
    } else {
      assert pre + s == s;
    }
  }

  lemma {:induction false} TrimEndSpaces(s: string, post: string)
    requires AllSpace(post) && (s == [] || !IsSpace(s[|s| - 1]))
    ensures TrimEnd(s + post) == s
    decreases |post|
  {
    if post != [] {
      var shorter := post[..|post| - 1];
      assert (s + post)[..|s + post| - 1] == s + shorter;
      TrimEndSpaces(s, shorter);
    } else {
      assert s + post == s;
    }
  }

  /** A match of the expression starts `visible:`, and its rest, trimmed,
      is the group. */
  lemma MatchTrims(line: string, word: string)
    ensures Matches(line, word) ==>
      |line| >= 8 && line[..8] == "visible:" && TrimEnd(TrimStart(line[8..])) == word
  {
    if Matches(line, word) {
      var pre: string, post: string :| AllSpace(pre) && AllSpace(post) && line == "visible:" + pre + word + post;
      assert line[..8] == "visible:";
      assert line[8..] == pre + (word + post);
      TrimStartSpaces(pre, word + post);
      TrimEndSpaces(word, post);
    }
  }

  /** The first line, once lowercased, that the expression matches. */
  function FirstMatch(lines: seq<string>): (i: nat)
    ensures i <= |lines|
    ensures forall j :: 0 <= j < i ==> MatchVisible(LowerLine(lines[j])).None?
    ensures i < |lines| ==> MatchVisible(LowerLine(lines[i])).Some?
  {
    if lines == [] || MatchVisible(LowerLine(lines[0])).Some? then 0
    else 1 + FirstMatch(lines[1..])
  }

  /** `ShouldShow`: reading stops at the first matching line, whose group
      decides; the default is false. */
  function ShouldShow(lines: seq<string>): (shown: bool)
    ensures shown <==>
      FirstMatch(lines) < |lines| && MatchVisible(LowerLine(lines[FirstMatch(lines)])) == Some(true)
  {
    if lines == [] then false
    else match MatchVisible(LowerLine(lines[0]))
      case Some(b) => b
      case None => ShouldShow(lines[1..])
  }

  /** A shown console comes from a line matching with `true` before which
      no line matches. */
  lemma ShownByFirstTrue(lines: seq<string>) returns (i: nat)
    requires ShouldShow(lines)
    ensures i < |lines| && Matches(LowerLine(lines[i]), "true")
    ensures forall j :: 0 <= j < i ==> !Matches(LowerLine(lines[j]), "true") && !Matches(LowerLine(lines[j]), "false")
  {
    i := FirstMatch(lines);
  }

  /** A line the matcher reads as `true`, with none before it read at
      all, shows the console. */
  lemma {:induction false} FirstVerdictShows(lines: seq<string>, i: nat)
    requires i < |lines| && MatchVisible(LowerLine(lines[i])) == Some(true)
    requires forall j :: 0 <= j < i ==> MatchVisible(LowerLine(lines[j])).None?
    ensures ShouldShow(lines)
    decreases i
  {
    if i > 0 {
      assert lines[1..][i - 1] == lines[i];
      FirstVerdictShows(lines[1..], i - 1);
    }
  }

  /** A line matching with `true`, with no matching line before it, shows
      the console. */
  lemma FirstTrueShows(lines: seq<string>, i: nat)
    requires i < |lines| && Matches(LowerLine(lines[i]), "true")
    requires forall j :: 0 <= j < i ==> !Matches(LowerLine(lines[j]), "true") && !Matches(LowerLine(lines[j]), "false")
    ensures ShouldShow(lines)
  {
    forall j | 0 <= j < i
      ensures MatchVisible(LowerLine(lines[j])).None?
    {
      NoVerdict(LowerLine(lines[j]));
    }
    FirstVerdictShows(lines, i);
  }

  /** A line the expression does not match gets no verdict. */
  lemma NoVerdict(line: string)
    requires !Matches(line, "true") && !Matches(line, "false")
    ensures MatchVisible(line).None?
  {
  }

  /** Line `i` is the first the expression matches, and it matches with
      `true`. */
  ghost predicate FirstMatchIsTrue(lines: seq<string>, i: nat)
  {
    i < |lines| && Matches(LowerLine(lines[i]), "true") &&
    forall j :: 0 <= j < i ==> !Matches(LowerLine(lines[j]), "true") && !Matches(LowerLine(lines[j]), "false")
  }

  /** In the terms of the expression: shown exactly when some line matches
      with `true` and no earlier line matches at all. */
  lemma ShouldShowByExpression(lines: seq<string>)
    ensures ShouldShow(lines) <==> exists i :: FirstMatchIsTrue(lines, i)
  {
    if ShouldShow(lines) {
      var i := ShownByFirstTrue(lines);
      assert FirstMatchIsTrue(lines, i);
    }
    if i :| FirstMatchIsTrue(lines, i) {
      FirstTrueShows(lines, i);
    }
  }
}
