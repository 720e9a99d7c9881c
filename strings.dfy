/** The small pure helpers of Go's `strings` and `bufio` packages that the
    scanner relies on: `strings.Cut`, `strings.Trim` with the cutset
    "\n\r\t ", `strings.TrimSuffix` and the line splitting of
    `bufio.ScanLines`. Strings are sequences of characters, one character
    standing for one byte of a file. */
module Strings {

  /** strings.Cut(s, sep) for a one-character separator: the text before the
      first `sep`, the text after it, and whether `sep` occurs at all. */
  function Cut(s: string, sep: char): (r: (string, string, bool))
    ensures r.2 <==> sep in s
    ensures r.2 ==> s == r.0 + [sep] + r.1 && sep !in r.0
    ensures !r.2 ==> r.0 == s && r.1 == ""
  {
    if |s| == 0 then ("", "", false)
    else if s[0] == sep then ("", s[1..], true)
    else
      var (before, after, found) := Cut(s[1..], sep);
      ([s[0]] + before, after, found)
  }

  /** Cut undoes joining: a key without the separator, the separator and any
      value (which may itself contain the separator) are cut apart again. */
  lemma {:induction false} CutJoin(key: string, sep: char, value: string)
    requires sep !in key
    ensures Cut(key + [sep] + value, sep) == (key, value, true)
  {
    var s := key + [sep] + value;
    if |key| == 0 {
      assert s[0] == sep && s[1..] == value;
    } else {
      assert s[0] == key[0] && s[1..] == key[1..] + [sep] + value;
      CutJoin(key[1..], sep, value);
      assert [key[0]] + key[1..] == key;
    }
  }

  /** The cutset "\n\r\t " that the scanner trims from file contents. */
  predicate InCutset(c: char) {
    c == '\n' || c == '\r' || c == '\t' || c == ' '
  }

  /** strings.TrimLeft with the cutset: the longest suffix not starting with
      a cutset character. */
  function TrimLeft(s: string): (r: string)
    ensures |r| <= |s| && r == s[|s| - |r|..]
    ensures forall k :: 0 <= k < |s| - |r| ==> InCutset(s[k])
    ensures r == [] || !InCutset(r[0])
  {
    if |s| > 0 && InCutset(s[0]) then TrimLeft(s[1..]) else s
  }

  /** strings.TrimRight with the cutset: the longest prefix not ending with a
      cutset character. */
  function TrimRight(s: string): (r: string)
    ensures |r| <= |s| && r == s[..|r|]
    ensures forall k :: |r| <= k < |s| ==> InCutset(s[k])
    ensures r == [] || !InCutset(r[|r| - 1])
  {
    if |s| > 0 && InCutset(s[|s| - 1]) then TrimRight(s[..|s| - 1]) else s
  }

  /** A string that neither starts nor ends with a cutset character. */
  predicate IsTrimmed(s: string) {
    s == [] || (!InCutset(s[0]) && !InCutset(s[|s| - 1]))
  }

  /** Where the text kept by Trim starts: after the leading cutset run. */
  function TrimStart(s: string): (start: nat)
    ensures start <= |s|
    ensures forall k :: 0 <= k < start ==> InCutset(s[k])
  {
    |s| - |TrimLeft(s)|
  }

  /** strings.Trim(s, "\n\r\t "): `s` with every leading and trailing cutset
      character removed; the result is the slice of `s` starting at
      TrimStart(s), and everything outside that slice is cutset. */
  function Trim(s: string): (r: string)
    ensures |r| <= |s| && IsTrimmed(r)
    ensures TrimStart(s) + |r| <= |s| && r == s[TrimStart(s)..TrimStart(s) + |r|]
    ensures forall k :: TrimStart(s) + |r| <= k < |s| ==> InCutset(s[k])
  {
    var left := TrimLeft(s);
    var r := TrimRight(left);
    assert s[|s| - |left|..] == left;
    assert r != [] ==> r[0] == left[0];
    r
  }

  /** A string without leading or trailing cutset characters is left as it
      is by Trim. */
  lemma TrimOfTrimmed(s: string)
    requires IsTrimmed(s)
    ensures Trim(s) == s
  {
  }

  /** Trimming twice changes nothing more than trimming once. */
  lemma TrimIdempotent(s: string)
    ensures Trim(Trim(s)) == Trim(s)
  {
    TrimOfTrimmed(Trim(s));
  }

  /** strings.TrimSuffix: drop `suffix` from the end of `s` when it is there. */
  function TrimSuffix(s: string, suffix: string): (r: string)
    ensures |suffix| <= |s| && s[|s| - |suffix|..] == suffix ==> r + suffix == s
    ensures !(|suffix| <= |s| && s[|s| - |suffix|..] == suffix) ==> r == s
  {
    if |suffix| <= |s| && s[|s| - |suffix|..] == suffix then s[..|s| - |suffix|] else s
  }

  /** TrimSuffix undoes appending the suffix. */
  lemma TrimSuffixOfAppend(s: string, suffix: string)
    ensures TrimSuffix(s + suffix, suffix) == s
  {
    assert (s + suffix)[|s|..] == suffix;
  }

  /** The dropCR step of bufio.ScanLines: a final '\r' is not part of a line. */
  function DropCR(line: string): (r: string)
    ensures |line| > 0 && line[|line| - 1] == '\r' ==> line == r + "\r"
    ensures !(|line| > 0 && line[|line| - 1] == '\r') ==> r == line
    ensures |r| <= |line| && forall i :: 0 <= i < |r| ==> r[i] == line[i]
  {
    if |line| > 0 && line[|line| - 1] == '\r' then line[..|line| - 1] else line
  }

  /** The lines bufio.Scanner with ScanLines yields for `data`: the text
      between newlines, each without a trailing '\r', and a last line without
      a newline when the data does not end with one. */
  function Lines(data: string): (ls: seq<string>)
    ensures forall i :: 0 <= i < |ls| ==> '\n' !in ls[i]
    decreases |data|
  {
    if data == [] then []
    else
      var (line, rest, found) := Cut(data, '\n');
      var first := if found then line else data;
      assert '\n' !in first;
      if found then
        var ls := [DropCR(line)] + Lines(rest);
        assert forall i :: 1 <= i < |ls| ==> ls[i] == Lines(rest)[i - 1];
        ls
      else [DropCR(data)]
  }

  /** A line as ScanLines yields it: no newline, no final '\r'. */
  predicate IsLine(l: string) {
    '\n' !in l && (l == [] || l[|l| - 1] != '\r')
  }

  /** The text of `ls`, each line followed by a newline: the file that
      `Lines` reads back as `ls` (`LinesUnlines`). */
  function Unlines(ls: seq<string>): string {
    if ls == [] then [] else ls[0] + "\n" + Unlines(ls[1..])
  }

  /** One line followed by a newline is read back as that line, then the
      lines of what follows. */
  lemma LinesCons(line: string, rest: string)
    requires IsLine(line)
    ensures Lines(line + "\n" + rest) == [line] + Lines(rest)
  {
    CutJoin(line, '\n', rest);
    assert DropCR(line) == line;
  }

  /** Splitting into lines undoes writing the lines out one per newline. */
  lemma {:induction false} LinesUnlines(ls: seq<string>)
    requires forall i :: 0 <= i < |ls| ==> IsLine(ls[i])
    ensures Lines(Unlines(ls)) == ls
  {
    if ls != [] {
      LinesCons(ls[0], Unlines(ls[1..]));
      LinesUnlines(ls[1..]);
      assert ls == [ls[0]] + ls[1..];
    }
  }

}
