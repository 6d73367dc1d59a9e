/**
 * `LoadJSONStripComments`: every line read from the packages file loses its
 * trailing whitespace and then everything from its first `#` on; the lines are
 * joined with newlines and the text is handed to the JSON parser, which is a
 * parameter here (`loads`, returning `None` where `json.loads` raises).
 */
module CommentStripper {
  import opened Wrappers
  import opened JsonValue

  /** The characters `str.rstrip()` removes from a byte string: space, \t, \n, \v, \f, \r. */
  predicate IsWhitespace(c: char) {
    c == ' ' || c == '\t' || c == '\n' || c == '\U{B}' || c == '\U{C}' || c == '\r'
  }

  /** `s.rstrip()`: the longest prefix of `s` that does not end in whitespace. */
  function RStrip(s: string): (r: string)
    ensures r <= s
    ensures r == [] || !IsWhitespace(r[|r| - 1])
    ensures forall i | |r| <= i < |s| :: IsWhitespace(s[i])
  {
    if s != [] && IsWhitespace(s[|s| - 1]) then RStrip(s[..|s| - 1]) else s
  }

  /** `s.find(c)`: the index of the first `c` in `s`, or -1 when `s` has none. */
  function Find(s: string, c: char): (i: int)
    ensures -1 <= i < |s|
    ensures i == -1 <==> c !in s
    ensures i != -1 ==> s[i] == c && c !in s[..i]
  {
    if s == [] then -1
    else if s[0] == c then 0
    else
      var k := Find(s[1..], c);
      if k == -1 then -1 else k + 1
  }

  /**
   * One line as the loop body leaves it: the right-stripped line cut before its
   * first `#`, or all of it when it has none. Whitespace before the `#` stays,
   * and a `#` inside a JSON string literal is cut like any other.
   */
  function StripLine(line: string): (r: string)
    ensures '#' !in r
    ensures r <= RStrip(line)
    ensures |r| < |RStrip(line)| ==> RStrip(line)[|r|] == '#'
  {
    var stripped := RStrip(line);
    var commentIndex := Find(stripped, '#');
    if commentIndex != -1 then stripped[..commentIndex] else stripped
  }

  /** The contract of `StripLine` determines its result: nothing else meets it. */
  lemma StripLineUnique(line: string, r: string)
    requires '#' !in r
    requires r <= RStrip(line)
    requires |r| < |RStrip(line)| ==> RStrip(line)[|r|] == '#'
    ensures r == StripLine(line)
  {
  }

  /**
   * A line split at its first `#` keeps exactly the part before it, trailing
   * whitespace of that part included.
   */
  lemma CutAtFirstHash(code: string, comment: string)
    requires '#' !in code
    ensures StripLine(code + "#" + comment) == code
  {
    var line := code + "#" + comment;
    assert line[|code|] == '#';
    RStripKeeps(line, |code| + 1);
    assert forall i | 0 <= i < |code| :: RStrip(line)[i] == code[i];
  }

  /** `rstrip` keeps every character up to the last one that is not whitespace. */
  lemma RStripKeeps(s: string, k: nat)
    requires 0 < k <= |s| && !IsWhitespace(s[k - 1])
    ensures s[..k] <= RStrip(s)
  {
    var r := RStrip(s);
    assert |r| >= k;
    assert r[..k] == s[..k];
  }

  /** A `#` inside a JSON string literal ends the line all the same. */
  lemma HashInsideStringIsCut()
    ensures StripLine("\"url\": \"http://host/#frag\",") == "\"url\": \"http://host/"
  {
    var code, comment := "\"url\": \"http://host/", "frag\",";
    assert code + "#" + comment == "\"url\": \"http://host/#frag\",";
    CutAtFirstHash(code, comment);
  }

  /** A line with no `#` and no trailing whitespace passes through unchanged. */
  lemma PlainLineUnchanged(line: string)
    requires '#' !in line
    requires line == [] || !IsWhitespace(line[|line| - 1])
    ensures StripLine(line) == line
  {
  }

  /** The loop's output list: one stripped line per input line, in input order. */
  function StrippedLines(lines: seq<string>): (r: seq<string>)
    ensures |r| == |lines|
    ensures forall k | 0 <= k < |lines| :: r[k] == StripLine(lines[k])
  {
    if lines == [] then [] else [StripLine(lines[0])] + StrippedLines(lines[1..])
  }

  /** `"\n".join(parts)`. */
  function JoinLines(parts: seq<string>): string {
    if parts == [] then ""
    else if |parts| == 1 then parts[0]
    else parts[0] + "\n" + JoinLines(parts[1..])
  }

  /** The text handed to the JSON parser. */
  function StrippedText(lines: seq<string>): string {
    JoinLines(StrippedLines(lines))
  }

  /** `text.split("\n")`: the inverse of `JoinLines`. */
  function SplitLines(text: string): (parts: seq<string>)
    ensures parts != []
    ensures forall k | 0 <= k < |parts| :: '\n' !in parts[k]
  {
    if text == [] then [""]
    else
      var rest := SplitLines(text[1..]);
      if text[0] == '\n' then [""] + rest else [[text[0]] + rest[0]] + rest[1..]
  }

  /** Splitting a newline-free head, a newline and a tail gives the head, then the tail's pieces. */
  lemma {:induction false} SplitAfterHead(head: string, tail: string)
    requires '\n' !in head
    ensures SplitLines(head + "\n" + tail) == [head] + SplitLines(tail)
  {
    var text := head + "\n" + tail;
    if head == [] {
      assert text[1..] == tail;
    } else {
      assert text[1..] == head[1..] + "\n" + tail;
      SplitAfterHead(head[1..], tail);
      assert [head[0]] + head[1..] == head;
    }
  }

  /** A newline-free text is a single piece. */
  lemma {:induction false} SplitSingle(text: string)
    requires '\n' !in text
    ensures SplitLines(text) == [text]
  {
    if text != [] {
      SplitSingle(text[1..]);
      assert [text[0]] + text[1..] == text;
    }
  }

  lemma {:induction false} JoinThenSplit(parts: seq<string>)
    requires parts != []
    requires forall k | 0 <= k < |parts| :: '\n' !in parts[k]
    ensures SplitLines(JoinLines(parts)) == parts
  {
    if |parts| == 1 {
      SplitSingle(parts[0]);
    } else {
      JoinThenSplit(parts[1..]);
      SplitAfterHead(parts[0], JoinLines(parts[1..]));
      assert [parts[0]] + parts[1..] == parts;
    }
  }

  lemma {:induction false} SplitThenJoin(text: string)
    ensures JoinLines(SplitLines(text)) == text
  {
    if text != [] {
      var rest := SplitLines(text[1..]);
      SplitThenJoin(text[1..]);
      if text[0] == '\n' {
        JoinFront("", rest);
      } else {
        JoinFirstChar(text[0], rest);
      }
      assert [text[0]] + text[1..] == text;
    }
  }

  /** Joining a head before a nonempty list of lines puts one newline after the head. */
  lemma JoinFront(head: string, tail: seq<string>)
    requires tail != []
    ensures JoinLines([head] + tail) == head + "\n" + JoinLines(tail)
  {
    assert ([head] + tail)[1..] == tail;
  }

  /** A character put before the first line is the first character of the joined text. */
  lemma JoinFirstChar(c: char, parts: seq<string>)
    requires parts != []
    ensures JoinLines([[c] + parts[0]] + parts[1..]) == [c] + JoinLines(parts)
  {
    if |parts| > 1 {
      assert ([[c] + parts[0]] + parts[1..])[1..] == parts[1..];
    }
  }

  /** Joining `n` newline-free parts puts exactly `n - 1` newlines between them. */
  lemma {:induction false} JoinedNewlines(parts: seq<string>)
    requires parts != []
    requires forall k | 0 <= k < |parts| :: '\n' !in parts[k]
    ensures multiset(JoinLines(parts))['\n'] == |parts| - 1
  {
    if |parts| > 1 {
      JoinedNewlines(parts[1..]);
      assert multiset(parts[0])['\n'] == 0;
      assert JoinLines(parts) == parts[0] + "\n" + JoinLines(parts[1..]);
    } else {
      assert multiset(parts[0])['\n'] == 0;
    }
  }

  /** A line as `readlines` yields it: a newline, if any, only at its end. */
  predicate IsReadLine(line: string) {
    forall i | 0 <= i < |line| - 1 :: line[i] != '\n'
  }

  /** A stripped line holds no newline: `rstrip` removed the one `readlines` kept. */
  lemma StrippedLineHasNoNewline(line: string)
    requires IsReadLine(line)
    ensures '\n' !in StripLine(line)
  {
  }

  /**
   * The stripped text of `n` lines holds `n - 1` newlines, and splitting it at
   * them gives back the stripped lines one by one, in order.
   */
  lemma StrippedTextLines(lines: seq<string>)
    requires lines != []
    requires forall k | 0 <= k < |lines| :: IsReadLine(lines[k])
    ensures multiset(StrippedText(lines))['\n'] == |lines| - 1
    ensures SplitLines(StrippedText(lines)) == StrippedLines(lines)
  {
    var parts := StrippedLines(lines);
    forall k | 0 <= k < |parts| ensures '\n' !in parts[k] {
      StrippedLineHasNoNewline(lines[k]);
    }
    JoinedNewlines(parts);
    JoinThenSplit(parts);
  }

  /** `LoadJSONStripComments(file)`, `file` given by the lines `readlines` returns. */
  method LoadJSONStripComments(fileLines: seq<string>, loads: string -> Option<Json>)
    returns (r: Option<Json>)
    ensures r == loads(StrippedText(fileLines))
  {
    var lines: seq<string> := [];
    for n := 0 to |fileLines|
      invariant |lines| == n
      invariant forall k | 0 <= k < n :: lines[k] == StripLine(fileLines[k])
    {
      var line := RStrip(fileLines[n]);
      var commentIndex := Find(line, '#');
      if commentIndex != -1 {
        lines := lines + [line[..commentIndex]];
      } else {
        lines := lines + [line];
      }
    }
    assert lines == StrippedLines(fileLines);
    var strippedFile := JoinLines(lines);
    r := loads(strippedFile);
  }
}
