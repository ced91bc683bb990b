/**
 * The text transforms of AppLogic/Helpers/StringExtensions.cs.  Each regex
 * of the source is written out as a scanner over `string`, and `Split` /
 * `Join` are String.Split(char) and String.Join.
 */
module TextTransforms {

  /** Char.IsWhiteSpace, which is also the set the regex class `\s` matches. */
  predicate IsWhiteSpace(c: char)
  {
    var n := c as int;
    (9 <= n <= 13) || n == 0x20 || n == 0x85 || n == 0xA0 || n == 0x1680 ||
    (0x2000 <= n <= 0x200A) || n == 0x2028 || n == 0x2029 || n == 0x202F ||
    n == 0x205F || n == 0x3000
  }

  // ---------------------------------------------------------------------------
  // Split and Join
  // ---------------------------------------------------------------------------

  /** String.Split(sep): the pieces between separators; always at least one. */
  function Split(s: string, sep: char): (r: seq<string>)
    ensures |r| >= 1
    ensures forall k :: 0 <= k < |r| ==> sep !in r[k]
    decreases |s|
  {
    if |s| == 0 then [""]
    else
      var rest := Split(s[1..], sep);
      if s[0] == sep then [""] + rest
      else [[s[0]] + rest[0]] + rest[1..]
  }

  /** String.Join(sep, lines). */
  function Join(lines: seq<string>, sep: string): string
  {
    if |lines| == 0 then ""
    else if |lines| == 1 then lines[0]
    else lines[0] + sep + Join(lines[1..], sep)
  }

  lemma JoinConsHead(p: string, x: string, t: seq<string>, sep: string)
    ensures Join([p + x] + t, sep) == p + Join([x] + t, sep)
  {
    if |t| == 0 {
      assert [p + x] + t == [p + x];
      assert [x] + t == [x];
    } else {
      assert ([p + x] + t)[1..] == t;
      assert ([x] + t)[1..] == t;
    }
  }

  lemma {:induction false} JoinSplit(s: string, sep: char)
    ensures Join(Split(s, sep), [sep]) == s
    decreases |s|
  {
    if |s| > 0 {
      var rest := Split(s[1..], sep);
      JoinSplit(s[1..], sep);
      if s[0] == sep {
        assert ([""] + rest)[1..] == rest;
        assert Join([""] + rest, [sep]) == "" + [sep] + Join(rest, [sep]);
        assert s == [s[0]] + s[1..];
      } else {
        assert rest == [rest[0]] + rest[1..];
        JoinConsHead([s[0]], rest[0], rest[1..], [sep]);
        assert s == [s[0]] + s[1..];
      }
    }
  }

  /** Splitting `x + y` where `x` holds no separator glues `x` to the first piece of `y`. */
  lemma {:induction false} SplitPrefix(x: string, y: string, sep: char)
    requires sep !in x
    ensures Split(x + y, sep) == [x + Split(y, sep)[0]] + Split(y, sep)[1..]
    decreases |x|
  {
    if |x| == 0 {
      assert x + y == y;
      assert x + Split(y, sep)[0] == Split(y, sep)[0];
      assert Split(y, sep) == [Split(y, sep)[0]] + Split(y, sep)[1..];
    } else {
      var ys := Split(y, sep);
      assert (x + y)[0] == x[0] && (x + y)[1..] == x[1..] + y;
      SplitPrefix(x[1..], y, sep);
      var rest := Split(x[1..] + y, sep);
      assert rest[0] == x[1..] + ys[0] && rest[1..] == ys[1..];
      assert [x[0]] + (x[1..] + ys[0]) == x + ys[0];
    }
  }

  lemma SplitAtSep(y: string, sep: char)
    ensures Split([sep] + y, sep) == [""] + Split(y, sep)
  {
    assert ([sep] + y)[1..] == y;
  }

  /** Splitting joined separator-free pieces gives back the pieces. */
  lemma {:induction false} SplitJoin(lines: seq<string>, sep: char)
    requires |lines| >= 1
    requires forall k :: 0 <= k < |lines| ==> sep !in lines[k]
    ensures Split(Join(lines, [sep]), sep) == lines
    decreases |lines|
  {
    if |lines| == 1 {
      SplitPrefix(lines[0], "", sep);
      assert lines[0] + "" == lines[0];
      assert Split("", sep) == [""];
      assert [lines[0]] == lines;
    } else {
      SplitJoin(lines[1..], sep);
      var tail := Join(lines[1..], [sep]);
      assert Join(lines, [sep]) == lines[0] + ([sep] + tail);
      SplitPrefix(lines[0], [sep] + tail, sep);
      SplitAtSep(tail, sep);
      assert Split([sep] + tail, sep) == [""] + lines[1..];
      assert lines[0] + "" == lines[0];
      assert lines == [lines[0]] + lines[1..];
    }
  }

  /** A text without the separator is one piece. */
  lemma SplitOfOnePiece(s: string, sep: char)
    ensures sep !in s ==> Split(s, sep) == [s]
  {
    if sep !in s {
      SplitJoin([s], sep);
    }
  }

  lemma {:induction false} SplitAvoids(s: string, sep: char, c: char)
    requires c !in s
    ensures forall k :: 0 <= k < |Split(s, sep)| ==> c !in Split(s, sep)[k]
    decreases |s|
  {
    if |s| > 0 {
      assert c !in s[1..];
      SplitAvoids(s[1..], sep, c);
    }
  }

  lemma {:induction false} JoinAvoids(lines: seq<string>, sep: string, c: char)
    requires c !in sep
    requires forall k :: 0 <= k < |lines| ==> c !in lines[k]
    ensures c !in Join(lines, sep)
    decreases |lines|
  {
    if |lines| > 1 {
      JoinAvoids(lines[1..], sep, c);
    }
  }

  // ---------------------------------------------------------------------------
  // Line endings
  // ---------------------------------------------------------------------------

  /** UnixifyLineEndings: each leftmost "\r\n", "\n\r" or lone "\r" becomes "\n". */
  function Unixify(s: string): (r: string)
    ensures '\r' !in r
    ensures |r| <= |s|
    decreases |s|
  {
    if |s| == 0 then ""
    else if |s| >= 2 && ((s[0] == '\r' && s[1] == '\n') || (s[0] == '\n' && s[1] == '\r')) then "\n" + Unixify(s[2..])
    else if s[0] == '\r' then "\n" + Unixify(s[1..])
    else [s[0]] + Unixify(s[1..])
  }

  /** The environment's newline; the tool runs on Windows. */
  const NewLine := "\r\n"

  /** WindowsifyLineEndings: every "\n" becomes the newline, nothing else changes. */
  function Windowsify(s: string): (r: string)
    ensures |r| >= |s|
    decreases |s|
  {
    if |s| == 0 then ""
    else (if s[0] == '\n' then NewLine else [s[0]]) + Windowsify(s[1..])
  }

  /** The characters that are not line-break characters, in order. */
  function Text(s: string): string
    decreases |s|
  {
    if |s| == 0 then ""
    else (if s[0] == '\r' || s[0] == '\n' then "" else [s[0]]) + Text(s[1..])
  }

  /** Text without carriage returns is already Unix text. */
  lemma {:induction false} UnixifyWithoutCr(s: string)
    requires '\r' !in s
    ensures Unixify(s) == s
    decreases |s|
  {
    if |s| > 0 {
      assert '\r' !in s[1..];
      UnixifyWithoutCr(s[1..]);
      assert s == [s[0]] + s[1..];
    }
  }

  lemma UnixifyIdempotent(s: string)
    ensures Unixify(Unixify(s)) == Unixify(s)
  {
    UnixifyWithoutCr(Unixify(s));
  }

  /** Unixify changes only line breaks: the other characters stay, in order. */
  lemma {:induction false} UnixifyKeepsText(s: string)
    ensures Text(Unixify(s)) == Text(s)
    decreases |s|
  {
    if |s| == 0 {
    } else if |s| >= 2 && ((s[0] == '\r' && s[1] == '\n') || (s[0] == '\n' && s[1] == '\r')) {
      UnixifyKeepsText(s[2..]);
      assert ("\n" + Unixify(s[2..]))[1..] == Unixify(s[2..]);
      assert s[1..][1..] == s[2..];
    } else if s[0] == '\r' {
      UnixifyKeepsText(s[1..]);
      assert ("\n" + Unixify(s[1..]))[1..] == Unixify(s[1..]);
    } else {
      UnixifyKeepsText(s[1..]);
      assert ([s[0]] + Unixify(s[1..]))[1..] == Unixify(s[1..]);
    }
  }

  /** Windowsify, then Unixify, gives back text that had no carriage return. */
  lemma {:induction false} UnixifyUndoesWindowsify(s: string)
    requires '\r' !in s
    ensures Unixify(Windowsify(s)) == s
    decreases |s|
  {
    if |s| > 0 {
      assert '\r' !in s[1..];
      UnixifyUndoesWindowsify(s[1..]);
      var w := Windowsify(s[1..]);
      if s[0] == '\n' {
        assert (NewLine + w)[2..] == w;
      } else {
        assert ([s[0]] + w)[1..] == w;
      }
      assert s == [s[0]] + s[1..];
    }
  }

  /** Windowsify is the lines of `s` joined with the newline. */
  lemma {:induction false} WindowsifyJoinsLines(s: string)
    ensures Windowsify(s) == Join(Split(s, '\n'), NewLine)
    decreases |s|
  {
    if |s| > 0 {
      WindowsifyJoinsLines(s[1..]);
      var rest := Split(s[1..], '\n');
      if s[0] == '\n' {
        assert ([""] + rest)[1..] == rest;
        assert Join([""] + rest, NewLine) == "" + NewLine + Join(rest, NewLine);
      } else {
        assert rest == [rest[0]] + rest[1..];
        JoinConsHead([s[0]], rest[0], rest[1..], NewLine);
      }
    }
  }

  // ---------------------------------------------------------------------------
  // RemoveSpaces
  // ---------------------------------------------------------------------------

  /** RemoveSpaces: the characters that are not white space, in order. */
  function RemoveSpaces(s: string): (r: string)
    ensures |r| <= |s|
    ensures forall i :: 0 <= i < |r| ==> !IsWhiteSpace(r[i])
    decreases |s|
  {
    if |s| == 0 then ""
    else (if IsWhiteSpace(s[0]) then "" else [s[0]]) + RemoveSpaces(s[1..])
  }

  lemma {:induction false} RemoveSpacesAppend(a: string, b: string)
    ensures RemoveSpaces(a + b) == RemoveSpaces(a) + RemoveSpaces(b)
    decreases |a|
  {
    if |a| == 0 {
      assert a + b == b;
    } else {
      assert (a + b)[1..] == a[1..] + b;
      RemoveSpacesAppend(a[1..], b);
    }
  }

  /** Every non-white-space character is kept as often as it occurs; white space never is. */
  lemma {:induction false} RemoveSpacesCounts(s: string)
    ensures forall c :: multiset(RemoveSpaces(s))[c] == if IsWhiteSpace(c) then 0 else multiset(s)[c]
    decreases |s|
  {
    if |s| > 0 {
      RemoveSpacesCounts(s[1..]);
      assert s == [s[0]] + s[1..];
      assert multiset(s) == multiset{s[0]} + multiset(s[1..]);
    }
  }

  lemma {:induction false} RemoveSpacesWithoutSpace(s: string)
    requires forall i :: 0 <= i < |s| ==> !IsWhiteSpace(s[i])
    ensures RemoveSpaces(s) == s
    decreases |s|
  {
    if |s| > 0 {
      RemoveSpacesWithoutSpace(s[1..]);
      assert s == [s[0]] + s[1..];
    }
  }

  // ---------------------------------------------------------------------------
  // Trim and blank lines
  // ---------------------------------------------------------------------------

  /** The line matches `^\s*$`: it is all white space. */
  predicate IsBlank(l: string)
    decreases |l|
  {
    |l| == 0 || (IsWhiteSpace(l[0]) && IsBlank(l[1..]))
  }

  /** A blank line is one that TrimStart empties. */
  lemma {:induction false} BlankTrimOffset(l: string)
    ensures IsBlank(l) <==> TrimOffset(l) == |l|
    decreases |l|
  {
    if |l| > 0 {
      BlankTrimOffset(l[1..]);
    }
  }

  /** Where String.TrimStart() cuts: the length of the leading white space. */
  function TrimOffset(s: string): (i: nat)
    ensures i <= |s|
    ensures forall k :: 0 <= k < i ==> IsWhiteSpace(s[k])
    ensures i < |s| ==> !IsWhiteSpace(s[i])
    decreases |s|
  {
    if |s| > 0 && IsWhiteSpace(s[0]) then 1 + TrimOffset(s[1..]) else 0
  }

  /** Where String.TrimEnd() cuts `s`, not going below `lo`. */
  function TrimEndOffset(s: string, lo: nat): (j: nat)
    requires lo <= |s|
    ensures lo <= j <= |s|
    ensures forall k :: j <= k < |s| ==> IsWhiteSpace(s[k])
    ensures j > lo ==> !IsWhiteSpace(s[j - 1])
    decreases |s|
  {
    if |s| > lo && IsWhiteSpace(s[|s| - 1]) then TrimEndOffset(s[..|s| - 1], lo) else |s|
  }

  /** String.Trim(): the slice of `s` between its leading and its trailing white space. */
  function Trim(s: string): (r: string)
    ensures var i := TrimOffset(s); var j := TrimEndOffset(s, i);
            r == s[i..j] &&
            (forall k :: 0 <= k < i ==> IsWhiteSpace(s[k])) &&
            (forall k :: j <= k < |s| ==> IsWhiteSpace(s[k])) &&
            (|r| > 0 ==> !IsWhiteSpace(r[0]) && !IsWhiteSpace(r[|r| - 1]))
  {
    var i := TrimOffset(s);
    s[i..TrimEndOffset(s, i)]
  }

  /** The number of blank lines at the start. */
  function LeadingBlank(lines: seq<string>): (n: nat)
    ensures n <= |lines|
    ensures forall k :: 0 <= k < n ==> IsBlank(lines[k])
    ensures n < |lines| ==> !IsBlank(lines[n])
    decreases |lines|
  {
    if |lines| > 0 && IsBlank(lines[0]) then 1 + LeadingBlank(lines[1..]) else 0
  }

  /** The number of blank lines at the end. */
  function TrailingBlank(lines: seq<string>): (n: nat)
    ensures n <= |lines|
    ensures forall k :: |lines| - n <= k < |lines| ==> IsBlank(lines[k])
    ensures n < |lines| ==> !IsBlank(lines[|lines| - n - 1])
    decreases |lines|
  {
    if |lines| > 0 && IsBlank(lines[|lines| - 1]) then 1 + TrailingBlank(lines[..|lines| - 1]) else 0
  }

  /**
   * The lines kept by SkipWhile(blank), Reverse, SkipWhile(blank), Reverse:
   * `lines[lo..hi]`, with only blank lines outside and non-blank lines at
   * both ends.
   */
  function KeptRange(lines: seq<string>): (b: (nat, nat))
    ensures b.0 <= b.1 <= |lines|
    ensures forall k :: 0 <= k < b.0 ==> IsBlank(lines[k])
    ensures forall k :: b.1 <= k < |lines| ==> IsBlank(lines[k])
    ensures b.0 < b.1 ==> !IsBlank(lines[b.0]) && !IsBlank(lines[b.1 - 1])
    ensures b.0 == b.1 ==> b.0 == |lines|
  {
    var lo := LeadingBlank(lines);
    var rest := lines[lo..];
    KeptRangeBounds(lines, lo, rest);
    (lo, |lines| - TrailingBlank(rest))
  }

  lemma KeptRangeBounds(lines: seq<string>, lo: nat, rest: seq<string>)
    requires lo == LeadingBlank(lines) && rest == lines[lo..]
    ensures var hi := |lines| - TrailingBlank(rest);
            lo <= hi && (forall k :: hi <= k < |lines| ==> IsBlank(lines[k])) &&
            (lo < hi ==> !IsBlank(lines[lo]) && !IsBlank(lines[hi - 1])) &&
            (lo == hi ==> lo == |lines|)
  {
    var t := TrailingBlank(rest);
    BlankTailOfSuffix(lines, lo, rest, t);
    if lo < |lines| {
      LastKept(lines, lo, rest, t);
    }
  }

  /** The blank lines at the end of a suffix are the blank lines at the end of the whole. */
  lemma BlankTailOfSuffix(lines: seq<string>, lo: nat, rest: seq<string>, t: nat)
    requires lo <= |lines| && rest == lines[lo..] && t <= |rest|
    requires forall k :: |rest| - t <= k < |rest| ==> IsBlank(rest[k])
    ensures forall k :: |lines| - t <= k < |lines| ==> IsBlank(lines[k])
  {
    forall k | |lines| - t <= k < |lines|
      ensures IsBlank(lines[k])
    {
      assert lines[k] == rest[k - lo];
    }
  }

  /** The line before the trailing blank ones of a suffix that starts non-blank. */
  lemma LastKept(lines: seq<string>, lo: nat, rest: seq<string>, t: nat)
    requires lo < |lines| && rest == lines[lo..] && !IsBlank(lines[lo])
    requires t == TrailingBlank(rest)
    ensures t < |rest| && !IsBlank(lines[|lines| - t - 1])
  {
    assert rest[0] == lines[lo];
    var last := rest[|rest| - t - 1];
    assert last == lines[|lines| - t - 1];
  }

  /** TrimTrailingEmptyLines: drops blank lines at both the start and the end; a single line is kept unless it is blank. */
  function TrimTrailingEmptyLines(s: string): (r: string)
    ensures '\n' !in s ==> r == if IsBlank(s) then "" else s
  {
    SplitOfOnePiece(s, '\n');
    var lines := Split(s, '\n');
    var b := KeptRange(lines);
    Join(lines[b.0..b.1], "\n")
  }

  /**
   * The lines of the result are exactly the input's lines from the first
   * non-blank one to the last non-blank one; if every line is blank the
   * result is empty.
   */
  lemma TrimTrailingEmptyLinesKeepsInterior(s: string)
    ensures var lines := Split(s, '\n');
            var b := KeptRange(lines);
            (b.0 == b.1 ==> TrimTrailingEmptyLines(s) == "" && forall k :: 0 <= k < |lines| ==> IsBlank(lines[k])) &&
            (b.0 < b.1 ==> Split(TrimTrailingEmptyLines(s), '\n') == lines[b.0..b.1])
  {
    var lines := Split(s, '\n');
    var b := KeptRange(lines);
    assert TrimTrailingEmptyLines(s) == Join(lines[b.0..b.1], "\n");
    if b.0 < b.1 {
      SplitJoin(lines[b.0..b.1], '\n');
    } else {
      assert lines[b.0..b.1] == [];
    }
  }

  /** Lines that neither start nor end with a blank line are kept whole. */
  lemma KeptRangeWhole(lines: seq<string>)
    requires |lines| > 0 && !IsBlank(lines[0]) && !IsBlank(lines[|lines| - 1])
    ensures KeptRange(lines) == (0, |lines|)
  {
  }

  /** The empty text is one blank line, and trimming it gives it back. */
  lemma TrimTrailingEmptyLinesOfEmpty()
    ensures TrimTrailingEmptyLines("") == ""
  {
    assert Split("", '\n') == [""];
    assert IsBlank(Split("", '\n')[0]);
  }

  lemma TrimTrailingEmptyLinesIdempotent(s: string)
    ensures TrimTrailingEmptyLines(TrimTrailingEmptyLines(s)) == TrimTrailingEmptyLines(s)
  {
    var lines := Split(s, '\n');
    var b := KeptRange(lines);
    var t := TrimTrailingEmptyLines(s);
    if b.0 == b.1 {
      assert t == "";
      TrimTrailingEmptyLinesOfEmpty();
    } else {
      SplitJoin(lines[b.0..b.1], '\n');
      KeptTextIsTrimmed(lines, b.0, b.1, t);
    }
  }

  /** A text whose lines are a slice with non-blank ends is its own trimmed form. */
  lemma KeptTextIsTrimmed(lines: seq<string>, lo: nat, hi: nat, t: string)
    requires lo < hi <= |lines| && !IsBlank(lines[lo]) && !IsBlank(lines[hi - 1])
    requires Split(t, '\n') == lines[lo..hi]
    ensures TrimTrailingEmptyLines(t) == t
  {
    var kept := Split(t, '\n');
    assert kept[0] == lines[lo] && kept[|kept| - 1] == lines[hi - 1];
    KeptRangeWhole(kept);
    assert kept[0..|kept|] == kept;
    assert TrimTrailingEmptyLines(t) == Join(kept, "\n");
    JoinSplit(t, '\n');
  }

  lemma TrimTrailingEmptyLinesAvoids(s: string, c: char)
    requires c !in s && c != '\n'
    ensures c !in TrimTrailingEmptyLines(s)
  {
    var lines := Split(s, '\n');
    var b := KeptRange(lines);
    SplitAvoids(s, '\n', c);
    JoinAvoids(lines[b.0..b.1], "\n", c);
  }

  // ---------------------------------------------------------------------------
  // ConvertToSingleLine
  // ---------------------------------------------------------------------------

  function TrimAll(lines: seq<string>): (r: seq<string>)
    ensures |r| == |lines|
    ensures forall k :: 0 <= k < |r| ==> r[k] == Trim(lines[k])
  {
    seq(|lines|, k requires 0 <= k < |lines| => Trim(lines[k]))
  }

  /** ConvertToSingleLine: the trimmed lines joined by single spaces; no line break is left, and a single line is just trimmed. */
  function ConvertToSingleLine(s: string): (r: string)
    ensures '\n' !in r
    ensures '\n' !in s ==> r == Trim(s)
  {
    var lines := Split(s, '\n');
    SplitOfOnePiece(s, '\n');
    TrimAllAvoids(lines, '\n');
    JoinAvoids(TrimAll(lines), " ", '\n');
    Join(TrimAll(lines), " ")
  }

  lemma TrimAllAvoids(lines: seq<string>, c: char)
    requires forall k :: 0 <= k < |lines| ==> c !in lines[k]
    ensures forall k :: 0 <= k < |TrimAll(lines)| ==> c !in TrimAll(lines)[k]
  {
    forall k | 0 <= k < |lines|
      ensures c !in TrimAll(lines)[k]
    {
      TrimAvoids(lines[k], c);
    }
  }

  lemma TrimAvoids(l: string, c: char)
    requires c !in l
    ensures c !in Trim(l)
  {
    var r := Trim(l);
    var o := TrimOffset(l);
    assert forall k :: 0 <= k < |r| ==> r[k] == l[o + k];
  }

  /** The result has no line break, and no character that the input lacks, except the joining space. */
  lemma ConvertToSingleLineAvoids(s: string, c: char)
    requires c != ' ' && (c != '\n' ==> c !in s)
    ensures c !in ConvertToSingleLine(s)
  {
    var lines := Split(s, '\n');
    if c != '\n' {
      SplitAvoids(s, '\n', c);
    }
    forall k | 0 <= k < |lines|
      ensures c !in TrimAll(lines)[k]
    {
      TrimAvoids(lines[k], c);
    }
    JoinAvoids(TrimAll(lines), " ", c);
  }

  /** A text without line breaks becomes its own trimmed form. */
  lemma ConvertToSingleLineOfOneLine(s: string)
    requires '\n' !in s
    ensures ConvertToSingleLine(s) == Trim(s)
  {
    SplitJoin([s], '\n');
  }

  /** PasteAsSingleLine: Unixify, TrimTrailingEmptyLines, ConvertToSingleLine gives text with no line break at all. */
  lemma PasteAsSingleLineHasNoBreaks(s: string)
    ensures var r := ConvertToSingleLine(TrimTrailingEmptyLines(Unixify(s)));
            '\n' !in r && '\r' !in r
  {
    var t := TrimTrailingEmptyLines(Unixify(s));
    TrimTrailingEmptyLinesAvoids(Unixify(s), '\r');
    ConvertToSingleLineAvoids(t, '\n');
    ConvertToSingleLineAvoids(t, '\r');
  }

  // ---------------------------------------------------------------------------
  // Unindent
  // ---------------------------------------------------------------------------

  /** int.MaxValue, the seed of the indent aggregation. */
  const IntMaxValue: int := 0x7FFF_FFFF

  /** The length of the `^[\x20\t]+` match: the leading run of spaces and tabs. */
  function LeadingIndent(l: string): (n: nat)
    ensures n <= |l|
    ensures forall i :: 0 <= i < n ==> l[i] == ' ' || l[i] == '\t'
    ensures n < |l| ==> l[n] != ' ' && l[n] != '\t'
    decreases |l|
  {
    if |l| > 0 && (l[0] == ' ' || l[0] == '\t') then 1 + LeadingIndent(l[1..]) else 0
  }

  /** One step of the Aggregate: a line without leading run forces 0, otherwise the smaller of the two. */
  function IndentStep(minSize: int, line: string): int
  {
    var size := LeadingIndent(line);
    if size > 0 then (if size < minSize then size else minSize) else 0
  }

  function IndentFold(lines: seq<string>, acc: int): int
    decreases |lines|
  {
    if |lines| == 0 then acc else IndentFold(lines[1..], IndentStep(acc, lines[0]))
  }

  /**
   * The aggregation is 0 when some line has no leading run; otherwise it is
   * at most every line's run and the seed, and equal to one of them.
   */
  lemma {:induction false} IndentFoldValue(lines: seq<string>, acc: int)
    requires acc >= 0
    ensures var r := IndentFold(lines, acc);
            ((exists k :: 0 <= k < |lines| && LeadingIndent(lines[k]) == 0) ==> r == 0) &&
            ((forall k :: 0 <= k < |lines| ==> LeadingIndent(lines[k]) > 0) ==>
               r <= acc && (forall k :: 0 <= k < |lines| ==> r <= LeadingIndent(lines[k])) &&
               (r == acc || exists k :: 0 <= k < |lines| && LeadingIndent(lines[k]) == r))
    decreases |lines|
  {
    if |lines| > 0 {
      var next := IndentStep(acc, lines[0]);
      IndentFoldValue(lines[1..], next);
      if LeadingIndent(lines[0]) == 0 {
        ZeroStays(lines[1..]);
      }
      var r := IndentFold(lines, acc);
      if r != 0 && exists k :: 0 <= k < |lines[1..]| && LeadingIndent(lines[1..][k]) == r {
        var k :| 0 <= k < |lines[1..]| && LeadingIndent(lines[1..][k]) == r;
        assert LeadingIndent(lines[k + 1]) == r;
      }
    }
  }

  lemma {:induction false} ZeroStays(lines: seq<string>)
    ensures IndentFold(lines, 0) == 0
    decreases |lines|
  {
    if |lines| > 0 {
      ZeroStays(lines[1..]);
    }
  }

  /** The regex `^[\x20\t]{n}` replaced by the empty string: removes the first `n` characters when they are spaces or tabs. */
  function RemoveIndent(l: string, n: nat): string
  {
    if LeadingIndent(l) >= n then l[n..] else l
  }

  function IndentSize(lines: seq<string>): int
  {
    IndentFold(lines, IntMaxValue)
  }

  /** Unindent: removes the smallest leading run of spaces and tabs from every line, unless that is 0 or int.MaxValue; a flush line leaves the text alone. */
  function Unindent(s: string): (r: string)
    ensures var lines := Split(s, '\n');
            (exists k :: 0 <= k < |lines| && LeadingIndent(lines[k]) == 0) ==> r == s
  {
    var lines := Split(s, '\n');
    IndentFoldValue(lines, IntMaxValue);
    var n := IndentSize(lines);
    if n <= 0 || n == IntMaxValue then s
    else Join(RemoveIndents(lines, n), "\n")
  }

  /** Every line with `n` leading spaces or tabs removed where it has that many. */
  function RemoveIndents(lines: seq<string>, n: nat): seq<string>
  {
    seq(|lines|, k requires 0 <= k < |lines| => RemoveIndent(lines[k], n))
  }

  /** Lines all indented by at least `n` each lose exactly their first `n` characters, and gain no separator. */
  lemma RemoveIndentsOfIndented(lines: seq<string>, n: nat, sep: char)
    requires forall k :: 0 <= k < |lines| ==> n <= LeadingIndent(lines[k]) && sep !in lines[k]
    ensures var kept := RemoveIndents(lines, n);
            |kept| == |lines| &&
            (forall k :: 0 <= k < |lines| ==> n <= |lines[k]| && kept[k] == lines[k][n..]) &&
            (forall k :: 0 <= k < |kept| ==> sep !in kept[k])
  {
    var kept := RemoveIndents(lines, n);
    forall k | 0 <= k < |kept|
      ensures kept[k] == lines[k][n..] && sep !in kept[k]
    {
      assert forall i :: 0 <= i < |kept[k]| ==> kept[k][i] == lines[k][n + i];
    }
  }

  /** A line with no leading space or tab, an empty line included, leaves the text unchanged. */
  lemma UnindentFlushLine(s: string, k: nat)
    requires k < |Split(s, '\n')| && LeadingIndent(Split(s, '\n')[k]) == 0
    ensures Unindent(s) == s
  {
    IndentFoldValue(Split(s, '\n'), IntMaxValue);
  }

  /**
   * When every line is indented, each line loses exactly the common
   * indent, which is all spaces and tabs, the line count stays, and some
   * line is left flush, so unindenting again changes nothing.
   */
  lemma UnindentRemovesCommonIndent(s: string)
    requires forall k :: 0 <= k < |Split(s, '\n')| ==> LeadingIndent(Split(s, '\n')[k]) > 0
    requires IndentSize(Split(s, '\n')) < IntMaxValue
    ensures var lines := Split(s, '\n');
            var n := IndentSize(lines);
            var out := Split(Unindent(s), '\n');
            0 < n && |out| == |lines| &&
            (forall k :: 0 <= k < |lines| ==> n <= LeadingIndent(lines[k]) && out[k] == lines[k][n..]) &&
            Unindent(Unindent(s)) == Unindent(s)
  {
    var lines := Split(s, '\n');
    var n := IndentSize(lines);
    IndentFoldValue(lines, IntMaxValue);
    assert n > 0 by {
      if |lines| > 0 {
        assert LeadingIndent(lines[0]) > 0;
      }
    }
    var kept := RemoveIndents(lines, n);
    RemoveIndentsOfIndented(lines, n, '\n');
    SplitJoin(kept, '\n');
    var k :| 0 <= k < |lines| && LeadingIndent(lines[k]) == n;
    FlushAfterRemoval(lines[k], n);
    UnindentFlushLine(Unindent(s), k);
  }

  lemma FlushAfterRemoval(l: string, n: nat)
    requires n == LeadingIndent(l)
    ensures LeadingIndent(l[n..]) == 0
  {
  }

  /** The text a pasted trailing newline leaves behind is not unindented: its last, empty line is flush. */
  lemma UnindentKeepsTextEndingInNewline(s: string)
    requires |s| > 0 && s[|s| - 1] == '\n'
    ensures Unindent(s) == s
  {
    var lines := Split(s, '\n');
    JoinSplit(s, '\n');
    LastPieceAfterTrailingSep(s, '\n');
    UnindentFlushLine(s, |lines| - 1);
  }

  lemma {:induction false} LastPieceAfterTrailingSep(s: string, sep: char)
    requires |s| > 0 && s[|s| - 1] == sep
    ensures var r := Split(s, sep); r[|r| - 1] == ""
    decreases |s|
  {
    if |s| > 1 {
      LastPieceAfterTrailingSep(s[1..], sep);
    } else {
      assert s[1..] == "";
    }
  }
}
