/**
 * Text as a sequence of characters, cut into lines and put back together.
 *
 * Both `java.util.Scanner.nextLine` (used when saving) and
 * `java.io.BufferedReader.readLine` (used when loading) end a line at "\n",
 * at "\r" or at the pair "\r\n", and yield a last line with no terminator
 * only when it is not empty.  `Lines` is that splitter; `Join` is the
 * writer's "each line followed by the host's line separator".
 */
module Text {

  predicate IsTerminator(c: char) {
    c == '\n' || c == '\r'
  }

  /** One line's text: no terminator character anywhere in it. */
  predicate IsLine(s: string) {
    forall i :: 0 <= i < |s| ==> !IsTerminator(s[i])
  }

  /** The values `System.lineSeparator()` can have. */
  predicate IsLineSeparator(sep: string) {
    sep == "\n" || sep == "\r\n" || sep == "\r"
  }

  predicate EndsWith(s: string, suffix: string) {
    |suffix| <= |s| && s[|s| - |suffix|..] == suffix
  }

  /**
   * `brk` is a legal line break in front of the text `rest`: nothing at the
   * very end, or one terminator, where a lone "\r" is never followed by "\n"
   * (that pair is a single terminator).
   */
  predicate IsBreakBefore(brk: string, rest: string) {
    (brk == [] && rest == [])
    || brk == "\n"
    || brk == "\r\n"
    || (brk == "\r" && (rest == [] || rest[0] != '\n'))
  }

  /** Index of the first terminator in `s`, or `|s|` when there is none. */
  function LineEnd(s: string): (i: nat)
    ensures i <= |s|
    ensures IsLine(s[..i])
    ensures i < |s| ==> IsTerminator(s[i])
  {
    if s == [] || IsTerminator(s[0]) then 0
    else
      var j := LineEnd(s[1..]);
      assert s[..1 + j] == [s[0]] + s[1..][..j];
      1 + j
  }

  /**
   * One call of `nextLine`/`readLine` on a non-empty remaining input: the
   * line's text and the input left after its terminator.
   */
  function NextLine(s: string): (r: (string, string))
    requires s != []
    ensures IsLine(r.0)
    ensures |r.1| < |s|
    ensures |r.0| + |r.1| <= |s|
    ensures s[..|r.0|] == r.0 && s[|s| - |r.1|..] == r.1
    ensures IsBreakBefore(s[|r.0|..|s| - |r.1|], r.1)
  {
    var i := LineEnd(s);
    if i == |s| then (s, [])
    else if s[i] == '\r' && i + 1 < |s| && s[i + 1] == '\n' then (s[..i], s[i + 2..])
    else (s[..i], s[i + 1..])
  }

  /** The lines the reader (or the scanner) yields, in order. */
  function Lines(s: string): (ls: seq<string>)
    ensures forall k :: 0 <= k < |ls| ==> IsLine(ls[k])
    ensures |ls| == 0 <==> s == []
    ensures |ls| <= |s|
    decreases |s|
  {
    if s == [] then []
    else
      var r := NextLine(s);
      [r.0] + Lines(r.1)
  }

  /**
   * One more call of `nextLine`/`readLine`: when the lines of `text` are
   * those already taken followed by those of `rest`, taking the next line of
   * `rest` keeps it so.
   */
  lemma NextLineAdvances(text: string, taken: seq<string>, rest: string)
    requires rest != [] && Lines(text) == taken + Lines(rest)
    ensures Lines(text) == (taken + [NextLine(rest).0]) + Lines(NextLine(rest).1)
  {
    assert Lines(rest) == [NextLine(rest).0] + Lines(NextLine(rest).1);
  }

  /** Every line written out followed by `sep`. */
  function Join(ls: seq<string>, sep: string): (r: string)
    ensures ls != [] ==> EndsWith(r, sep)
    ensures sep != [] ==> (r == [] <==> ls == [])
  {
    if ls == [] then []
    else
      var tail := Join(ls[1..], sep);
      assert ls[1..] != [] ==> (ls[0] + sep + tail)[|ls[0] + sep + tail| - |sep|..] == tail[|tail| - |sep|..];
      ls[0] + sep + tail
  }

  /** Joining a list with one more line in front. */
  lemma JoinCons(line: string, ls: seq<string>, sep: string)
    ensures Join([line] + ls, sep) == line + sep + Join(ls, sep)
  {
    assert ([line] + ls)[1..] == ls;
  }

  /** Joining one more element of `ls` extends the joined prefix by it and `sep`. */
  lemma JoinPrefixStep(ls: seq<string>, i: nat, sep: string)
    requires i < |ls|
    ensures Join(ls[..i + 1], sep) == Join(ls[..i], sep) + ls[i] + sep
  {
    assert ls[..i + 1] == ls[..i] + [ls[i]];
    JoinAppend(ls[..i], ls[i], sep);
  }

  /** Joining a list with one more line at the end. */
  lemma {:induction false} JoinAppend(ls: seq<string>, line: string, sep: string)
    ensures Join(ls + [line], sep) == Join(ls, sep) + line + sep
  {
    if ls == [] {
      assert ls + [line] == [line];
    } else {
      assert (ls + [line])[1..] == ls[1..] + [line];
      JoinAppend(ls[1..], line, sep);
    }
  }

  /** A character absent from every line and from the separator is absent from the output. */
  lemma {:induction false} JoinAvoids(ls: seq<string>, sep: string, c: char)
    requires c !in sep
    requires forall k :: 0 <= k < |ls| ==> c !in ls[k]
    ensures c !in Join(ls, sep)
  {
    if ls != [] {
      JoinAvoids(ls[1..], sep, c);
    }
  }

  /** The first terminator of `line + brk` is the start of `brk`. */
  lemma {:induction false} LineEndAt(line: string, brk: string)
    requires IsLine(line)
    requires brk != [] && IsTerminator(brk[0])
    ensures LineEnd(line + brk) == |line|
  {
    if line != [] {
      assert (line + brk)[1..] == line[1..] + brk;
      LineEndAt(line[1..], brk);
    }
  }

  /** Joined lines never begin with "\n" when the separator does not. */
  lemma JoinHead(ls: seq<string>, sep: string)
    requires IsLineSeparator(sep) && sep != "\n"
    requires forall k :: 0 <= k < |ls| ==> IsLine(ls[k])
    ensures Join(ls, sep) == [] || Join(ls, sep)[0] != '\n'
  {
    if ls != [] {
      var r := Join(ls, sep);
      assert r == ls[0] + sep + Join(ls[1..], sep);
      if ls[0] != [] {
        assert r[0] == ls[0][0];
      } else {
        assert r[0] == sep[0];
      }
    }
  }

  /**
   * Reading back what was written gives the same lines: `Lines` undoes
   * `Join` for terminator-free lines and any host separator.
   */
  lemma {:induction false} LinesOfJoin(ls: seq<string>, sep: string)
    requires IsLineSeparator(sep)
    requires forall k :: 0 <= k < |ls| ==> IsLine(ls[k])
    ensures Lines(Join(ls, sep)) == ls
  {
    if ls != [] {
      var tail := Join(ls[1..], sep);
      if sep == "\r" {
        JoinHead(ls[1..], sep);
      }
      NextLineAt(ls[0], sep, tail);
      LinesOfJoin(ls[1..], sep);
      HeadThenTail(ls);
    }
  }

  /** A non-empty list is its head followed by its tail. */
  lemma HeadThenTail<T>(xs: seq<T>)
    requires xs != []
    ensures [xs[0]] + xs[1..] == xs
  {
  }

  /** A line, a separator and the rest: the next line read is that line. */
  lemma NextLineAt(line: string, sep: string, tail: string)
    requires IsLine(line) && IsLineSeparator(sep)
    requires sep == "\r" ==> tail == [] || tail[0] != '\n'
    ensures NextLine(line + sep + tail) == (line, tail)
  {
    var s := line + sep + tail;
    assert s == line + (sep + tail);
    LineEndAt(line, sep + tail);
    var i := |line|;
    assert s[..i] == line;
    if sep == "\r" {
      assert s[i + 1..] == tail;
    } else if sep == "\r\n" {
      assert s[i + 2..] == tail;
    } else {
      assert s[i + 1..] == tail;
    }
  }

  /**
   * Saving and then loading keeps the lines of the text, and a second
   * save-load cycle changes nothing: the round trip holds up to the
   * normalisation of line endings to `sep`.
   */
  lemma SaveLoadRoundTrip(text: string, sep: string)
    requires IsLineSeparator(sep)
    ensures Lines(Join(Lines(text), sep)) == Lines(text)
    ensures Join(Lines(Join(Lines(text), sep)), sep) == Join(Lines(text), sep)
  {
    LinesOfJoin(Lines(text), sep);
  }
}
