/** Splitting text into lines that end in a line feed. */
module TextLines {
  import opened Prelude

  /** The position of the first line feed; the length if there is none. */
  function LineEnd(s: string): (e: nat)
    ensures e <= |s| && '\n' !in s[..e]
    ensures e < |s| ==> s[e] == '\n'
  {
    if s == [] || s[0] == '\n' then 0
    else
      assert s == [s[0]] + s[1..];
      1 + LineEnd(s[1..])
  }

  /** The terminated lines of a stream, without their terminators. */
  function Lines(s: string): seq<string>
    decreases |s|
  {
    var e := LineEnd(s);
    if e == |s| then [] else [s[..e]] + Lines(s[e + 1..])
  }

  /** What follows the last terminator; at the end of the stream it is dropped. */
  function Rest(s: string): string
    decreases |s|
  {
    var e := LineEnd(s);
    if e == |s| then s else Rest(s[e + 1..])
  }

  function Terminated(lines: seq<string>, terminator: string): string {
    if lines == [] then [] else lines[0] + terminator + Terminated(lines[1..], terminator)
  }

  lemma {:induction false} LineEndIs(s: string, e: nat)
    requires e < |s| && s[e] == '\n' && '\n' !in s[..e]
    ensures LineEnd(s) == e
  {
    if e == 0 {
    } else {
      assert s[0] == s[..e][0];
      assert s[..e] == [s[0]] + s[1..][..e - 1];
      LineEndIs(s[1..], e - 1);
    }
  }

  lemma FirstLine(line: string, tail: string)
    requires '\n' !in line
    ensures Lines(line + "\n" + tail) == [line] + Lines(tail)
    ensures Rest(line + "\n" + tail) == Rest(tail)
  {
    var s := line + "\n" + tail;
    assert s[..|line|] == line && s[|line| + 1..] == tail;
    LineEndIs(s, |line|);
  }

  lemma NoLineEnd(s: string)
    requires '\n' !in s
    ensures LineEnd(s) == |s| && Lines(s) == [] && Rest(s) == s
  {
    var e := LineEnd(s);
  }

  lemma CutFirstLine(s: string)
    requires LineEnd(s) < |s|
    ensures s == s[..LineEnd(s)] + "\n" + s[LineEnd(s) + 1..]
  {
    CutAt(s, LineEnd(s));
  }

  lemma CutAt(s: string, e: nat)
    requires e < |s| && s[e] == '\n'
    ensures s == s[..e] + "\n" + s[e + 1..]
  {
  }

  lemma TerminatedCons(line: string, lines: seq<string>, terminator: string, tail: string)
    ensures Terminated([line] + lines, terminator) + tail == line + terminator + (Terminated(lines, terminator) + tail)
  {
    assert ([line] + lines)[1..] == lines;
  }

  /** Splitting loses and invents nothing. */
  lemma {:induction false} LinesRoundTrip(s: string)
    ensures Terminated(Lines(s), "\n") + Rest(s) == s
    ensures '\n' !in Rest(s) && forall l :: l in Lines(s) ==> '\n' !in l
    decreases |s|
  {
    var e := LineEnd(s);
    if e < |s| {
      var line, tail := s[..e], s[e + 1..];
      LinesRoundTrip(tail);
      CutFirstLine(s);
      TerminatedCons(line, Lines(tail), "\n", Rest(tail));
    } else {
      assert s[..e] == s;
    }
  }

  /** The split is the only one into lines and a rest without line feeds. */
  lemma {:induction false} LinesUnique(lines: seq<string>, rest: string)
    requires '\n' !in rest && forall l :: l in lines ==> '\n' !in l
    ensures Lines(Terminated(lines, "\n") + rest) == lines
    ensures Rest(Terminated(lines, "\n") + rest) == rest
  {
    if lines == [] {
      assert Terminated(lines, "\n") + rest == rest;
      NoLineEnd(rest);
    } else {
      assert lines == [lines[0]] + lines[1..];
      TerminatedCons(lines[0], lines[1..], "\n", rest);
      FirstLine(lines[0], Terminated(lines[1..], "\n") + rest);
      LinesUnique(lines[1..], rest);
    }
  }

  lemma CutAppend(line: string, tail: string, b: string)
    ensures line + "\n" + tail + b == line + "\n" + (tail + b)
  {
  }

  /** What a first line adds, with and without more text at the end. */
  lemma FirstLineAppend(line: string, tail: string, b: string, later: seq<string>)
    requires '\n' !in line && Lines(tail + b) == Lines(tail) + later
    ensures var a := line + "\n" + tail;
            && Rest(a) == Rest(tail) && Rest(a + b) == Rest(tail + b)
            && Lines(a + b) == Lines(a) + later
  {
    CutAppend(line, tail, b);
    FirstLine(line, tail);
    FirstLine(line, tail + b);
    Regroup([line], Lines(tail), later);
  }

  /** Reading on from the unterminated rest is the same as reading the whole. */
  lemma {:induction false} LinesAppend(a: string, b: string)
    ensures Lines(a + b) == Lines(a) + Lines(Rest(a) + b)
    ensures Rest(a + b) == Rest(Rest(a) + b)
    decreases |a|
  {
    if LineEnd(a) == |a| {
      NoLineEnd(a);
    } else {
      var line, tail := a[..LineEnd(a)], a[LineEnd(a) + 1..];
      CutFirstLine(a);
      LinesAppend(tail, b);
      FirstLineAppend(line, tail, b, Lines(Rest(tail) + b));
    }
  }
}
