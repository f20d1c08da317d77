/**
 Splitting the output of a child process into lines while it arrives in chunks
 (internal/scripts/lib/exec.ts).
 */
module LineSplitter {

  /** text.split('\n') */
  function SplitLines(text: string): (lines: seq<string>)
    ensures |lines| > 0
  {
    if text == "" then [""]
    else
      var rest := SplitLines(text[1..]);
      if text[0] == '\n' then [""] + rest else [[text[0]] + rest[0]] + rest[1..]
  }

  /** Two lists of lines with the last line of the first and the first line of the second made one. */
  function Rejoin(x: seq<string>, y: seq<string>): (lines: seq<string>)
    requires x != [] && y != []
    ensures lines != []
  {
    x[..|x| - 1] + [x[|x| - 1] + y[0]] + y[1..]
  }

  lemma RejoinAfterChar(c: char, x: seq<string>, y: seq<string>)
    requires x != [] && y != []
    ensures Rejoin([[c] + x[0]] + x[1..], y) == [[c] + Rejoin(x, y)[0]] + Rejoin(x, y)[1..]
  {
    if |x| == 1 {
      assert [c] + (x[0] + y[0]) == [c] + x[0] + y[0];
      assert [[c] + x[0]] + x[1..] == [[c] + x[0]];
      assert Rejoin(x, y)[1..] == y[1..];
    } else {
      var longer := [[c] + x[0]] + x[1..];
      assert longer[..|x| - 1] == [[c] + x[0]] + x[1..|x| - 1];
      assert Rejoin(x, y)[1..] == x[1..|x| - 1] + [x[|x| - 1] + y[0]] + y[1..];
    }
  }

  lemma RejoinAfterLine(x: seq<string>, y: seq<string>)
    requires x != [] && y != []
    ensures Rejoin([""] + x, y) == [""] + Rejoin(x, y)
  {
    assert ([""] + x)[..|x|] == [""] + x[..|x| - 1];
  }

  /** Splitting a text cut in two: the line across the cut is put together again. */
  lemma {:induction false} SplitAcrossCut(a: string, b: string)
    ensures SplitLines(a + b) == Rejoin(SplitLines(a), SplitLines(b))
  {
    var y := SplitLines(b);
    if a == "" {
      assert a + b == b;
      assert Rejoin([""], y) == y by { assert "" + y[0] == y[0]; }
    } else {
      hide Rejoin;
      assert (a + b)[1..] == a[1..] + b;
      SplitAcrossCut(a[1..], b);
      RejoinAfterChar(a[0], SplitLines(a[1..]), y);
      RejoinAfterLine(SplitLines(a[1..]), y);
    }
  }

  lemma RejoinPending(done: seq<string>, pending: string, lines: seq<string>)
    requires lines != []
    ensures var first := lines[0 := pending + lines[0]];
            var n := |lines| - 1;
            Rejoin(done + [pending], lines) == done + first[..n] + [first[n]]
  {
    var joined := pending + lines[0];
    var first := lines[0 := joined];
    assert Rejoin(done + [pending], lines) == done + [joined] + lines[1..] by {
      assert (done + [pending])[..|done|] == done;
    }
    assert first == [joined] + lines[1..];
    LastApart(done, first);
  }

  lemma LastApart(done: seq<string>, lines: seq<string>)
    requires lines != []
    ensures done + lines == done + lines[..|lines| - 1] + [lines[|lines| - 1]]
  {
  }

  // ---------------------------------------------------------------- what the lines are

  function JoinLines(lines: seq<string>): string {
    if lines == [] then "" else if |lines| == 1 then lines[0] else lines[0] + "\n" + JoinLines(lines[1..])
  }

  /** The lines hold no newline, and with a newline between each two of them they are the text. */
  lemma {:induction false} LinesOfText(text: string)
    ensures JoinLines(SplitLines(text)) == text
    ensures forall i | 0 <= i < |SplitLines(text)| :: '\n' !in SplitLines(text)[i]
  {
    if text != "" {
      var rest, lines := SplitLines(text[1..]), SplitLines(text);
      LinesOfText(text[1..]);
      if text[0] == '\n' {
        assert lines[1..] == rest && "" + "\n" + text[1..] == text;
      } else {
        assert lines[1..] == rest[1..] && lines[0] == [text[0]] + rest[0];
        assert JoinLines(lines) == [text[0]] + JoinLines(rest);
        forall i | 0 <= i < |lines| ensures '\n' !in lines[i] {
          assert i > 0 ==> lines[i] == rest[i];
        }
      }
    }
  }

  /** They are the only such lines. */
  lemma {:induction false} LinesAreUnique(lines: seq<string>)
    requires lines != [] && forall i | 0 <= i < |lines| :: '\n' !in lines[i]
    ensures SplitLines(JoinLines(lines)) == lines
    decreases |lines|
  {
    if |lines| == 1 {
      SplitLine(lines[0], "", []);
      assert lines[0] + "" == lines[0] && [lines[0] + ""] + [] == lines;
    } else {
      var rest := lines[1..];
      LinesAreUnique(rest);
      var later := "\n" + JoinLines(rest);
      assert later[1..] == JoinLines(rest) && SplitLines(later) == [""] + rest;
      assert lines[0] + "\n" + JoinLines(rest) == lines[0] + later;
      SplitLine(lines[0], later, rest);
      assert lines[0] + "" == lines[0] && [lines[0]] + rest == lines;
    }
  }

  lemma {:induction false} SplitLine(line: string, later: string, lines: seq<string>)
    requires '\n' !in line && SplitLines(later) == [""] + lines
    ensures SplitLines(line + later) == [line + ""] + lines
  {
    if line == "" {
      assert line + later == later;
    } else {
      assert (line + later)[1..] == line[1..] + later && line[0] != '\n';
      SplitLine(line[1..], later, lines);
      assert ([line[1..] + ""] + lines)[1..] == lines && [line[0]] + (line[1..] + "") == line + "";
    }
  }

  class LineSplitter {
    var pendingLine: string
    var emitted: seq<string>
    ghost var stream: string

    constructor ()
      ensures Valid() && stream == "" && emitted == []
    {
      pendingLine, emitted, stream := "", [], "";
    }

    /** However the stream was cut into chunks, the lines so far and the pending one are its split. */
    ghost predicate Valid()
      reads this
    {
      emitted + [pendingLine] == SplitLines(stream)
    }

    method OnData(chunk: string)
      requires Valid()
      modifies this
      ensures Valid() && stream == old(stream) + chunk
      ensures old(emitted) <= emitted
    {
      hide SplitLines;
      SplitAcrossCut(stream, chunk);
      RejoinPending(emitted, pendingLine, SplitLines(chunk));
      var lines := SplitLines(chunk);
      lines := lines[0 := pendingLine + lines[0]];
      var before, last := emitted, lines[|lines| - 1];
      lines := lines[..|lines| - 1];
      pendingLine := last;
      for i := 0 to |lines|
        invariant emitted == before + lines[..i]
        invariant stream == old(stream) && pendingLine == last
      {
        emitted := emitted + [lines[i]];
        assert lines[..i + 1] == lines[..i] + [lines[i]];
      }
      assert lines[..|lines|] == lines;
      stream := stream + chunk;
    }

    /** In the end the lines handed on are exactly those of the whole stream. */
    method OnClose()
      requires Valid()
      modifies this
      ensures emitted == SplitLines(old(stream))
    {
      emitted := emitted + [pendingLine];
    }
  }
}
