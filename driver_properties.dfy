/**
 * What file2tab does with a whole file: the header comes first, the leading
 * '#' lines are skipped, every later line goes through line2tab in order,
 * the first exception stops the conversion, and a file with no line after
 * its '#' lines fails when the missing line is read.
 */
module DriverProperties {
  import opened JavaText
  import opened Vcf2tab
  import opened LineProperties

  // ---------------------------------------------------------------------
  // Helpers about the leading '#' lines and the outcomes of line2tab
  // ---------------------------------------------------------------------

  /** '#' lines in front add to the count of leading '#' lines. */
  lemma {:induction false} LeadingCommentsAppend(comments: seq<string>, lines: seq<string>)
    requires forall i :: 0 <= i < |comments| ==> StartsWith(comments[i], "#")
    ensures LeadingComments(comments + lines) == |comments| + LeadingComments(lines)
  {
    if comments != [] {
      assert (comments + lines)[1..] == comments[1..] + lines;
      LeadingCommentsAppend(comments[1..], lines);
    } else {
      assert comments + lines == lines;
    }
  }

  /** Lines appended after the first data line do not change where the data starts. */
  lemma {:induction false} LeadingCommentsExtend(lines: seq<string>, more: seq<string>)
    requires LeadingComments(lines) < |lines|
    ensures LeadingComments(lines + more) == LeadingComments(lines)
  {
    if StartsWith(lines[0], "#") {
      assert (lines + more)[1..] == lines[1..] + more;
      LeadingCommentsExtend(lines[1..], more);
    }
  }

  /** Dropping a prefix of the first of two sequences. */
  lemma DropAppend<T>(a: seq<T>, b: seq<T>, k: nat)
    requires k <= |a|
    ensures (a + b)[k..] == a[k..] + b
  {
  }

  /** Dropping all of the first of two sequences and more. */
  lemma DropPrefix<T>(a: seq<T>, b: seq<T>, k: nat)
    requires k <= |b|
    ensures (a + b)[|a| + k..] == b[k..]
  {
  }

  lemma DropNothing<T>(a: seq<T>)
    ensures a[0..] == a
  {
  }

  /** The outcomes of two runs of lines, one after the other. */
  lemma LineOutputsAppend(lines: seq<string>, more: seq<string>)
    ensures LineOutputs(lines + more) == LineOutputs(lines) + LineOutputs(more)
  {
    var both, first, second := LineOutputs(lines + more), LineOutputs(lines), LineOutputs(more);
    assert forall i :: 0 <= i < |both| ==> both[i] == (first + second)[i];
  }

  /**
   * Collecting two runs of outcomes: the second run only counts when the
   * first one ran to its end without an exception.
   */
  lemma {:induction false} CollectAppend(first: seq<Result<seq<string>>>, second: seq<Result<seq<string>>>)
    ensures Collect(first + second) ==
      if Collect(first).failure.Some? then Collect(first)
      else Run(Collect(first).output + Collect(second).output, Collect(second).failure)
  {
    if first == [] {
      assert first + second == second;
    } else {
      assert (first + second)[0] == first[0];
      assert (first + second)[1..] == first[1..] + second;
      CollectAppend(first[1..], second);
      if first[0].Ok? && Collect(first[1..]).failure.None? {
        var rest := Collect(first[1..]).output;
        assert first[0].value + (rest + Collect(second).output) ==
               first[0].value + rest + Collect(second).output;
      }
    }
  }

  /**
   * The exception that stops the collection is the outcome of the first line
   * that throws: every line before it had none.
   */
  lemma {:induction false} CollectFailure(results: seq<Result<seq<string>>>)
    requires Collect(results).failure.Some?
    ensures exists i :: 0 <= i < |results| && results[i] == Err(Collect(results).failure.value) &&
                        forall j :: 0 <= j < i ==> results[j].Ok?
  {
    if results[0].Ok? {
      CollectFailure(results[1..]);
      var i :| 0 <= i < |results[1..]| && results[1..][i] == Err(Collect(results[1..]).failure.value) &&
               (forall j :: 0 <= j < i ==> results[1..][j].Ok?);
      assert results[i + 1] == results[1..][i];
      assert forall j :: 0 <= j < i + 1 ==> results[j].Ok? by {
        forall j | 0 < j < i + 1 ensures results[j].Ok? {
          assert results[j] == results[1..][j - 1];
        }
      }
    } else {
      assert results[0] == Err(Collect(results).failure.value);
    }
  }

  /** A single line is collected into what line2tab writes for it. */
  lemma OneOutcome(line: string)
    ensures LineOutputs([line]) == [LineOutput(line)]
    ensures Collect(LineOutputs([line])) ==
      match LineOutput(line)
      case Ok(written) => Run(written, None)
      case Err(f) => Run([], Some(f))
  {
    var results := LineOutputs([line]);
    assert results == [LineOutput(line)];
    assert results[1..] == [];
    if LineOutput(line).Ok? {
      assert LineOutput(line).value + [] == LineOutput(line).value;
    }
  }

  // ---------------------------------------------------------------------
  // Properties of file2tab
  // ---------------------------------------------------------------------

  /**
   * The conversion fails for want of a data line exactly when every line
   * starts with '#' (the empty file included); it writes the header first
   * in every case.
   */
  lemma NoDataLineIff(lines: seq<string>)
    ensures |Convert(lines).output| > 0 && Convert(lines).output[0] == HeaderLine()
    ensures Convert(lines).failure == Some(NoDataLine) <==>
      forall i :: 0 <= i < |lines| ==> StartsWith(lines[i], "#")
  {
    var k := LeadingComments(lines);
    if k < |lines| {
      var results := LineOutputs(lines[k..]);
      if Collect(results).failure.Some? {
        CollectFailure(results);
        var i :| 0 <= i < |results| && results[i] == Err(Collect(results).failure.value);
        assert results[i] == LineOutput(lines[k..][i]);
      }
    }
  }

  /** '#' lines in front of a file change nothing in what it is converted to. */
  lemma CommentsSkipped(comments: seq<string>, lines: seq<string>)
    requires forall i :: 0 <= i < |comments| ==> StartsWith(comments[i], "#")
    ensures Convert(comments + lines) == Convert(lines)
  {
    LeadingCommentsAppend(comments, lines);
    DropPrefix(comments, lines, LeadingComments(lines));
    SameData(comments + lines, lines);
  }

  /** Two files with the same lines after their leading '#' lines are converted alike. */
  lemma SameData(a: seq<string>, b: seq<string>)
    requires a[LeadingComments(a)..] == b[LeadingComments(b)..]
    ensures Convert(a) == Convert(b)
  {
  }

  /**
   * A file of '#' lines then one data line that line2tab accepts is
   * converted to the header and that line's rows, and nothing else.
   */
  lemma CommentsThenOneLine(comments: seq<string>, line: string)
    requires forall i :: 0 <= i < |comments| ==> StartsWith(comments[i], "#")
    requires !StartsWith(line, "#") && LineOutput(line).Ok?
    ensures Convert(comments + [line]) == Run([HeaderLine()] + LineOutput(line).value, None)
  {
    CommentsSkipped(comments, [line]);
    assert LeadingComments([line]) == 0;
    DropNothing([line]);
    OneOutcome(line);
  }

  /**
   * Once the data has started and no exception has come, the lines that
   * follow are converted as a stream: their rows are appended, in order,
   * up to the first exception among them.
   */
  lemma ConvertAppend(lines: seq<string>, more: seq<string>)
    requires Convert(lines).failure == None
    ensures var tail := Collect(LineOutputs(more));
      Convert(lines + more) == Run(Convert(lines).output + tail.output, tail.failure)
  {
    var k := LeadingComments(lines);
    LeadingCommentsExtend(lines, more);
    DropAppend(lines, more, k);
    LineOutputsAppend(lines[k..], more);
    CollectAppend(LineOutputs(lines[k..]), LineOutputs(more));
    ConcatAssociative([HeaderLine()], Collect(LineOutputs(lines[k..])).output, Collect(LineOutputs(more)).output);
  }

  /** After an exception thrown by line2tab, later lines are never read. */
  lemma ConvertStops(lines: seq<string>, more: seq<string>)
    requires Convert(lines).failure.Some? && Convert(lines).failure != Some(NoDataLine)
    ensures Convert(lines + more) == Convert(lines)
  {
    NoDataLineIff(lines);
    var k := LeadingComments(lines);
    LeadingCommentsExtend(lines, more);
    DropAppend(lines, more, k);
    LineOutputsAppend(lines[k..], more);
    CollectAppend(LineOutputs(lines[k..]), LineOutputs(more));
  }

  /**
   * After a data line that threw nothing, a data line with an empty
   * chromosome adds no row and does not stop the conversion: the lines
   * after it are converted as if it were absent.
   */
  lemma EmptyChromosomeContinues(lines: seq<string>, line: string, more: seq<string>)
    requires Convert(lines).failure == None
    requires line == [] || (line[0] == '\t' && exists i :: 0 <= i < |line| && line[i] != '\t')
    ensures Convert(lines + [line] + more) == Convert(lines + more)
  {
    EmptyChromosomeSkipped(line);
    SilentLineContinues(lines, line, more);
  }

  /**
   * After a data line that threw nothing, a line for which line2tab writes
   * nothing and throws nothing is as good as absent.
   */
  lemma SilentLineContinues(lines: seq<string>, line: string, more: seq<string>)
    requires Convert(lines).failure == None
    requires LineOutput(line) == Ok([])
    ensures Convert(lines + [line] + more) == Convert(lines + more)
  {
    ConcatAssociative(lines, [line], more);
    ConvertAppend(lines, [line] + more);
    ConvertAppend(lines, more);
    SilentOutcome(line, more);
  }

  /**
   * As the first data line, a line for which line2tab writes nothing and
   * throws nothing still ends the comment skip: every line after it, '#'
   * lines included, is handed to line2tab.
   */
  lemma SilentLineFirst(comments: seq<string>, line: string, more: seq<string>)
    requires forall i :: 0 <= i < |comments| ==> StartsWith(comments[i], "#")
    requires !StartsWith(line, "#") && LineOutput(line) == Ok([])
    ensures var tail := Collect(LineOutputs(more));
      Convert(comments + [line] + more) == Run([HeaderLine()] + tail.output, tail.failure)
  {
    assert comments + [line] + more == comments + ([line] + more);
    CommentsSkipped(comments, [line] + more);
    assert LeadingComments([line] + more) == 0;
    DropNothing([line] + more);
    SilentOutcome(line, more);
  }

  /** The same for a first data line with an empty chromosome. */
  lemma EmptyChromosomeFirst(comments: seq<string>, line: string, more: seq<string>)
    requires forall i :: 0 <= i < |comments| ==> StartsWith(comments[i], "#")
    requires line == [] || (line[0] == '\t' && exists i :: 0 <= i < |line| && line[i] != '\t')
    ensures var tail := Collect(LineOutputs(more));
      Convert(comments + [line] + more) == Run([HeaderLine()] + tail.output, tail.failure)
  {
    EmptyChromosomeSkipped(line);
    SilentLineFirst(comments, line, more);
  }

  /**
   * So a '#' line without a tab that follows such a line is data, and
   * line2tab throws on its position column, where in front of the first
   * data line it would have been skipped (CommentsSkipped).
   */
  lemma CommentAfterSilentLine(comments: seq<string>, line: string, comment: string, more: seq<string>)
    requires forall i :: 0 <= i < |comments| ==> StartsWith(comments[i], "#")
    requires !StartsWith(line, "#") && LineOutput(line) == Ok([])
    requires StartsWith(comment, "#") && '\t' !in comment
    ensures Convert(comments + [line] + [comment] + more) ==
      Run([HeaderLine()], Some(MissingColumn(ColumnPosition)))
  {
    assert comments + [line] + [comment] + more == comments + [line] + ([comment] + more);
    SilentLineFirst(comments, line, [comment] + more);
    SingleColumnFails(comment);
    LineOutputsAppend([comment], more);
    assert LineOutputs([comment]) == [LineOutput(comment)];
    assert LineOutputs([comment] + more)[0] == Err(MissingColumn(ColumnPosition));
  }

  /** The same, for the outcomes of the lines from that one on. */
  lemma SilentOutcome(line: string, more: seq<string>)
    requires LineOutput(line) == Ok([])
    ensures Collect(LineOutputs([line] + more)) == Collect(LineOutputs(more))
  {
    LineOutputsAppend([line], more);
    assert LineOutputs([line]) == [LineOutput(line)];
    CollectSkipsSilent(LineOutputs(more));
  }

  /** An outcome that writes nothing and throws nothing leaves the collection as it was. */
  lemma CollectSkipsSilent(results: seq<Result<seq<string>>>)
    ensures Collect([Ok([])] + results) == Collect(results)
  {
    var all := [Ok([])] + results;
    assert all[1..] == results;
    assert [] + Collect(results).output == Collect(results).output;
  }
}
