/**
 * The VCF-to-tab converter: one VCF data line becomes one tab-terminated row
 * per alternate allele, with the 1-based inclusive VCF range turned into a
 * 0-based half-open range and the bases that the reference and the alternate
 * share at either end trimmed away. Section 1.4.1, "Fixed fields", of the
 * VCF v4.2 specification has REF and ALT of a simple insertion or deletion
 * include one base beside the event: the base before it, or the base after
 * it when the event is at position 1.
 *
 * The input file is a sequence of lines (without their line terminators) and
 * the output file a sequence of the strings written to it, in order.
 */
module Vcf2tab {
  import opened JavaText

  const FieldRegion := "region"
  const FieldSequenceId := "sequenceid"
  const FieldStartPosition := "startposition"
  const FieldEndPosition := "endposition"
  const FieldReferenceSequence := "refsequence"
  const FieldAlternateSequence := "altsequence"

  /** Columns of a VCF data line that the converter reads. */
  const ColumnChromosome: nat := 0
  const ColumnPosition: nat := 1
  const ColumnRefSequence: nat := 3
  const ColumnAltSequence: nat := 4

  /** One output row: 0-based start (inclusive) and end (exclusive), as exact integers. */
  datatype Row = Row(chromosome: string, start: int, end: int, refSeq: string, altSeq: string)

  /** The exceptions that abort a conversion. */
  datatype Failure =
    | MissingColumn(index: nat)   // ArrayIndexOutOfBoundsException on columns[index]
    | BadPosition(text: string)   // NumberFormatException from Integer.parseInt
    | NoDataLine                  // NullPointerException: no line after the '#' lines

  datatype Result<T> = Ok(value: T) | Err(failure: Failure)

  /** What a whole conversion leaves behind: the strings written, and the
      exception that stopped it, if any. */
  datatype Run = Run(output: seq<string>, failure: Option<Failure>)

  // ---------------------------------------------------------------------
  // Header and row format
  // ---------------------------------------------------------------------

  /** The header line: the six field names, each followed by a tab. */
  function HeaderLine(): (header: string)
    ensures |header| > 0 && header[|header| - 1] == '\n'
  {
    FieldRegion + "\t" + FieldSequenceId + "\t" + FieldStartPosition + "\t" +
    FieldEndPosition + "\t" + FieldReferenceSequence + "\t" + FieldAlternateSequence + "\t" + "\n"
  }

  /** printHeader: the header is written to the output. */
  method PrintHeader(output: seq<string>) returns (written: seq<string>)
    ensures written == output + [HeaderLine()]
  {
    written := output + [HeaderLine()];
  }

  /**
   * A row as written: its five values, each followed by a tab. The converter
   * computes the coordinates on `int`, so what it writes is their 32-bit
   * wrap-around (JavaText.WrapOnce: wrapping once here is wrapping after
   * every step). It is the exact value when IntMin < position and
   * position - 1 + |REF| <= IntMax.
   */
  function FormatRow(row: Row): (text: string)
    ensures StartsWith(text, row.chromosome + "\t")
    ensures text[|text| - 1] == '\n'
  {
    row.chromosome + "\t" + IntToString(Int32(row.start)) + "\t" + IntToString(Int32(row.end)) + "\t" +
    row.refSeq + "\t" + row.altSeq + "\t" + "\n"
  }

  function FormatRows(rows: seq<Row>): (lines: seq<string>)
    ensures |lines| == |rows|
  {
    seq(|rows|, i requires 0 <= i < |rows| => FormatRow(rows[i]))
  }

  // ---------------------------------------------------------------------
  // Normalisation of one reference/alternate pair
  // ---------------------------------------------------------------------

  /** The chromosome with "chr" in front, unless it already starts with it. */
  function PrefixChr(chromosome: string): (r: string)
    ensures StartsWith(r, "chr")
    ensures |chromosome| <= |r| <= |chromosome| + 3
    ensures r[|r| - |chromosome|..] == chromosome
  {
    if StartsWith(chromosome, "chr") then chromosome else "chr" + chromosome
  }

  /** Number of leading characters `r` and `a` share. */
  function CommonPrefixLength(r: string, a: string): (n: nat)
    ensures n <= |r| && n <= |a|
  {
    PrefixRun(r, a, 0)
  }

  /** The first position from `k` on where `r` and `a` differ or one of them ends. */
  function PrefixRun(r: string, a: string, k: nat): (n: nat)
    requires k <= |r| && k <= |a|
    ensures k <= n <= |r| && n <= |a|
    decreases |r| - k
  {
    if k < |r| && k < |a| && r[k] == a[k] then PrefixRun(r, a, k + 1) else k
  }

  /** The count is the longest run of equal leading characters. */
  lemma {:induction false} CommonPrefix(r: string, a: string, k: nat)
    requires k <= |r| && k <= |a|
    ensures var n := PrefixRun(r, a, k);
      (forall i :: k <= i < n ==> r[i] == a[i]) &&
      (n < |r| && n < |a| ==> r[n] != a[n])
    decreases |r| - k
  {
    if k < |r| && k < |a| && r[k] == a[k] {
      CommonPrefix(r, a, k + 1);
    }
  }

  /** The character `i` places before the last one of `s`. */
  function FromEnd(s: string, i: nat): char
    requires i < |s|
  {
    s[|s| - 1 - i]
  }

  /** Number of trailing characters `r` and `a` share. */
  function CommonSuffixLength(r: string, a: string): (n: nat)
    ensures n <= |r| && n <= |a|
  {
    SuffixRun(r, a, 0)
  }

  /** The first position from `k` on, counted from the ends, where `r` and
      `a` differ or one of them ends. */
  function SuffixRun(r: string, a: string, k: nat): (n: nat)
    requires k <= |r| && k <= |a|
    ensures k <= n <= |r| && n <= |a|
    decreases |r| - k
  {
    if k < |r| && k < |a| && FromEnd(r, k) == FromEnd(a, k) then SuffixRun(r, a, k + 1) else k
  }

  /** The count is the longest run of equal trailing characters. */
  lemma {:induction false} CommonSuffix(r: string, a: string, k: nat)
    requires k <= |r| && k <= |a|
    ensures var n := SuffixRun(r, a, k);
      (forall i :: k <= i < n ==> FromEnd(r, i) == FromEnd(a, i)) &&
      (n < |r| && n < |a| ==> FromEnd(r, n) != FromEnd(a, n))
    decreases |r| - k
  {
    if k < |r| && k < |a| && FromEnd(r, k) == FromEnd(a, k) {
      CommonSuffix(r, a, k + 1);
    }
  }

  /**
   * The row for one alternate of a record at 1-based `position`: the shared
   * leading bases are removed first, then the shared trailing bases of what
   * is left; the start moves forward by the first count and the end back by
   * the second, starting from the range [position - 1, position - 1 + |refSeq|).
   */
  function Normalize(chromosome: string, position: int, refSeq: string, altSeq: string): (row: Row)
    ensures row.chromosome == chromosome
    ensures position - 1 <= row.start <= row.end <= position - 1 + |refSeq|
    ensures row.end - row.start == |row.refSeq|
    ensures |row.altSeq| - |row.refSeq| == |altSeq| - |refSeq|
  {
    var front := CommonPrefixLength(refSeq, altSeq);
    var back := CommonSuffixLength(refSeq[front..], altSeq[front..]);
    Row(chromosome, position - 1 + front, position - 1 + |refSeq| - back,
        refSeq[front..|refSeq| - back], altSeq[front..|altSeq| - back])
  }

  /**
   * The body of the loop over alternates: the working range starts as
   * [start - 1, end) with end = start + |referenceSeq| - 1, then the two
   * trimming loops move its ends inwards.
   */
  method TrimAlternate(chromosome: string, start: int, end: int, referenceSeq: string, altSeq: string)
    returns (row: Row)
    requires end == start + |referenceSeq| - 1
    ensures row == Normalize(chromosome, start, referenceSeq, altSeq)
  {
    var curStart, curRefSeq, curAltSeq := TrimLeading(start - 1, referenceSeq, altSeq);
    var curEnd;
    curEnd, curRefSeq, curAltSeq := TrimTrailing(end, curRefSeq, curAltSeq);
    row := Row(chromosome, curStart, curEnd, curRefSeq, curAltSeq);
  }

  /** The first trimming loop: drop the shared leading bases, moving the start forward. */
  method TrimLeading(start: int, refSeq: string, altSeq: string) returns (newStart: int, refRest: string, altRest: string)
    ensures var n := CommonPrefixLength(refSeq, altSeq);
      newStart == start + n && refRest == refSeq[n..] && altRest == altSeq[n..]
  {
    newStart, refRest, altRest := start, refSeq, altSeq;
    ghost var front := CommonPrefixLength(refSeq, altSeq);
    ghost var cut := 0;
    CommonPrefix(refSeq, altSeq, 0);
    while |refRest| > 0 && |altRest| > 0 && refRest[0] == altRest[0]
      invariant 0 <= cut <= front
      invariant newStart == start + cut
      invariant refRest == refSeq[cut..] && altRest == altSeq[cut..]
      decreases |refRest|
    {
      newStart := newStart + 1;
      refRest := refRest[1..];
      altRest := altRest[1..];
      cut := cut + 1;
    }
  }

  /** The second trimming loop: drop the shared trailing bases, moving the end back. */
  method TrimTrailing(end: int, refSeq: string, altSeq: string) returns (newEnd: int, refRest: string, altRest: string)
    ensures var n := CommonSuffixLength(refSeq, altSeq);
      newEnd == end - n && refRest == refSeq[..|refSeq| - n] && altRest == altSeq[..|altSeq| - n]
  {
    newEnd, refRest, altRest := end, refSeq, altSeq;
    ghost var back := CommonSuffixLength(refSeq, altSeq);
    ghost var drop := 0;
    CommonSuffix(refSeq, altSeq, 0);
    while |refRest| > 0 && |altRest| > 0 && refRest[|refRest| - 1] == altRest[|altRest| - 1]
      invariant 0 <= drop <= back
      invariant newEnd == end - drop
      invariant refRest == refSeq[..|refSeq| - drop]
      invariant altRest == altSeq[..|altSeq| - drop]
      decreases |refRest|
    {
      newEnd := newEnd - 1;
      refRest := refRest[..|refRest| - 1];
      altRest := altRest[..|altRest| - 1];
      drop := drop + 1;
    }
    assert |refRest| > 0 && |altRest| > 0 ==>
      refRest[|refRest| - 1] == FromEnd(refSeq, drop) && altRest[|altRest| - 1] == FromEnd(altSeq, drop);
  }

  // ---------------------------------------------------------------------
  // One line
  // ---------------------------------------------------------------------

  /**
   * The rows line2tab writes for `line`, or the exception it throws. The
   * columns are read in the order the converter reads them: the chromosome
   * (an empty one skips the line), the position, the reference, the
   * alternates; each alternate is normalised against the untrimmed reference.
   */
  function LineRows(line: string): (r: Result<seq<Row>>)
    ensures r.Err? && r.failure.MissingColumn? ==> |Split(line, '\t')| <= r.failure.index
    ensures r.Err? ==> r.failure.MissingColumn? || (r.failure.BadPosition? && ParseInt(r.failure.text).None?)
    ensures r.Ok? && r.value != [] ==> |Split(line, '\t')| > ColumnAltSequence
  {
    var columns := Split(line, '\t');
    if |columns| <= ColumnChromosome then Err(MissingColumn(ColumnChromosome))
    else if columns[ColumnChromosome] == "" then Ok([])
    else if |columns| <= ColumnPosition then Err(MissingColumn(ColumnPosition))
    else match ParseInt(columns[ColumnPosition])
      case None => Err(BadPosition(columns[ColumnPosition]))
      case Some(start) =>
        if |columns| <= ColumnRefSequence then Err(MissingColumn(ColumnRefSequence))
        else if |columns| <= ColumnAltSequence then Err(MissingColumn(ColumnAltSequence))
        else
          Ok(AlternateRows(PrefixChr(columns[ColumnChromosome]), start, columns[ColumnRefSequence],
                           Split(columns[ColumnAltSequence], ',')))
  }

  /** One row per alternate, in order, each normalised against `refSeq`. */
  function AlternateRows(chromosome: string, position: int, refSeq: string, alternates: seq<string>)
    : (rows: seq<Row>)
    ensures |rows| == |alternates|
  {
    seq(|alternates|, i requires 0 <= i < |alternates| => Normalize(chromosome, position, refSeq, alternates[i]))
  }

  /** The strings line2tab writes for `line`, or the exception it throws. */
  function LineOutput(line: string): (r: Result<seq<string>>)
    ensures r.Err? ==> r.failure.MissingColumn? || r.failure.BadPosition?
  {
    match LineRows(line)
    case Ok(rows) => Ok(FormatRows(rows))
    case Err(f) => Err(f)
  }

  /** line2tab: the rows of one line, one per alternate, in order. */
  method Line2Tab(line: string) returns (result: Result<seq<string>>)
    ensures result == LineOutput(line)
  {
    var columns := Split(line, '\t');
    if |columns| <= ColumnChromosome {
      return Err(MissingColumn(ColumnChromosome));
    }
    var chromosome := columns[ColumnChromosome];
    if chromosome == "" {
      return Ok([]);
    }
    if !StartsWith(chromosome, "chr") {
      chromosome := "chr" + chromosome;
    }
    if |columns| <= ColumnPosition {
      return Err(MissingColumn(ColumnPosition));
    }
    var parsed := ParseInt(columns[ColumnPosition]);
    if parsed.None? {
      return Err(BadPosition(columns[ColumnPosition]));
    }
    var start := parsed.value;
    if |columns| <= ColumnRefSequence {
      return Err(MissingColumn(ColumnRefSequence));
    }
    var referenceSeq := columns[ColumnRefSequence];
    if |columns| <= ColumnAltSequence {
      return Err(MissingColumn(ColumnAltSequence));
    }
    var alternateSeqs := columns[ColumnAltSequence];

    var end := start + |referenceSeq| - 1;
    var written := WriteAlternates(chromosome, start, end, referenceSeq, Split(alternateSeqs, ','));
    return Ok(written);
  }

  /** The loop of line2tab over the alternates: one row each, in order. */
  method WriteAlternates(chromosome: string, start: int, end: int, referenceSeq: string, alternates: seq<string>)
    returns (written: seq<string>)
    requires end == start + |referenceSeq| - 1
    ensures written == FormatRows(AlternateRows(chromosome, start, referenceSeq, alternates))
  {
    ghost var target := FormatRows(AlternateRows(chromosome, start, referenceSeq, alternates));
    written := [];
    for i := 0 to |alternates|
      invariant written == target[..i]
    {
      var row := TrimAlternate(chromosome, start, end, referenceSeq, alternates[i]);
      var text := FormatRow(row);
      assert text == target[i];
      TakeSnoc(target, i);
      written := written + [text];
    }
    TakeAll(target);
  }

  /** A sequence is its own longest prefix. */
  lemma TakeAll<T>(s: seq<T>)
    ensures s[..|s|] == s
  {
  }

  /** A prefix grows by the next element. */
  lemma TakeSnoc<T>(s: seq<T>, n: nat)
    requires n < |s|
    ensures s[..n] + [s[n]] == s[..n + 1]
  {
  }

  // ---------------------------------------------------------------------
  // The file
  // ---------------------------------------------------------------------

  /** Length of the leading run of lines that start with '#'. */
  function LeadingComments(lines: seq<string>): (k: nat)
    ensures k <= |lines|
    ensures forall i :: 0 <= i < k ==> StartsWith(lines[i], "#")
    ensures k < |lines| ==> !StartsWith(lines[k], "#")
  {
    if lines != [] && StartsWith(lines[0], "#") then 1 + LeadingComments(lines[1..]) else 0
  }

  /** What consecutive line2tab calls write, stopping at the first exception. */
  function Collect(results: seq<Result<seq<string>>>): (run: Run)
    ensures run.failure.Some? ==> results != []
    ensures run.failure.None? && results != [] ==> results[|results| - 1].Ok?
    ensures results != [] && results[0].Ok? ==> |results[0].value| <= |run.output|
  {
    if results == [] then Run([], None)
    else match results[0]
      case Err(f) => Run([], Some(f))
      case Ok(written) =>
        var rest := Collect(results[1..]);
        Run(written + rest.output, rest.failure)
  }

  /** The outcome of line2tab on each line. */
  function LineOutputs(lines: seq<string>): (results: seq<Result<seq<string>>>)
    ensures |results| == |lines|
    ensures forall i :: 0 <= i < |lines| ==> results[i] == LineOutput(lines[i])
  {
    seq(|lines|, i requires 0 <= i < |lines| => LineOutput(lines[i]))
  }

  /**
   * file2tab: the header, then every line after the leading '#' lines, in
   * order, until line2tab throws; with no line after the '#' lines, reading
   * the missing line fails.
   */
  function Convert(lines: seq<string>): (run: Run)
    ensures |run.output| > 0 && run.output[0] == HeaderLine()
    ensures run.failure.None? ==> LeadingComments(lines) < |lines|
  {
    var k := LeadingComments(lines);
    if k == |lines| then Run([HeaderLine()], Some(NoDataLine))
    else
      var data := Collect(LineOutputs(lines[k..]));
      Run([HeaderLine()] + data.output, data.failure)
  }

  /** The next line of `lines` from `next` on, as readLine returns it. */
  function ReadLine(lines: seq<string>, next: nat): (line: Option<string>)
    ensures line.None? <==> |lines| <= next
    ensures line.Some? ==> line.value == lines[next]
  {
    if next < |lines| then Some(lines[next]) else None
  }

  /** file2tab over the lines of the input file. */
  method File2Tab(lines: seq<string>) returns (run: Run)
    ensures run == Convert(lines)
  {
    var output := PrintHeader([]);
    var strLine, next := SkipComments(lines);
    if strLine.None? {
      return Run(output, Some(NoDataLine));
    }
    var written, failure := ConvertDataLines(lines[next - 1..]);
    run := Run(output + written, failure);
  }

  /**
   * The first loop of file2tab: read lines while they start with '#'. It
   * ends on the first data line, or on the end of the input; `next` is
   * the index of the line after the one it ends on.
   */
  method SkipComments(lines: seq<string>) returns (strLine: Option<string>, next: nat)
    ensures next == LeadingComments(lines) + 1
    ensures strLine == ReadLine(lines, next - 1)
  {
    next := 0;
    strLine := ReadLine(lines, next);
    next := next + 1;
    while strLine.Some? && StartsWith(strLine.value, "#")
      invariant 1 <= next <= |lines| + 1
      invariant strLine == ReadLine(lines, next - 1)
      invariant forall i :: 0 <= i < next - 1 ==> StartsWith(lines[i], "#")
      decreases |lines| + 1 - next
    {
      strLine := ReadLine(lines, next);
      next := next + 1;
    }
    LeadingCommentsUnique(lines, next - 1);
  }

  /**
   * The reading loop of file2tab from the first data line on: line2tab on
   * each line in turn, until a line throws or the input ends.
   */
  method ConvertDataLines(data: seq<string>) returns (written: seq<string>, failure: Option<Failure>)
    ensures Run(written, failure) == Collect(LineOutputs(data))
  {
    ghost var outcomes := LineOutputs(data);
    written := [];
    var i := 0;
    while i < |data|
      invariant 0 <= i <= |data|
      invariant Collect(outcomes[..i]) == Run(written, None)
    {
      var result := Line2Tab(data[i]);
      CollectStep(outcomes, i, written);
      if result.Err? {
        return written, Some(result.failure);
      }
      written := written + result.value;
      i := i + 1;
    }
    TakeAll(outcomes);
    failure := None;
  }

  lemma {:induction false} LeadingCommentsUnique(lines: seq<string>, k: nat)
    requires k <= |lines|
    requires forall i :: 0 <= i < k ==> StartsWith(lines[i], "#")
    requires k < |lines| ==> !StartsWith(lines[k], "#")
    ensures LeadingComments(lines) == k
  {
    if k > 0 {
      LeadingCommentsUnique(lines[1..], k - 1);
    }
  }

  /**
   * One more step of the reading loop: after the outcomes so far wrote
   * `written` without an exception, the next outcome either throws, which
   * ends the whole collection, or adds its rows.
   */
  lemma CollectStep(outcomes: seq<Result<seq<string>>>, i: nat, written: seq<string>)
    requires i < |outcomes|
    requires Collect(outcomes[..i]) == Run(written, None)
    ensures outcomes[i].Err? ==> Collect(outcomes) == Run(written, Some(outcomes[i].failure))
    ensures outcomes[i].Ok? ==> Collect(outcomes[..i + 1]) == Run(written + outcomes[i].value, None)
  {
    CollectSnoc(outcomes[..i], outcomes[i]);
    TakeSnoc(outcomes, i);
    if outcomes[i].Err? {
      CollectStops(outcomes, i + 1);
    }
  }

  /** One more outcome continues a run that has not failed. */
  lemma {:induction false} CollectSnoc(results: seq<Result<seq<string>>>, last: Result<seq<string>>)
    requires Collect(results).failure.None?
    ensures Collect(results + [last]) ==
      match last
      case Err(f) => Run(Collect(results).output, Some(f))
      case Ok(written) => Run(Collect(results).output + written, None)
  {
    if results == [] {
      assert [last][1..] == [];
    } else {
      var longer := results + [last];
      assert longer[0] == results[0];
      assert longer[1..] == results[1..] + [last];
      CollectSnoc(results[1..], last);
      if last.Ok? {
        ConcatAssociative(results[0].value, Collect(results[1..]).output, last.value);
      }
    }
  }

  /** Nothing after the first exception is written. */
  lemma {:induction false} CollectStops(results: seq<Result<seq<string>>>, n: nat)
    requires n <= |results|
    requires Collect(results[..n]).failure.Some?
    ensures Collect(results) == Collect(results[..n])
  {
    assert results != [] && n > 0;
    var prefix := results[..n];
    assert prefix[0] == results[0];
    assert prefix[1..] == results[1..][..n - 1];
    if results[0].Ok? {
      CollectStops(results[1..], n - 1);
    }
  }

  lemma ConcatAssociative(a: seq<string>, b: seq<string>, c: seq<string>)
    ensures a + (b + c) == (a + b) + c
  {
  }
}
