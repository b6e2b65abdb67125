/**
 * What line2tab does with one whole line: which lines it skips, which it
 * rejects and with what exception, how many rows it writes and in what
 * order, and that every row it writes reads back field by field.
 */
module LineProperties {
  import opened JavaText
  import opened Vcf2tab
  import opened Vcf2tabProperties

  /**
   * A line that is empty, or whose first column is empty while some column
   * is not, has an empty chromosome: it is skipped without output.
   */
  lemma EmptyChromosomeSkipped(line: string)
    requires line == [] || (line[0] == '\t' && exists i :: 0 <= i < |line| && line[i] != '\t')
    ensures LineRows(line) == Ok([])
    ensures LineOutput(line) == Ok([])
  {
    SplitEmpty(line, '\t');
    var columns := Split(line, '\t');
    if '\t' in line {
      assert SplitAll(line, '\t')[0] == "";
      assert columns[0] == SplitAll(line, '\t')[0];
    }
  }

  /**
   * Split on tabs leaves no column at all exactly when the line is made only
   * of tabs; reading the chromosome then throws, and only then.
   */
  lemma OnlyTabsFails(line: string)
    ensures LineRows(line) == Err(MissingColumn(ColumnChromosome)) <==>
      (line != [] && forall i :: 0 <= i < |line| ==> line[i] == '\t')
  {
    SplitEmpty(line, '\t');
  }

  /**
   * A line without a tab is a single column: a non-empty one, such as a
   * '#' line after the leading ones, throws on the missing position column.
   */
  lemma SingleColumnFails(line: string)
    requires line != [] && '\t' !in line
    ensures LineRows(line) == Err(MissingColumn(ColumnPosition))
  {
  }

  /**
   * line2tab throws exactly when split leaves no column at all, or when the
   * chromosome is not empty and the line lacks one of the five columns or
   * has a position that parseInt rejects.
   */
  lemma LineFailsIff(line: string)
    ensures var columns := Split(line, '\t');
      LineRows(line).Err? <==>
        |columns| == 0 ||
        (columns[ColumnChromosome] != "" &&
         (|columns| <= ColumnAltSequence || ParseInt(columns[ColumnPosition]).None?))
  {
  }

  /** A line with a chromosome and a position that parseInt rejects throws on it. */
  lemma BadPositionFails(line: string)
    requires |Split(line, '\t')| > ColumnPosition && Split(line, '\t')[ColumnChromosome] != ""
    requires ParseInt(Split(line, '\t')[ColumnPosition]).None?
    ensures LineRows(line) == Err(BadPosition(Split(line, '\t')[ColumnPosition]))
  {
  }

  /**
   * A line with a chromosome, a position that parses if it is there, and
   * fewer than five columns throws on the first column it lacks.
   */
  lemma MissingColumnFails(line: string)
    requires var columns := Split(line, '\t');
      0 < |columns| <= ColumnAltSequence && columns[ColumnChromosome] != "" &&
      (|columns| > ColumnPosition ==> ParseInt(columns[ColumnPosition]).Some?)
    ensures var n := |Split(line, '\t')|;
      LineRows(line) == Err(MissingColumn(
        if n <= ColumnPosition then ColumnPosition
        else if n <= ColumnRefSequence then ColumnRefSequence
        else ColumnAltSequence))
  {
  }

  /**
   * With five columns, a chromosome and a position that parses, a line gives
   * one row per piece of the ALT column split on ',', in order, each the
   * normalisation of that alternate against REF at the position, on the
   * chromosome with "chr" in front (SplitKeepsAll states that an ALT column
   * that is not empty and does not end with ',' loses no alternate).
   */
  lemma AlternatesInOrder(line: string)
    requires |Split(line, '\t')| > ColumnAltSequence
    requires Split(line, '\t')[ColumnChromosome] != ""
    requires ParseInt(Split(line, '\t')[ColumnPosition]).Some?
    ensures var columns := Split(line, '\t');
      var alternates := Split(columns[ColumnAltSequence], ',');
      LineRows(line).Ok? && |LineRows(line).value| == |alternates| &&
      forall i :: 0 <= i < |alternates| ==>
        LineRows(line).value[i] ==
          Normalize(PrefixChr(columns[ColumnChromosome]), ParseInt(columns[ColumnPosition]).value,
                    columns[ColumnRefSequence], alternates[i])
  {
  }

  /** The chromosome column is written tab-free, with "chr" in front. */
  lemma PrefixChrAvoids(chromosome: string, c: char)
    requires c !in chromosome && c !in "chr"
    ensures c !in PrefixChr(chromosome)
  {
    if !StartsWith(chromosome, "chr") {
      assert forall i :: 0 <= i < |"chr" + chromosome| ==>
        ("chr" + chromosome)[i] == if i < 3 then "chr"[i] else chromosome[i - 3];
    }
  }

  /**
   * Every row of a line starts with a chromosome named "chr…", and the text
   * written for it splits on tabs back into the five values of the row,
   * the coordinates reading back with parseInt as the 32-bit values computed.
   */
  lemma RowsReadBack(line: string)
    requires LineRows(line).Ok?
    ensures var rows := LineRows(line).value;
      var texts := LineOutput(line).value;
      |texts| == |rows| &&
      forall i :: 0 <= i < |rows| ==>
        StartsWith(rows[i].chromosome, "chr") &&
        SplitAll(texts[i], '\t') ==
          [rows[i].chromosome, IntToString(Int32(rows[i].start)), IntToString(Int32(rows[i].end)),
           rows[i].refSeq, rows[i].altSeq, "\n"] &&
        ParseInt(SplitAll(texts[i], '\t')[1]) == Some(Int32(rows[i].start)) &&
        ParseInt(SplitAll(texts[i], '\t')[2]) == Some(Int32(rows[i].end))
  {
    var columns := Split(line, '\t');
    var rows := LineRows(line).value;
    if rows != [] {
      var chromosome := PrefixChr(columns[ColumnChromosome]);
      var alternates := Split(columns[ColumnAltSequence], ',');
      PrefixChrAvoids(columns[ColumnChromosome], '\t');
      SplitAvoids(columns[ColumnAltSequence], ',', '\t');
      forall i | 0 <= i < |rows|
        ensures '\t' !in rows[i].chromosome && '\t' !in rows[i].refSeq && '\t' !in rows[i].altSeq
      {
        NormalizeAvoids(chromosome, ParseInt(columns[ColumnPosition]).value,
                        columns[ColumnRefSequence], alternates[i], '\t');
      }
      forall i | 0 <= i < |rows|
        ensures SplitAll(FormatRow(rows[i]), '\t') ==
          [rows[i].chromosome, IntToString(Int32(rows[i].start)), IntToString(Int32(rows[i].end)),
           rows[i].refSeq, rows[i].altSeq, "\n"]
        ensures ParseInt(SplitAll(FormatRow(rows[i]), '\t')[1]) == Some(Int32(rows[i].start))
        ensures ParseInt(SplitAll(FormatRow(rows[i]), '\t')[2]) == Some(Int32(rows[i].end))
      {
        RowFields(rows[i]);
      }
    }
  }

  /**
   * A line of five tab-free, non-empty-ended columns is split into exactly
   * those columns: it throws on a position that does not parse, and
   * otherwise gives the rows of its alternates.
   */
  lemma FiveColumnLine(chromosome: string, pos: string, id: string, refSeq: string, alt: string)
    requires '\t' !in chromosome && '\t' !in pos && '\t' !in id && '\t' !in refSeq && '\t' !in alt
    requires chromosome != [] && alt != []
    ensures var line := chromosome + "\t" + pos + "\t" + id + "\t" + refSeq + "\t" + alt;
      LineRows(line) == match ParseInt(pos)
        case None => Err(BadPosition(pos))
        case Some(position) => Ok(AlternateRows(PrefixChr(chromosome), position, refSeq, Split(alt, ',')))
  {
    FiveColumns(chromosome, pos, id, refSeq, alt);
  }

  /** Five tab-free columns joined by tabs, the last one not empty, split back apart. */
  lemma FiveColumns(a: string, b: string, c: string, d: string, e: string)
    requires '\t' !in a && '\t' !in b && '\t' !in c && '\t' !in d && '\t' !in e && e != []
    ensures Split(a + "\t" + b + "\t" + c + "\t" + d + "\t" + e, '\t') == [a, b, c, d, e]
  {
    var r1 := a + "\t" + b;
    var r2 := r1 + "\t" + c;
    var r3 := r2 + "\t" + d;
    var r4 := r3 + "\t" + e;
    SplitAllWhole(a, '\t');
    SplitAllAppend(a, b, '\t');
    SplitAllAppend(r1, c, '\t');
    SplitAllAppend(r2, d, '\t');
    SplitAllAppend(r3, e, '\t');
    assert r4[|r4| - 1] == e[|e| - 1];
    SplitKeepsAll(r4, '\t');
  }

  /** Two alternates separated by a comma are split into those two. */
  lemma TwoAlternates(first: string, second: string)
    requires ',' !in first && ',' !in second && second != []
    ensures Split(first + "," + second, ',') == [first, second]
  {
    SplitAllWhole(first, ',');
    SplitAllAppend(first, second, ',');
    var s := first + "," + second;
    assert s[|s| - 1] == second[|second| - 1];
    SplitKeepsAll(s, ',');
  }

  // ---------------------------------------------------------------------
  // The examples of the class comment, at any position: a substitution,
  // a multi-allelic site, an insertion and a deletion with their anchor base
  // ---------------------------------------------------------------------

  /** A single-base substitution keeps its one-base range. */
  lemma Substitution(chromosome: string, position: int, r: char, a: char)
    requires r != a
    ensures Normalize(chromosome, position, [r], [a]) == Row(chromosome, position - 1, position, [r], [a])
  {
  }

  /** Each alternate of a multi-allelic site gets its own row, in order. */
  lemma MultiAllelic(chromosome: string, position: int, r: char, a: char, b: char)
    requires r != a && r != b
    ensures AlternateRows(chromosome, position, [r], [[a], [b]]) ==
      [Row(chromosome, position - 1, position, [r], [a]), Row(chromosome, position - 1, position, [r], [b])]
  {
    Substitution(chromosome, position, r, a);
    Substitution(chromosome, position, r, b);
  }

  /**
   * An insertion after its anchor base loses the anchor: an empty reference
   * at the empty range just after it (the class comment gives 9-10 for
   * position 10; the code gives 10-10).
   */
  lemma Insertion(chromosome: string, position: int, anchor: char, inserted: char)
    ensures Normalize(chromosome, position, [anchor], [anchor, inserted]) ==
      Row(chromosome, position, position, "", [inserted])
  {
  }

  /**
   * A deletion after its anchor base loses the anchor: the deleted base and
   * its own one-base range (the class comment gives 10-10 for position 10;
   * the code gives 10-11).
   */
  lemma Deletion(chromosome: string, position: int, anchor: char, deleted: char)
    ensures Normalize(chromosome, position, [anchor, deleted], [anchor]) ==
      Row(chromosome, position, position + 1, [deleted], "")
  {
  }
}
