# Vcf2tab in Dafny

This is a model of the VCF-to-tab converter `Vcf2tab`, with proofs of what
it does. The converter reads a VCF file and writes a header line. Then, for
each data line, it writes one tab-separated row per alternate allele. A row
holds:

- the chromosome, with `chr` in front;
- a 0-based start (inclusive) and end (exclusive) position;
- the reference bases and the alternate bases.

The VCF record's 1-based position and REF length give the starting range
`[position - 1, position - 1 + |REF|)`. The bases that REF and the
alternate share at the front are then trimmed, which moves the start
forward. Finally the bases they share at the back of what is left are
trimmed, which moves the end back.

The model has three parts:

- `java_text.dfy` (module `JavaText`): the Java library behaviour the
  converter depends on. This covers `String.startsWith`, `String.split`
  with a one-character separator (trailing empty pieces are dropped), and
  `Integer.parseInt`. It also covers the decimal text of an `int`
  concatenated into a string, and Java's 32-bit wrap-around of `int`
  arithmetic.
- `vcf2tab.dfy` (module `Vcf2tab`): the converter.
  - `printHeader` becomes `PrintHeader`.
  - `line2tab` becomes `Line2Tab`, with its alternate loop
    (`WriteAlternates`) and its two trimming loops (`TrimLeading`,
    `TrimTrailing`).
  - `file2tab` becomes `File2Tab`, with its comment loop (`SkipComments`)
    and its reading loop (`ConvertDataLines`).
  - Each method is proved equal to a specification function of its
    inputs:
    - `TrimLeading` and `TrimTrailing` to the slices given by
      `CommonPrefixLength` and `CommonSuffixLength`.
    - `TrimAlternate` to `Normalize`.
    - `WriteAlternates` to `FormatRows(AlternateRows(..))`.
    - `Line2Tab` to `LineOutput`.
    - `SkipComments` to `LeadingComments`.
    - `ConvertDataLines` to `Collect(LineOutputs(..))`.
    - `File2Tab` to `Convert`.
    - `PrintHeader` appends `HeaderLine()`.
- `vcf2tab_properties.dfy`, `line_properties.dfy` and
  `driver_properties.dfy`: properties of those functions. They cover one
  alternate, one line and one whole file.

The input file is a sequence of lines without their terminators. The
output is the sequence of strings written, in order. An exception becomes
a `Failure` value:

- `MissingColumn(i)` is the `ArrayIndexOutOfBoundsException` on
  `columns[i]`.
- `BadPosition` is the `NumberFormatException` of `parseInt`.
- `NoDataLine` is the `NullPointerException` raised when nothing but `#`
  lines is read.

A conversion ends in a `Run`: what was written, plus the failure that
stopped it, if any.

Points where the model follows the code rather than the class comment, or
where the code behaves in a way that is easy to miss:

- **Insertions and deletions.** The class comment's example table
  (Vcf2tab.java:41-48) gives `9-10` for the insertion `A`→`AA` at position
  10 and `10-10` for the deletion `AA`→`A`. The code gives `10 10 "" A`
  and `10 11 A ""`, which is the correct half-open range for each edit.
  The model follows the code (`LineProperties.Insertion`,
  `LineProperties.Deletion`).
- **Each alternate is trimmed against the untrimmed REF.** The back is
  trimmed only from what the front trimming left.
- **The header has six fields, a row has five values.** The header names
  six fields (region, sequence id, start, end, ref, alt), but a row writes
  only five values (chromosome, start, end, ref, alt). Both end in a tab
  and then `\n`.
- **Lines that `split` drops.** Split drops trailing empty pieces:
  - An empty ALT at the end of a line is no column at all, so it throws
    `MissingColumn(4)`.
  - An ALT made only of commas gives no alternate and writes nothing.
  - A line made only of tabs has no column 0 and throws.
  - An empty line, or one whose first column is empty, is skipped.
- **A `#` line after the first data line is not skipped.** It is handed to
  `line2tab`. Without a tab it is a single column, so `line2tab` throws
  on the position column.
- **A blank line among the leading `#` lines ends the skip.** It counts as
  the first data line, and `line2tab` skips it without output. Every `#`
  line after it is handed to `line2tab`, and a `#` line without a tab then
  throws on the position column (`DriverProperties.CommentAfterSilentLine`).
- **Files with no data line.** A file with nothing but `#` lines (the
  empty file included) throws once the header is written.

## Model

| member | source | states |
|---|---|---|
| JavaText.Int32 | src/main/java/it/iit/genomics/cru/genomics/misc/vcf/Vcf2tab.java:156 | the `int` value computed is in the 32-bit range and equals the exact value whenever that is in range |
| JavaText.Int32Congruent | src/main/java/it/iit/genomics/cru/genomics/misc/vcf/Vcf2tab.java:156 | the `int` value differs from the exact value by a multiple of 2^32; with the range, this is Java's wrap-around |
| JavaText.WrapOnce | src/main/java/it/iit/genomics/cru/genomics/misc/vcf/Vcf2tab.java:156 | wrapping a value already wrapped, moved by any amount, gives the wrap of the exact sum: one wrap when written equals Java's wrap after every `+`, `-`, `++` and `--` |
| JavaText.StartsWith | src/main/java/it/iit/genomics/cru/genomics/misc/vcf/Vcf2tab.java:148 | a string that starts with a prefix is that prefix followed by the rest of it |
| JavaText.StartsWithAppend | src/main/java/it/iit/genomics/cru/genomics/misc/vcf/Vcf2tab.java:148 | a prefix followed by anything starts with that prefix: with StartsWith, the two directions of `startsWith` |
| JavaText.SplitAll | src/main/java/it/iit/genomics/cru/genomics/misc/vcf/Vcf2tab.java:140 | the string splits into one more piece than it has separators, and no piece holds the separator |
| JavaText.SplitAllJoin | src/main/java/it/iit/genomics/cru/genomics/misc/vcf/Vcf2tab.java:140 | the pieces, joined back with the separator, give the string: splitting loses nothing before its trailing empty pieces are dropped |
| JavaText.DropTrailingEmpty | src/main/java/it/iit/genomics/cru/genomics/misc/vcf/Vcf2tab.java:140 | split's result is a prefix of the pieces and does not end in an empty piece; every piece it drops is empty |
| JavaText.Split | src/main/java/it/iit/genomics/cru/genomics/misc/vcf/Vcf2tab.java:140 | no column or alternate that split returns contains the separator |
| JavaText.SplitEmpty | src/main/java/it/iit/genomics/cru/genomics/misc/vcf/Vcf2tab.java:140-142 | split returns no piece exactly when the string is non-empty and made only of separators |
| JavaText.SplitKeepsAll | src/main/java/it/iit/genomics/cru/genomics/misc/vcf/Vcf2tab.java:168 | a non-empty string that does not end with the separator keeps every piece, one per separator plus one |
| JavaText.SplitAllWhole | src/main/java/it/iit/genomics/cru/genomics/misc/vcf/Vcf2tab.java:140 | a string without the separator is one piece |
| JavaText.SplitAllAfter | src/main/java/it/iit/genomics/cru/genomics/misc/vcf/Vcf2tab.java:140 | a separator-free piece, then the separator, splits off as the first piece |
| JavaText.SplitAllAppend | src/main/java/it/iit/genomics/cru/genomics/misc/vcf/Vcf2tab.java:140 | a separator and a separator-free piece, appended, add that piece as the last one |
| JavaText.SplitAllLastNonEmpty | src/main/java/it/iit/genomics/cru/genomics/misc/vcf/Vcf2tab.java:168 | a string that does not end with the separator has a non-empty last piece |
| JavaText.SplitAllOnlySeparators | src/main/java/it/iit/genomics/cru/genomics/misc/vcf/Vcf2tab.java:140 | a string made only of separators has only empty pieces |
| JavaText.SplitAllNonEmptyPiece | src/main/java/it/iit/genomics/cru/genomics/misc/vcf/Vcf2tab.java:140 | a character other than the separator lands in some non-empty piece |
| JavaText.SplitAllAvoids | src/main/java/it/iit/genomics/cru/genomics/misc/vcf/Vcf2tab.java:168 | a character absent from the string is absent from every piece |
| JavaText.SplitAvoids | src/main/java/it/iit/genomics/cru/genomics/misc/vcf/Vcf2tab.java:168 | the same for split's result: an alternate holds no tab when the ALT column holds none |
| JavaText.ParseInt | src/main/java/it/iit/genomics/cru/genomics/misc/vcf/Vcf2tab.java:152 | a position that parses is a 32-bit value read from a non-empty text |
| JavaText.DigitsValue | src/main/java/it/iit/genomics/cru/genomics/misc/vcf/Vcf2tab.java:152 | a string of decimal digits has a non-negative value (NatToStringValue gives its inverse) |
| JavaText.DigitChar | src/main/java/it/iit/genomics/cru/genomics/misc/vcf/Vcf2tab.java:193-194 | the digit character written for a value below ten denotes that value |
| JavaText.NatToString | src/main/java/it/iit/genomics/cru/genomics/misc/vcf/Vcf2tab.java:193-194 | a number is written as decimal digits, never with a leading zero except for zero itself |
| JavaText.IntToString | src/main/java/it/iit/genomics/cru/genomics/misc/vcf/Vcf2tab.java:193-194 | a coordinate is written as digits, with a minus sign only in front |
| JavaText.NatToStringValue | src/main/java/it/iit/genomics/cru/genomics/misc/vcf/Vcf2tab.java:193-194 | the digits written denote the number |
| JavaText.ParseIntToString | src/main/java/it/iit/genomics/cru/genomics/misc/vcf/Vcf2tab.java:152 | parseInt reads back the text written for every 32-bit value: the two are inverse |
| JavaText.IntToStringAvoids | src/main/java/it/iit/genomics/cru/genomics/misc/vcf/Vcf2tab.java:192-196 | the text of a coordinate holds no tab, so it cannot run into the next field |
| Vcf2tab.PrintHeader | src/main/java/it/iit/genomics/cru/genomics/misc/vcf/Vcf2tab.java:81-91 | exactly the header line, once, is appended to the output |
| Vcf2tab.HeaderLine | src/main/java/it/iit/genomics/cru/genomics/misc/vcf/Vcf2tab.java:82-90 | the header is a non-empty line ending in the line end; HeaderFields gives its fields |
| Vcf2tabProperties.HeaderFields | src/main/java/it/iit/genomics/cru/genomics/misc/vcf/Vcf2tab.java:55-60 | the header splits on tabs into its six field names, in order, then the line end |
| Vcf2tabProperties.SixFields | src/main/java/it/iit/genomics/cru/genomics/misc/vcf/Vcf2tab.java:82-90 | six tab-free texts, each followed by a tab, then the line end, split back into those texts |
| Vcf2tab.PrefixChr | src/main/java/it/iit/genomics/cru/genomics/misc/vcf/Vcf2tab.java:148-150 | the chromosome written starts with "chr" and ends with the chromosome read, at most three characters longer |
| Vcf2tabProperties.PrefixChrIdempotent | src/main/java/it/iit/genomics/cru/genomics/misc/vcf/Vcf2tab.java:148-150 | the chromosome is unchanged exactly when it already starts with "chr"; prefixing twice is prefixing once |
| LineProperties.PrefixChrAvoids | src/main/java/it/iit/genomics/cru/genomics/misc/vcf/Vcf2tab.java:148-150 | prefixing adds no tab |
| Vcf2tab.CommonPrefixLength | src/main/java/it/iit/genomics/cru/genomics/misc/vcf/Vcf2tab.java:175 | the count of shared leading bases fits in both sides |
| Vcf2tab.PrefixRun | src/main/java/it/iit/genomics/cru/genomics/misc/vcf/Vcf2tab.java:175 | the scan from `k` ends at or after `k`, within both sides |
| Vcf2tab.CommonPrefix | src/main/java/it/iit/genomics/cru/genomics/misc/vcf/Vcf2tab.java:175 | the count is the longest run of equal leading bases: all before it are equal, and the next differ if both exist |
| Vcf2tab.CommonSuffixLength | src/main/java/it/iit/genomics/cru/genomics/misc/vcf/Vcf2tab.java:181 | the count of shared trailing bases fits in both sides |
| Vcf2tab.SuffixRun | src/main/java/it/iit/genomics/cru/genomics/misc/vcf/Vcf2tab.java:181 | the scan from the ends ends at or after `k`, within both sides |
| Vcf2tab.CommonSuffix | src/main/java/it/iit/genomics/cru/genomics/misc/vcf/Vcf2tab.java:181 | the count is the longest run of equal trailing bases |
| Vcf2tab.Normalize | src/main/java/it/iit/genomics/cru/genomics/misc/vcf/Vcf2tab.java:156-189 | the row keeps the chromosome; its range lies within the record's 0-based range, and its length is that of the trimmed REF; ALT and REF lengths keep their difference |
| Vcf2tab.TrimAlternate | src/main/java/it/iit/genomics/cru/genomics/misc/vcf/Vcf2tab.java:169-189 | one iteration of the alternate loop yields the normalised row |
| Vcf2tab.TrimLeading | src/main/java/it/iit/genomics/cru/genomics/misc/vcf/Vcf2tab.java:175-179 | the first loop removes exactly the shared leading bases and moves the start forward by their count |
| Vcf2tab.TrimTrailing | src/main/java/it/iit/genomics/cru/genomics/misc/vcf/Vcf2tab.java:181-185 | the second loop removes exactly the shared trailing bases and moves the end back by their count |
| Vcf2tabProperties.NormalizeTrimsMaximally | src/main/java/it/iit/genomics/cru/genomics/misc/vcf/Vcf2tab.java:175-185 | after trimming, REF and ALT share neither a first nor a last base when both are non-empty |
| Vcf2tabProperties.NormalizeSlices | src/main/java/it/iit/genomics/cru/genomics/misc/vcf/Vcf2tab.java:170-185 | the same number of bases is cut from the front of both sides, and the same number from the back; the range narrows by those counts |
| Vcf2tabProperties.NormalizeAvoids | src/main/java/it/iit/genomics/cru/genomics/misc/vcf/Vcf2tab.java:177-184 | the trimmed texts hold no character that REF and ALT avoid |
| Vcf2tabProperties.NormalizeUntrimmed | src/main/java/it/iit/genomics/cru/genomics/misc/vcf/Vcf2tab.java:170-185 | a pair with no shared first or last base keeps its full range and texts |
| Vcf2tabProperties.NormalizeFixedPoint | src/main/java/it/iit/genomics/cru/genomics/misc/vcf/Vcf2tab.java:175-185 | trimming is idempotent: both loops stop at once on a trimmed pair, and re-normalising the row at its own position gives it back |
| Vcf2tabProperties.CommonPrefixShared | src/main/java/it/iit/genomics/cru/genomics/misc/vcf/Vcf2tab.java:175-179 | the bases removed at the front are equal on both sides |
| Vcf2tabProperties.CommonSuffixShared | src/main/java/it/iit/genomics/cru/genomics/misc/vcf/Vcf2tab.java:181-185 | the bases removed at the back are equal on both sides |
| Vcf2tabProperties.AlternateAroundTrimmed | src/main/java/it/iit/genomics/cru/genomics/misc/vcf/Vcf2tab.java:175-185 | the alternate is the REF bases before the row's start, then the trimmed alternate, then the REF bases from the row's end: nothing is lost |
| Vcf2tabProperties.NormalizeKeepsEdit | src/main/java/it/iit/genomics/cru/genomics/misc/vcf/Vcf2tab.java:36-39 | on any genome holding REF at the position, the row's range holds the trimmed REF, and replacing it by the trimmed ALT gives the same genome as the VCF edit |
| Vcf2tabProperties.EditAround | src/main/java/it/iit/genomics/cru/genomics/misc/vcf/Vcf2tab.java:36-39 | an edit whose alternate keeps the reference bases around an inner range is the edit of that inner range |
| Vcf2tab.FormatRows | src/main/java/it/iit/genomics/cru/genomics/misc/vcf/Vcf2tab.java:191-198 | one written string per row |
| Vcf2tab.FormatRow | src/main/java/it/iit/genomics/cru/genomics/misc/vcf/Vcf2tab.java:191-198 | a row's text starts with its chromosome and a tab and ends with the line end; RowFields gives every field |
| Vcf2tabProperties.RowFields | src/main/java/it/iit/genomics/cru/genomics/misc/vcf/Vcf2tab.java:187-198 | a row's text splits on tabs into its five values, then the line end; parseInt reads the two coordinates back as the `int` values computed |
| Vcf2tabProperties.FiveFields | src/main/java/it/iit/genomics/cru/genomics/misc/vcf/Vcf2tab.java:191-198 | five tab-free texts, each followed by a tab, then the line end, split back into those texts |
| Vcf2tab.AlternateRows | src/main/java/it/iit/genomics/cru/genomics/misc/vcf/Vcf2tab.java:168 | one row per alternate |
| Vcf2tab.LineRows | src/main/java/it/iit/genomics/cru/genomics/misc/vcf/Vcf2tab.java:140-173 | line2tab throws only for a column that is really missing (split gave no more columns than its index) or a position that parseInt really rejects; it writes rows only for a line with all five columns (LineProperties.LineFailsIff gives the converse) |
| Vcf2tab.LineOutput | src/main/java/it/iit/genomics/cru/genomics/misc/vcf/Vcf2tab.java:138-200 | the strings line2tab writes, or an exception that is a missing column or a bad position |
| Vcf2tab.WriteAlternates | src/main/java/it/iit/genomics/cru/genomics/misc/vcf/Vcf2tab.java:168-199 | the loop writes the text of each alternate's normalised row, in order |
| Vcf2tab.Line2Tab | src/main/java/it/iit/genomics/cru/genomics/misc/vcf/Vcf2tab.java:138-200 | line2tab writes exactly the rows of the line, or throws the failure that the column reads give, in the order of the source |
| LineProperties.EmptyChromosomeSkipped | src/main/java/it/iit/genomics/cru/genomics/misc/vcf/Vcf2tab.java:140-146 | an empty line, or one whose first column is empty but not all tabs, writes nothing and throws nothing |
| LineProperties.OnlyTabsFails | src/main/java/it/iit/genomics/cru/genomics/misc/vcf/Vcf2tab.java:140-142 | reading the chromosome throws exactly when the line is non-empty and made only of tabs |
| LineProperties.LineFailsIff | src/main/java/it/iit/genomics/cru/genomics/misc/vcf/Vcf2tab.java:140-154 | line2tab throws exactly when split leaves no column, or when the chromosome is non-empty and a column is missing or the position does not parse |
| LineProperties.BadPositionFails | src/main/java/it/iit/genomics/cru/genomics/misc/vcf/Vcf2tab.java:152 | a line with a chromosome and a position that parseInt rejects throws NumberFormatException on that text, whatever its other columns |
| LineProperties.MissingColumnFails | src/main/java/it/iit/genomics/cru/genomics/misc/vcf/Vcf2tab.java:152-154 | a line with a chromosome, a parsable position if present, and fewer than five columns throws on the first column it lacks (1, 3 or 4) |
| LineProperties.SingleColumnFails | src/main/java/it/iit/genomics/cru/genomics/misc/vcf/Vcf2tab.java:152 | a non-empty line without a tab throws on the position column |
| LineProperties.AlternatesInOrder | src/main/java/it/iit/genomics/cru/genomics/misc/vcf/Vcf2tab.java:142-173 | with five columns, a chromosome and a parsable position, a line gives one row per alternate, in order, each the normalisation of that alternate against REF on the "chr" chromosome |
| LineProperties.RowsReadBack | src/main/java/it/iit/genomics/cru/genomics/misc/vcf/Vcf2tab.java:187-198 | every row written has a "chr" chromosome; its text splits back into its five values, and its coordinates parse back |
| LineProperties.FiveColumnLine | src/main/java/it/iit/genomics/cru/genomics/misc/vcf/Vcf2tab.java:140-168 | a line of five tab-free columns throws on a position that does not parse and otherwise gives the rows of its alternates |
| LineProperties.FiveColumns | src/main/java/it/iit/genomics/cru/genomics/misc/vcf/Vcf2tab.java:140 | five tab-free columns joined by tabs, the last non-empty, split back into those columns |
| LineProperties.TwoAlternates | src/main/java/it/iit/genomics/cru/genomics/misc/vcf/Vcf2tab.java:168 | two comma-free alternates joined by a comma split into those two |
| LineProperties.Substitution | src/main/java/it/iit/genomics/cru/genomics/misc/vcf/Vcf2tab.java:44 | a single-base substitution keeps its one-base range `position - 1 .. position` |
| LineProperties.MultiAllelic | src/main/java/it/iit/genomics/cru/genomics/misc/vcf/Vcf2tab.java:45-46 | two alternates of one base give two rows, in order, on the same range |
| LineProperties.Insertion | src/main/java/it/iit/genomics/cru/genomics/misc/vcf/Vcf2tab.java:47 | an insertion after its anchor base gives an empty REF on the empty range `position .. position` |
| LineProperties.Deletion | src/main/java/it/iit/genomics/cru/genomics/misc/vcf/Vcf2tab.java:48 | a deletion after its anchor base gives the deleted base on the range `position .. position + 1` |
| Vcf2tab.LeadingComments | src/main/java/it/iit/genomics/cru/genomics/misc/vcf/Vcf2tab.java:108-113 | the leading run of `#` lines: all of them start with `#`, and the line after them does not |
| Vcf2tab.SkipComments | src/main/java/it/iit/genomics/cru/genomics/misc/vcf/Vcf2tab.java:108-113 | the first loop stops on the first line not starting with `#`, or on the end of the file |
| Vcf2tab.LeadingCommentsUnique | src/main/java/it/iit/genomics/cru/genomics/misc/vcf/Vcf2tab.java:110-113 | a run of `#` lines followed by something else, or by the end, is the leading run |
| Vcf2tab.LineOutputs | src/main/java/it/iit/genomics/cru/genomics/misc/vcf/Vcf2tab.java:116-131 | definition: line2tab mapped over the data lines, in order (its ensures restate that pointwise) |
| Vcf2tab.Collect | src/main/java/it/iit/genomics/cru/genomics/misc/vcf/Vcf2tab.java:115-131 | the reading loop stops with an exception only after some line; when it runs to the end, the last line had no exception; the first line's rows fit in what is written |
| Vcf2tab.ReadLine | src/main/java/it/iit/genomics/cru/genomics/misc/vcf/Vcf2tab.java:108-111 | definition: readLine over a sequence of lines, null at the end of the input and the next line otherwise (its ensures restate the body) |
| Vcf2tab.ConvertDataLines | src/main/java/it/iit/genomics/cru/genomics/misc/vcf/Vcf2tab.java:115-131 | the reading loop writes each line's rows in turn and stops at the first exception |
| Vcf2tab.CollectStep | src/main/java/it/iit/genomics/cru/genomics/misc/vcf/Vcf2tab.java:126-131 | one iteration of that loop either ends the conversion with its exception or adds its rows |
| Vcf2tab.CollectSnoc | src/main/java/it/iit/genomics/cru/genomics/misc/vcf/Vcf2tab.java:126-131 | one more outcome after a run without an exception adds its rows or its exception |
| Vcf2tab.CollectStops | src/main/java/it/iit/genomics/cru/genomics/misc/vcf/Vcf2tab.java:126 | nothing after the first exception is written |
| Vcf2tab.File2Tab | src/main/java/it/iit/genomics/cru/genomics/misc/vcf/Vcf2tab.java:93-131 | file2tab writes the header, then the rows of every line after the leading `#` lines, up to the first exception |
| Vcf2tab.Convert | src/main/java/it/iit/genomics/cru/genomics/misc/vcf/Vcf2tab.java:93-131 | the header is always written first, and a conversion without an exception had a line after its leading `#` lines |
| DriverProperties.NoDataLineIff | src/main/java/it/iit/genomics/cru/genomics/misc/vcf/Vcf2tab.java:106-113 | the header always comes first; the conversion fails for want of a data line exactly when every line starts with `#` |
| DriverProperties.CommentsSkipped | src/main/java/it/iit/genomics/cru/genomics/misc/vcf/Vcf2tab.java:108-113 | `#` lines in front of a file change nothing in its conversion |
| DriverProperties.SameData | src/main/java/it/iit/genomics/cru/genomics/misc/vcf/Vcf2tab.java:108-131 | two files with the same lines after their leading `#` lines are converted alike |
| DriverProperties.CommentsThenOneLine | src/main/java/it/iit/genomics/cru/genomics/misc/vcf/Vcf2tab.java:106-131 | `#` lines then one accepted data line give the header and that line's rows, and nothing else |
| DriverProperties.ConvertAppend | src/main/java/it/iit/genomics/cru/genomics/misc/vcf/Vcf2tab.java:116-131 | once the data has started without an exception, later lines are appended as a stream, up to their first exception |
| DriverProperties.ConvertStops | src/main/java/it/iit/genomics/cru/genomics/misc/vcf/Vcf2tab.java:126 | after an exception thrown by line2tab, no later line changes the outcome |
| DriverProperties.EmptyChromosomeContinues | src/main/java/it/iit/genomics/cru/genomics/misc/vcf/Vcf2tab.java:144-146 | after a data line that threw nothing, a data line with an empty chromosome is as good as absent from the file |
| DriverProperties.SilentLineContinues | src/main/java/it/iit/genomics/cru/genomics/misc/vcf/Vcf2tab.java:126-131 | after a data line that threw nothing, any line on which line2tab writes nothing and throws nothing is as good as absent |
| DriverProperties.SilentLineFirst | src/main/java/it/iit/genomics/cru/genomics/misc/vcf/Vcf2tab.java:108-131 | as the first data line, a line on which line2tab writes nothing and throws nothing still ends the comment skip: the file converts to the header and the collected outcomes of every later line, `#` lines included |
| DriverProperties.EmptyChromosomeFirst | src/main/java/it/iit/genomics/cru/genomics/misc/vcf/Vcf2tab.java:108-131 | the same for a first data line with an empty chromosome, such as a blank line among the leading `#` lines |
| DriverProperties.CommentAfterSilentLine | src/main/java/it/iit/genomics/cru/genomics/misc/vcf/Vcf2tab.java:108-131 | a tab-free `#` line after such a first data line is data: the conversion stops with the header only and the exception on column 1 |
| DriverProperties.SilentOutcome | src/main/java/it/iit/genomics/cru/genomics/misc/vcf/Vcf2tab.java:126-131 | the same for the outcomes from that line on |
| DriverProperties.CollectSkipsSilent | src/main/java/it/iit/genomics/cru/genomics/misc/vcf/Vcf2tab.java:126-131 | an outcome with no rows and no exception leaves the collection as it was |
| DriverProperties.CollectAppend | src/main/java/it/iit/genomics/cru/genomics/misc/vcf/Vcf2tab.java:116-131 | collecting two runs of outcomes: the second counts only when the first had no exception |
| DriverProperties.CollectFailure | src/main/java/it/iit/genomics/cru/genomics/misc/vcf/Vcf2tab.java:126 | the exception that stops the collection is the outcome of the first line that throws: every line before it had none |
| DriverProperties.OneOutcome | src/main/java/it/iit/genomics/cru/genomics/misc/vcf/Vcf2tab.java:126 | a single line is collected into what line2tab writes for it, or its exception |
| DriverProperties.LeadingCommentsAppend | src/main/java/it/iit/genomics/cru/genomics/misc/vcf/Vcf2tab.java:110-113 | `#` lines in front add to the leading run |
| DriverProperties.LeadingCommentsExtend | src/main/java/it/iit/genomics/cru/genomics/misc/vcf/Vcf2tab.java:110-113 | lines after the first data line do not move where the data starts |
| DriverProperties.LineOutputsAppend | src/main/java/it/iit/genomics/cru/genomics/misc/vcf/Vcf2tab.java:116-131 | the outcomes of two runs of lines, one after the other |

## Left out

- `Vcf2tabApp.java`, the command-line entry point, is not part of this
  model.
- File handling is not modelled: opening the files, choosing
  `GZIPInputStream` when the name ends in "gz", `BufferedReader`'s
  splitting into lines, `BufferedWriter`, `flush` and closing. The input is
  a sequence of lines without terminators, and the output is the sequence
  of strings written. An `IOException` is not modelled.
- The progress output on `System.out` (a dot every 10 lines, a count every
  1000) and the `currentLine` counter are left out. Neither affects what
  is written to the output file.
- `first100` is left out. It is constant `false`, so its `break` never
  happens.
- `VCF_COLUMN_ID` and `VCF_COLUMN_INFO` are never read by the converter
  and have no counterpart.
- Exceptions are values (`Failure`); their messages and stack traces are
  not modelled. What was written before an exception stays in the output
  (the writer is closed, and so flushed, on the way out).
- Vcf2tab.Normalize: row coordinates are exact integers. The 32-bit
  wrap-around of Java's `int` arithmetic (lines 156 and 170-182) is taken
  once, where the coordinates are written (`Vcf2tab.FormatRow`). This
  gives the same text, because wrapping once at the end is wrapping after
  every step (`JavaText.WrapOnce`).
- JavaText.ParseInt: accepts only the ASCII digits `0`-`9`. Java's
  `parseInt` also accepts other Unicode decimal digits.
- JavaText.Split: models only splitting on one character that is not a
  regular-expression metacharacter. Tab and comma, the only separators the
  converter uses, are such characters.
- Strings are sequences of Dafny characters. Java's UTF-16 code units and
  surrogate pairs are not distinguished.
- Vcf2tab.AlternateRows: its contract states only the number of rows. The
  order and contents are stated by `LineProperties.AlternatesInOrder`.
- Vcf2tab.FormatRows: its contract states only the number of strings. The
  contents are stated by `LineProperties.RowsReadBack`.
