/**
 * What the converter promises, stated about the model in vcf2tab.dfy: the
 * coordinate invariants and maximality of the trimming, that a row describes
 * the same edit of the reference as the VCF record, the chromosome prefix
 * and the output format.
 */
module Vcf2tabProperties {
  import opened JavaText
  import opened Vcf2tab

  // ---------------------------------------------------------------------
  // Normalisation of one alternate
  // ---------------------------------------------------------------------

  /** After trimming, the two sides share neither a first nor a last base. */
  lemma NormalizeTrimsMaximally(chromosome: string, position: int, refSeq: string, altSeq: string)
    ensures var row := Normalize(chromosome, position, refSeq, altSeq);
      (row.refSeq == [] || row.altSeq == [] || row.refSeq[0] != row.altSeq[0]) &&
      (row.refSeq == [] || row.altSeq == [] ||
       row.refSeq[|row.refSeq| - 1] != row.altSeq[|row.altSeq| - 1])
  {
    var front := CommonPrefixLength(refSeq, altSeq);
    var refRest, altRest := refSeq[front..], altSeq[front..];
    var back := CommonSuffixLength(refRest, altRest);
    var row := Normalize(chromosome, position, refSeq, altSeq);
    CommonPrefix(refSeq, altSeq, 0);
    CommonSuffix(refRest, altRest, 0);
    assert row.refSeq == refRest[..|refRest| - back];
    assert row.altSeq == altRest[..|altRest| - back];
  }

  /**
   * The trimmed sides are slices: the same number of bases, `front`, is
   * removed from the front of both, and the same number, `back`, from the
   * back of both; the row's range is the reference range narrowed by them.
   */
  lemma NormalizeSlices(chromosome: string, position: int, refSeq: string, altSeq: string)
    ensures var row := Normalize(chromosome, position, refSeq, altSeq);
      var front, back := row.start - (position - 1), position - 1 + |refSeq| - row.end;
      0 <= front && 0 <= back && front + back <= |refSeq| && front + back <= |altSeq| &&
      row.refSeq == refSeq[front..|refSeq| - back] &&
      row.altSeq == altSeq[front..|altSeq| - back]
  {
  }

  /** The texts of a row come from the record's own: no character that
      REF and ALT avoid appears in them. */
  lemma NormalizeAvoids(chromosome: string, position: int, refSeq: string, altSeq: string, c: char)
    requires c !in refSeq && c !in altSeq
    ensures var row := Normalize(chromosome, position, refSeq, altSeq);
      c !in row.refSeq && c !in row.altSeq
  {
    NormalizeSlices(chromosome, position, refSeq, altSeq);
    var row := Normalize(chromosome, position, refSeq, altSeq);
    var front, back := row.start - (position - 1), position - 1 + |refSeq| - row.end;
    SliceAvoids(refSeq, front, |refSeq| - back, c);
    SliceAvoids(altSeq, front, |altSeq| - back, c);
  }

  lemma SliceAvoids(s: string, i: nat, j: nat, c: char)
    requires i <= j <= |s| && c !in s
    ensures c !in s[i..j]
  {
    assert forall k :: 0 <= k < j - i ==> s[i..j][k] == s[i + k];
  }

  /** A pair with nothing to trim keeps its full range. */
  lemma NormalizeUntrimmed(chromosome: string, position: int, refSeq: string, altSeq: string)
    requires refSeq == [] || altSeq == [] || refSeq[0] != altSeq[0]
    requires refSeq == [] || altSeq == [] || refSeq[|refSeq| - 1] != altSeq[|altSeq| - 1]
    ensures Normalize(chromosome, position, refSeq, altSeq)
      == Row(chromosome, position - 1, position - 1 + |refSeq|, refSeq, altSeq)
  {
    assert CommonPrefixLength(refSeq, altSeq) == 0;
    assert refSeq[0..] == refSeq && altSeq[0..] == altSeq;
    assert CommonSuffixLength(refSeq, altSeq) == 0;
  }

  /**
   * Trimming a row again changes nothing: on the trimmed sides both
   * trimming loops stop at once, and the row read as a record at its own
   * 1-based position is normalised to itself.
   */
  lemma NormalizeFixedPoint(chromosome: string, position: int, refSeq: string, altSeq: string)
    ensures var row := Normalize(chromosome, position, refSeq, altSeq);
      CommonPrefixLength(row.refSeq, row.altSeq) == 0 &&
      CommonSuffixLength(row.refSeq, row.altSeq) == 0 &&
      Normalize(chromosome, row.start + 1, row.refSeq, row.altSeq) == row
  {
    var row := Normalize(chromosome, position, refSeq, altSeq);
    NormalizeTrimsMaximally(chromosome, position, refSeq, altSeq);
    NormalizeUntrimmed(chromosome, row.start + 1, row.refSeq, row.altSeq);
  }

  /** `genome` with the half-open range [start, end) replaced by `bases`. */
  function Replace(genome: string, start: nat, end: nat, bases: string): string
    requires start <= end <= |genome|
  {
    genome[..start] + bases + genome[end..]
  }

  /** The shared leading bases, as a slice of either side. */
  lemma CommonPrefixShared(r: string, a: string)
    ensures var n := CommonPrefixLength(r, a); r[..n] == a[..n]
  {
    CommonPrefix(r, a, 0);
    EqualPrefix(r, a, CommonPrefixLength(r, a));
  }

  /** The shared trailing bases, as a slice of either side. */
  lemma CommonSuffixShared(r: string, a: string)
    ensures var n := CommonSuffixLength(r, a); r[|r| - n..] == a[|a| - n..]
  {
    CommonSuffix(r, a, 0);
    EqualSuffix(r, a, CommonSuffixLength(r, a));
  }

  /** Equal leading characters make equal prefixes. */
  lemma EqualPrefix(r: string, a: string, n: nat)
    requires n <= |r| && n <= |a|
    requires forall i :: 0 <= i < n ==> r[i] == a[i]
    ensures r[..n] == a[..n]
  {
    assert forall i :: 0 <= i < n ==> r[..n][i] == a[..n][i];
  }

  /** Equal trailing characters make equal suffixes. */
  lemma EqualSuffix(r: string, a: string, n: nat)
    requires n <= |r| && n <= |a|
    requires forall i :: 0 <= i < n ==> FromEnd(r, i) == FromEnd(a, i)
    ensures r[|r| - n..] == a[|a| - n..]
  {
    var rTail, aTail := r[|r| - n..], a[|a| - n..];
    forall i | 0 <= i < n
      ensures rTail[i] == aTail[i]
    {
      assert FromEnd(r, n - 1 - i) == FromEnd(a, n - 1 - i);
    }
  }

  /**
   * The alternate is its trimmed part between the bases it shares with the
   * reference: the reference bases before the row's start and from its end on.
   */
  lemma AlternateAroundTrimmed(chromosome: string, position: int, refSeq: string, altSeq: string)
    ensures var row := Normalize(chromosome, position, refSeq, altSeq);
      altSeq == refSeq[..row.start - (position - 1)] + row.altSeq + refSeq[row.end - (position - 1)..]
  {
    var row := Normalize(chromosome, position, refSeq, altSeq);
    var front := CommonPrefixLength(refSeq, altSeq);
    var back := CommonSuffixLength(refSeq[front..], altSeq[front..]);
    CommonPrefixShared(refSeq, altSeq);
    CommonSuffixShared(refSeq[front..], altSeq[front..]);
    SharedEnds(refSeq, altSeq, front, back, row.end - (position - 1), row.altSeq);
  }

  /** A sequence is its shared prefix, its middle and its shared suffix. */
  lemma SharedEnds(refSeq: string, altSeq: string, front: nat, back: nat, endRef: nat, mid: string)
    requires front + back <= |refSeq| && front + back <= |altSeq|
    requires refSeq[..front] == altSeq[..front]
    requires refSeq[front..][|refSeq[front..]| - back..] == altSeq[front..][|altSeq[front..]| - back..]
    requires endRef == |refSeq| - back && mid == altSeq[front..|altSeq| - back]
    ensures altSeq == refSeq[..front] + mid + refSeq[endRef..]
  {
    assert refSeq[front..][|refSeq| - front - back..] == refSeq[|refSeq| - back..];
    assert altSeq[front..][|altSeq| - front - back..] == altSeq[|altSeq| - back..];
    assert altSeq == altSeq[..front] + altSeq[front..|altSeq| - back] + altSeq[|altSeq| - back..];
  }

  lemma SliceOfSlice(s: string, i: nat, j: nat, a: nat, b: nat)
    requires i <= j <= |s| && a <= b <= j - i
    ensures s[i..j][a..b] == s[i + a..i + b]
  {
    assert forall k :: 0 <= k < b - a ==> s[i..j][a..b][k] == s[i + a..i + b][k];
  }

  /** Replacing [p, q) by bases that keep genome[p..s] and genome[e..q] is
      replacing [s, e) by what lies between them. */
  lemma ReplaceInside(genome: string, p: nat, s: nat, e: nat, q: nat, bases: string, mid: string)
    requires p <= s <= e <= q <= |genome|
    requires bases == genome[p..s] + mid + genome[e..q]
    ensures Replace(genome, p, q, bases) == Replace(genome, s, e, mid)
  {
    assert genome[..s] == genome[..p] + genome[p..s];
    assert genome[e..] == genome[e..q] + genome[q..];
  }

  /**
   * Whatever reference `genome` the record is read against, the row names
   * the bases it replaces (genome[start..end] is the trimmed reference) and
   * replacing them by the trimmed alternate gives the same sequence as the
   * VCF record's own edit: REF at 1-based `position` replaced by ALT.
   */
  lemma NormalizeKeepsEdit(genome: string, chromosome: string, position: int, refSeq: string, altSeq: string)
    requires 1 <= position && position - 1 + |refSeq| <= |genome|
    requires genome[position - 1..position - 1 + |refSeq|] == refSeq
    ensures var row := Normalize(chromosome, position, refSeq, altSeq);
      0 <= row.start <= row.end <= |genome| &&
      genome[row.start..row.end] == row.refSeq &&
      Replace(genome, row.start, row.end, row.altSeq)
        == Replace(genome, position - 1, position - 1 + |refSeq|, altSeq)
  {
    var row := Normalize(chromosome, position, refSeq, altSeq);
    AlternateAroundTrimmed(chromosome, position, refSeq, altSeq);
    EditAround(genome, position - 1, row.start, row.end, refSeq, altSeq, row.refSeq, row.altSeq);
  }

  /**
   * An edit of genome[p..p + |refSeq|] whose alternate keeps the reference
   * bases before `s` and from `e` on is the edit of genome[s..e].
   */
  lemma EditAround(genome: string, p: nat, s: nat, e: nat, refSeq: string, altSeq: string,
                   midRef: string, midAlt: string)
    requires p <= s <= e <= p + |refSeq| <= |genome|
    requires refSeq == genome[p..p + |refSeq|]
    requires midRef == refSeq[s - p..e - p]
    requires altSeq == refSeq[..s - p] + midAlt + refSeq[e - p..]
    ensures genome[s..e] == midRef
    ensures Replace(genome, s, e, midAlt) == Replace(genome, p, p + |refSeq|, altSeq)
  {
    var q := p + |refSeq|;
    SliceOfSlice(genome, p, q, 0, s - p);
    SliceOfSlice(genome, p, q, s - p, e - p);
    SliceOfSlice(genome, p, q, e - p, |refSeq|);
    ReplaceInside(genome, p, s, e, q, altSeq, midAlt);
  }

  // ---------------------------------------------------------------------
  // Chromosome prefix
  // ---------------------------------------------------------------------

  /**
   * The chromosome is left as it is exactly when it already starts with
   * "chr", so prefixing twice is prefixing once: "chr1" stays "chr1".
   */
  lemma PrefixChrIdempotent(chromosome: string)
    ensures PrefixChr(chromosome) == chromosome <==> StartsWith(chromosome, "chr")
    ensures PrefixChr(PrefixChr(chromosome)) == PrefixChr(chromosome)
  {
  }

  // ---------------------------------------------------------------------
  // Output format
  // ---------------------------------------------------------------------

  /** The header reads back as its six field names (a row has five values). */
  lemma HeaderFields()
    ensures SplitAll(HeaderLine(), '\t') ==
      [FieldRegion, FieldSequenceId, FieldStartPosition, FieldEndPosition,
       FieldReferenceSequence, FieldAlternateSequence, "\n"]
  {
    SixFields(FieldRegion, FieldSequenceId, FieldStartPosition, FieldEndPosition,
              FieldReferenceSequence, FieldAlternateSequence);
  }

  /** Six tab-free texts, each followed by a tab, then the line end, split back apart. */
  lemma SixFields(a: string, b: string, c: string, d: string, e: string, f: string)
    requires '\t' !in a && '\t' !in b && '\t' !in c && '\t' !in d && '\t' !in e && '\t' !in f
    ensures SplitAll(a + "\t" + b + "\t" + c + "\t" + d + "\t" + e + "\t" + f + "\t" + "\n", '\t') ==
      [a, b, c, d, e, f, "\n"]
  {
    var r1 := a + "\t" + b;
    var r2 := r1 + "\t" + c;
    var r3 := r2 + "\t" + d;
    var r4 := r3 + "\t" + e;
    var r5 := r4 + "\t" + f;
    SplitAllWhole(a, '\t');
    SplitAllAppend(a, b, '\t');
    SplitAllAppend(r1, c, '\t');
    SplitAllAppend(r2, d, '\t');
    SplitAllAppend(r3, e, '\t');
    SplitAllAppend(r4, f, '\t');
    SplitAllAppend(r5, "\n", '\t');
  }

  /** Five tab-free texts, each followed by a tab, then the line end, split back apart. */
  lemma FiveFields(a: string, b: string, c: string, d: string, e: string)
    requires '\t' !in a && '\t' !in b && '\t' !in c && '\t' !in d && '\t' !in e
    ensures SplitAll(a + "\t" + b + "\t" + c + "\t" + d + "\t" + e + "\t" + "\n", '\t') == [a, b, c, d, e, "\n"]
  {
    var r1 := a + "\t" + b;
    var r2 := r1 + "\t" + c;
    var r3 := r2 + "\t" + d;
    var r4 := r3 + "\t" + e;
    SplitAllWhole(a, '\t');
    SplitAllAppend(a, b, '\t');
    SplitAllAppend(r1, c, '\t');
    SplitAllAppend(r2, d, '\t');
    SplitAllAppend(r3, e, '\t');
    SplitAllAppend(r4, "\n", '\t');
  }

  /**
   * A row is written as its five values, each followed by a tab, then the
   * line end; when its texts hold no tab it reads back field by field, and
   * parseInt reads back the two coordinates as the 32-bit values computed.
   */
  lemma RowFields(row: Row)
    requires '\t' !in row.chromosome && '\t' !in row.refSeq && '\t' !in row.altSeq
    ensures var fields := SplitAll(FormatRow(row), '\t');
      fields == [row.chromosome, IntToString(Int32(row.start)), IntToString(Int32(row.end)),
                 row.refSeq, row.altSeq, "\n"] &&
      ParseInt(fields[1]) == Some(Int32(row.start)) &&
      ParseInt(fields[2]) == Some(Int32(row.end))
  {
    var startText, endText := IntToString(Int32(row.start)), IntToString(Int32(row.end));
    IntToStringAvoids(Int32(row.start), '\t');
    IntToStringAvoids(Int32(row.end), '\t');
    FiveFields(row.chromosome, startText, endText, row.refSeq, row.altSeq);
    ParseIntToString(Int32(row.start));
    ParseIntToString(Int32(row.end));
  }
}
