/**
 * The coordinates file format read by `read_ogu_orf_coords_to_df`, written
 * out: a `>G...` header line per genome and one `orf<TAB>start<TAB>end` line
 * per ORF. Reading such lines back gives exactly the written rows.
 */
module CoordsFormat {
  import opened Wrappers
  import opened PyStrings
  import opened Tables
  import opened CoordsParser

  /** One ORF of a genome, as a coordinates file lists it. */
  datatype OrfCoords = OrfCoords(orf: string, start: int, end: int)

  /** An ORF id that the reader takes back unchanged: no tab, no leading whitespace, not a header. */
  predicate WritableOrf(orf: string) {
    orf != [] && !IsSpace(orf[0]) && '\t' !in orf && !StartsWith(orf, ">G")
  }

  /** A genome id that a header line carries unchanged. */
  predicate WritableGenome(g: string) {
    StartsWith(g, "G") && '>' !in g && !IsSpace(g[|g| - 1])
  }

  function RecordLine(c: OrfCoords): string {
    Join([c.orf, IntToString(c.start), IntToString(c.end)], '\t')
  }

  function HeaderLine(g: string): string {
    ">" + g
  }

  /** A record line is unchanged by stripping and is not a header. */
  lemma RecordLineShape(c: OrfCoords)
    requires WritableOrf(c.orf)
    ensures var line := RecordLine(c);
      && line == c.orf + "\t" + IntToString(c.start) + "\t" + IntToString(c.end)
      && Strip(line, IsSpace) == line && !StartsWith(line, ">G")
  {
    var a, b := IntToString(c.start), IntToString(c.end);
    var line := RecordLine(c);
    IntToStringPlain(c.end);
    assert Join([a, b], '\t') == a + "\t" + b by {
      assert [a, b][1..] == [b];
    }
    assert [c.orf, a, b][1..] == [a, b];
    assert line == c.orf + "\t" + a + "\t" + b;
    assert line[|line| - 1] == b[|b| - 1];
    StripNoop(line, IsSpace);
    if |c.orf| >= 2 {
      assert line[..2] == c.orf[..2];
    } else {
      assert line[1] == '\t';
    }
  }

  /** A record line reads back as its ORF id and its two coordinates. */
  lemma ClassifyRecordLine(c: OrfCoords)
    requires WritableOrf(c.orf)
    ensures Classify(RecordLine(c)) == Record(c.orf, Ok((c.start, c.end)))
  {
    var a, b := IntToString(c.start), IntToString(c.end);
    var line := RecordLine(c);
    RecordLineShape(c);
    assert Split(line, '\t') == [c.orf, a, b] by {
      IntToStringPlain(c.start);
      IntToStringPlain(c.end);
      SplitJoin([c.orf, a, b], '\t');
    }
    assert Span([c.orf, a, b]) == Ok((c.start, c.end)) by {
      ParseIntRoundTrip(c.start);
      ParseIntRoundTrip(c.end);
    }
  }

  /** A header line reads back as its genome id. */
  lemma ClassifyHeaderLine(g: string)
    requires WritableGenome(g)
    ensures Classify(HeaderLine(g)) == Header(g)
  {
    var line := HeaderLine(g);
    assert line[1..] == g && line[|line| - 1] == g[|g| - 1];
    assert Strip(line, IsSpace) == line by {
      StripNoop(line, IsSpace);
    }
    assert StartsWith(line, ">G") by {
      assert line[..2] == [line[0]] + g[..1];
    }
    assert RemoveChar(line, '>') == g by {
      assert RemoveChar(line, '>') == RemoveChar(g, '>');
      RemoveCharAbsent(g, '>');
    }
  }

  /** The lines of one genome: its header, then one record line per ORF. */
  function GenomeLines(g: string, orfs: seq<OrfCoords>): (lines: seq<string>)
    ensures |lines| == |orfs| + 1
  {
    [HeaderLine(g)] + seq(|orfs|, i requires 0 <= i < |orfs| => RecordLine(orfs[i]))
  }

  /** The kinds of the lines of one genome: its header, then its records. */
  lemma GenomeKinds(g: string, orfs: seq<OrfCoords>)
    requires WritableGenome(g)
    requires forall i | 0 <= i < |orfs| :: WritableOrf(orfs[i].orf)
    ensures var ks := Kinds(GenomeLines(g, orfs));
      && |ks| == |orfs| + 1 && ks[0] == Header(g)
      && forall i | 0 <= i < |orfs| :: ks[i + 1] == Record(orfs[i].orf, Ok((orfs[i].start, orfs[i].end)))
  {
    var lines := GenomeLines(g, orfs);
    var ks := Kinds(lines);
    assert ks[0] == Header(g) by {
      ClassifyHeaderLine(g);
    }
    forall i | 0 <= i < |orfs|
      ensures ks[i + 1] == Record(orfs[i].orf, Ok((orfs[i].start, orfs[i].end)))
    {
      RecordKindAt(g, orfs, i);
    }
  }

  lemma RecordKindAt(g: string, orfs: seq<OrfCoords>, i: nat)
    requires i < |orfs| && WritableOrf(orfs[i].orf)
    ensures Kinds(GenomeLines(g, orfs))[i + 1] == Record(orfs[i].orf, Ok((orfs[i].start, orfs[i].end)))
  {
    var line := GenomeLines(g, orfs)[i + 1];
    assert line == RecordLine(orfs[i]);
    ClassifyRecordLine(orfs[i]);
  }

  /** One genome of a coordinates file: its id and its ORFs, in file order. */
  datatype GenomeBlock = GenomeBlock(genome: string, orfs: seq<OrfCoords>)

  predicate WritableBlock(b: GenomeBlock) {
    WritableGenome(b.genome) && forall i | 0 <= i < |b.orfs| :: WritableOrf(b.orfs[i].orf)
  }

  /** A coordinates file: the lines of each genome block, block after block. */
  function FileLines(blocks: seq<GenomeBlock>): seq<string> {
    if blocks == [] then []
    else
      var b := blocks[|blocks| - 1];
      FileLines(blocks[..|blocks| - 1]) + GenomeLines(b.genome, b.orfs)
  }

  /** The reader's state after a block is read from state `st`: its rows appended, its genome current. */
  function Extend(st: ReaderState, b: GenomeBlock): ReaderState {
    ReaderState(
      Some(b.genome),
      st.ids + seq(|b.orfs|, i requires 0 <= i < |b.orfs| => b.genome + "_" + b.orfs[i].orf),
      st.starts + seq(|b.orfs|, i requires 0 <= i < |b.orfs| => b.orfs[i].start),
      st.ends + seq(|b.orfs|, i requires 0 <= i < |b.orfs| => b.orfs[i].end))
  }

  /** The reader's state after a whole file: each block's rows, block after block. */
  function FileState(blocks: seq<GenomeBlock>): ReaderState {
    if blocks == [] then ReaderState(None, [], [], [])
    else Extend(FileState(blocks[..|blocks| - 1]), blocks[|blocks| - 1])
  }

  /** Classifying a concatenation classifies each part. */
  lemma KindsAppend(a: seq<string>, b: seq<string>)
    ensures Kinds(a + b) == Kinds(a) + Kinds(b)
  {
    assert forall i | 0 <= i < |a| + |b| :: (a + b)[i] == (if i < |a| then a[i] else b[i - |a|]);
  }

  /** Appending one more ORF to a block appends one more row. */
  lemma ExtendSnoc(st: ReaderState, g: string, orfs: seq<OrfCoords>, j: nat)
    requires 0 < j <= |orfs|
    ensures var e := Extend(st, GenomeBlock(g, orfs[..j - 1])); var c := orfs[j - 1];
      Extend(st, GenomeBlock(g, orfs[..j]))
        == ReaderState(Some(g), e.ids + [g + "_" + c.orf], e.starts + [c.start], e.ends + [c.end])
  {
    var e := Extend(st, GenomeBlock(g, orfs[..j - 1]));
    var x := Extend(st, GenomeBlock(g, orfs[..j]));
    var c := orfs[j - 1];
    assert x.ids == e.ids + [g + "_" + c.orf];
    assert x.starts == e.starts + [c.start];
    assert x.ends == e.ends + [c.end];
  }

  /**
   * Reading a block's header and its first j records from state `st` gives
   * `st` extended by the block's first j ORFs.
   */
  lemma {:induction false} ReadBlockPrefix(pre: seq<LineKind>, st: ReaderState, b: GenomeBlock, bk: seq<LineKind>, j: nat)
    requires ParseKinds(pre) == Ok(st)
    requires |bk| == |b.orfs| + 1 && bk[0] == Header(b.genome)
    requires forall i | 0 <= i < |b.orfs| :: bk[i + 1] == Record(b.orfs[i].orf, Ok((b.orfs[i].start, b.orfs[i].end)))
    requires j <= |b.orfs|
    ensures ParseKinds(pre + bk[..j + 1]) == Ok(Extend(st, GenomeBlock(b.genome, b.orfs[..j])))
  {
    var ks := pre + bk[..j + 1];
    assert ks[|pre| + j] == bk[j];
    if j == 0 {
      assert ks[..|pre|] == pre;
      assert Extend(st, GenomeBlock(b.genome, b.orfs[..0])) == st.(genome := Some(b.genome));
    } else {
      assert ks[..|pre| + j] == pre + bk[..j];
      ReadBlockPrefix(pre, st, b, bk, j - 1);
      ExtendSnoc(st, b.genome, b.orfs, j);
    }
  }

  /** Reading a block's header and all its records from state `st` extends `st` by the whole block. */
  lemma ReadBlockKinds(pre: seq<LineKind>, st: ReaderState, b: GenomeBlock, bk: seq<LineKind>)
    requires ParseKinds(pre) == Ok(st)
    requires |bk| == |b.orfs| + 1 && bk[0] == Header(b.genome)
    requires forall i | 0 <= i < |b.orfs| :: bk[i + 1] == Record(b.orfs[i].orf, Ok((b.orfs[i].start, b.orfs[i].end)))
    ensures ParseKinds(pre + bk) == Ok(Extend(st, b))
  {
    ReadBlockPrefix(pre, st, b, bk, |b.orfs|);
    assert bk[..|b.orfs| + 1] == bk;
    assert GenomeBlock(b.genome, b.orfs[..|b.orfs|]) == b by {
      assert b.orfs[..|b.orfs|] == b.orfs;
    }
  }

  /** Reading one written block from state `st` extends `st` by the whole block. */
  lemma ReadBlock(pre: seq<LineKind>, st: ReaderState, b: GenomeBlock)
    requires ParseKinds(pre) == Ok(st)
    requires WritableBlock(b)
    ensures ParseKinds(pre + Kinds(GenomeLines(b.genome, b.orfs))) == Ok(Extend(st, b))
  {
    GenomeKinds(b.genome, b.orfs);
    ReadBlockKinds(pre, st, b, Kinds(GenomeLines(b.genome, b.orfs)));
  }

  /** Reading a written file leaves the reader in `FileState`: every block's rows, in order. */
  lemma {:induction false} ReadFileState(blocks: seq<GenomeBlock>)
    requires forall k | 0 <= k < |blocks| :: WritableBlock(blocks[k])
    ensures ParseKinds(Kinds(FileLines(blocks))) == Ok(FileState(blocks))
  {
    if blocks != [] {
      var n := |blocks| - 1;
      var b := blocks[n];
      assert forall k | 0 <= k < n :: blocks[..n][k] == blocks[k];
      ReadFileState(blocks[..n]);
      KindsAppend(FileLines(blocks[..n]), GenomeLines(b.genome, b.orfs));
      ReadBlock(Kinds(FileLines(blocks[..n])), FileState(blocks[..n]), b);
    }
  }

  /**
   * Reading a written coordinates file succeeds and gives exactly the written
   * rows: for each block in order, one row per ORF with id
   * `genome + "_" + orf` and the written start and end, and no other columns.
   */
  lemma ReadCoordsFile(blocks: seq<GenomeBlock>)
    requires forall k | 0 <= k < |blocks| :: WritableBlock(blocks[k])
    ensures var st := FileState(blocks);
      CoordsOf(FileLines(blocks)) == Ok(CoordsFrame(st.ids, st.starts, st.ends, map[]))
  {
    ReadFileState(blocks);
  }

  /**
   * Reading the lines of one genome gives one row per ORF, in order, with id
   * `genome + "_" + orf` and the written start and end.
   */
  lemma ReadGenomeLines(g: string, orfs: seq<OrfCoords>)
    requires WritableGenome(g)
    requires forall i | 0 <= i < |orfs| :: WritableOrf(orfs[i].orf)
    ensures CoordsOf(GenomeLines(g, orfs)).Ok?
    ensures var c := CoordsOf(GenomeLines(g, orfs)).value;
      && |c.ids| == |orfs| && |c.starts| == |orfs| && |c.ends| == |orfs| && c.others == map[]
      && forall i | 0 <= i < |orfs| ::
           c.ids[i] == g + "_" + orfs[i].orf && c.starts[i] == orfs[i].start && c.ends[i] == orfs[i].end
  {
    var blocks := [GenomeBlock(g, orfs)];
    assert blocks[..0] == [];
    assert FileLines(blocks) == GenomeLines(g, orfs);
    ReadCoordsFile(blocks);
  }
}
