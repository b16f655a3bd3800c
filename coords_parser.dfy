/**
 * Reading the OGU+ORF coordinates file (`read_ogu_orf_coords_to_df`) over the
 * lines already read from it. A line starting `>G` (after stripping) names the
 * current genome; every other line is `orf<TAB>start<TAB>end` and becomes one
 * row with id `genome + "_" + orf`.
 */
module CoordsParser {
  import opened Wrappers
  import opened PyStrings
  import opened Tables

  /** Python raises IndexError, ValueError or TypeError respectively. */
  datatype ErrorKind = MissingField(field: nat) | NotAnInteger(field: nat) | NoGenomeHeader
  datatype ParseError = ParseError(line: nat, kind: ErrorKind)

  /**
   * What one line says, once stripped: a header naming a genome, or a record
   * with its ORF id (the first tab-separated field) and either its start and
   * end or the error Python raises reading them.
   */
  datatype LineKind = Header(genome: string) | Record(orf: string, span: Result<(int, int), ErrorKind>)

  /** The per-line work of the reader: strip, test for `>G`, remove `>` or split on tabs and read two integers. */
  function Classify(line: string): (k: LineKind)
    ensures k.Header? ==> '>' !in k.genome
    ensures k.Record? ==> '\t' !in k.orf
  {
    var t := Strip(line, IsSpace);
    if StartsWith(t, ">G") then Header(RemoveChar(t, '>'))
    else
      var pieces := Split(t, '\t');
      SplitPiecesFree(t, '\t');
      Record(pieces[0], Span(pieces))
  }

  /** `int(pieces[1])` then `int(pieces[2])`, failing as Python does at the first missing or non-integer field. */
  function Span(pieces: seq<string>): (r: Result<(int, int), ErrorKind>)
    ensures r.Ok? <==> |pieces| >= 3 && ParseInt(pieces[1]).Some? && ParseInt(pieces[2]).Some?
    ensures r.Ok? ==> r.value == (ParseInt(pieces[1]).value, ParseInt(pieces[2]).value)
    ensures r.Err? ==>
      || (r.error == MissingField(1) && |pieces| < 2)
      || (r.error == NotAnInteger(1) && |pieces| >= 2 && ParseInt(pieces[1]).None?)
      || (r.error == MissingField(2) && |pieces| == 2 && ParseInt(pieces[1]).Some?)
      || (r.error == NotAnInteger(2) && |pieces| >= 3 && ParseInt(pieces[1]).Some? && ParseInt(pieces[2]).None?)
  {
    if |pieces| < 2 then Err(MissingField(1))
    else if ParseInt(pieces[1]).None? then Err(NotAnInteger(1))
    else if |pieces| < 3 then Err(MissingField(2))
    else if ParseInt(pieces[2]).None? then Err(NotAnInteger(2))
    else Ok((ParseInt(pieces[1]).value, ParseInt(pieces[2]).value))
  }

  /** Every line, classified. */
  function Kinds(lines: seq<string>): (ks: seq<LineKind>)
    ensures |ks| == |lines| && forall i | 0 <= i < |lines| :: ks[i] == Classify(lines[i])
  {
    seq(|lines|, i requires 0 <= i < |lines| => Classify(lines[i]))
  }

  datatype CoordRow = CoordRow(id: string, start: int, end: int)

  /** The row a record on line `n` yields under the current genome, or the error Python raises first. */
  function RecordRow(orf: string, span: Result<(int, int), ErrorKind>, genome: Option<string>, n: nat): (r: Result<CoordRow, ParseError>)
    ensures r.Err? ==> r.error.line == n
  {
    if span.Err? then Err(ParseError(n, span.error))
    else if genome.None? then Err(ParseError(n, NoGenomeHeader))
    else Ok(CoordRow(genome.value + "_" + orf, span.value.0, span.value.1))
  }

  /** The reader's variables: the current genome id and the three lists it appends to. */
  datatype ReaderState = ReaderState(genome: Option<string>, ids: seq<string>, starts: seq<int>, ends: seq<int>)

  /** What line number `n` does to the reader's variables. */
  function Step(st: ReaderState, kind: LineKind, n: nat): (r: Result<ReaderState, ParseError>)
    ensures r.Err? ==> kind.Record? && r.error.line == n
    ensures r.Ok? ==> var k := if kind.Record? then 1 else 0;
      && st.ids <= r.value.ids && st.starts <= r.value.starts && st.ends <= r.value.ends
      && |r.value.ids| == |st.ids| + k && |r.value.starts| == |st.starts| + k && |r.value.ends| == |st.ends| + k
    ensures kind.Header? ==> r.Ok? && r.value.genome == Some(kind.genome)
  {
    match kind
    case Header(g) => Ok(st.(genome := Some(g)))
    case Record(orf, span) =>
      var row :- RecordRow(orf, span, st.genome, n);
      Ok(st.(ids := st.ids + [row.id], starts := st.starts + [row.start], ends := st.ends + [row.end]))
  }

  /** The reader's variables after the lines of kinds `ks`, in order, or the first error. */
  function ParseKinds(ks: seq<LineKind>): (r: Result<ReaderState, ParseError>)
    ensures r.Ok? ==> |r.value.starts| == |r.value.ids| && |r.value.ends| == |r.value.ids| <= |ks|
    ensures r.Err? ==> r.error.line < |ks|
  {
    if ks == [] then Ok(ReaderState(None, [], [], []))
    else
      var st :- ParseKinds(ks[..|ks| - 1]);
      Step(st, ks[|ks| - 1], |ks| - 1)
  }

  /** The frame built from the three lists: exactly the id, start and end columns. */
  function CoordsOf(lines: seq<string>): (r: Result<CoordsFrame, ParseError>)
    ensures r.Ok? ==> CoordsValid(r.value) && r.value.others == map[]
    ensures r.Err? ==> r.error.line < |lines|
  {
    var ks := Kinds(lines);
    match ParseKinds(ks)
    case Ok(st) =>
      ParseRows(ks);
      Ok(CoordsFrame(st.ids, st.starts, st.ends, map[]))
    case Err(e) =>
      ParseFirstError(ks);
      Err(e)
  }

  /** Once a prefix fails, the whole input fails with the same error. */
  lemma {:induction false} ErrorSticks(ks: seq<LineKind>, j: nat, e: ParseError)
    requires j <= |ks| && ParseKinds(ks[..j]) == Err(e)
    ensures ParseKinds(ks) == Err(e)
    decreases |ks| - j
  {
    if j < |ks| {
      assert ks[..j + 1][..j] == ks[..j];
      ErrorSticks(ks, j + 1, e);
    } else {
      assert ks[..j] == ks;
    }
  }

  /** `read_ogu_orf_coords_to_df` after the file is read: the loop over its lines. */
  method ReadOguOrfCoords(lines: seq<string>) returns (r: Result<CoordsFrame, ParseError>)
    ensures r == CoordsOf(lines)
  {
    ghost var ks := Kinds(lines);
    var genome: Option<string> := None;
    var ids: seq<string>, starts: seq<int>, ends: seq<int> := [], [], [];
    var i := 0;
    while i < |lines|
      invariant 0 <= i <= |lines|
      invariant ParseKinds(ks[..i]) == Ok(ReaderState(genome, ids, starts, ends))
    {
      assert ks[..i + 1][..i] == ks[..i];
      var line := Strip(lines[i], IsSpace);
      assert ks[i] == Classify(lines[i]);
      if StartsWith(line, ">G") {
        genome := Some(RemoveChar(line, '>'));
      } else {
        var pieces := Split(line, '\t');
        var orf := pieces[0];
        assert ks[i] == Record(orf, Span(pieces));
        var err: Option<ErrorKind> := None;
        var start, end := 0, 0;
        if |pieces| < 2 {
          err := Some(MissingField(1));
        } else if ParseInt(pieces[1]).None? {
          err := Some(NotAnInteger(1));
        } else if |pieces| < 3 {
          err := Some(MissingField(2));
        } else if ParseInt(pieces[2]).None? {
          err := Some(NotAnInteger(2));
        } else if genome.None? {
          err := Some(NoGenomeHeader);
        } else {
          start, end := ParseInt(pieces[1]).value, ParseInt(pieces[2]).value;
        }
        if err.Some? {
          r := Err(ParseError(i, err.value));
          ErrorSticks(ks, i + 1, r.error);
          return;
        }
        ids := ids + [genome.value + "_" + orf];
        starts := starts + [start];
        ends := ends + [end];
      }
      i := i + 1;
    }
    assert ks[..i] == ks;
    r := Ok(CoordsFrame(ids, starts, ends, map[]));
  }

  /** The genome id in effect after lines of kinds `ks`: that of the last header among them. */
  function GenomeIn(ks: seq<LineKind>): Option<string> {
    if ks == [] then None
    else if ks[|ks| - 1].Header? then Some(ks[|ks| - 1].genome)
    else GenomeIn(ks[..|ks| - 1])
  }

  /** The positions of the record lines, in increasing order. */
  function RecordLines(ks: seq<LineKind>): (r: seq<nat>)
    ensures forall k | 0 <= k < |r| :: r[k] < |ks| && ks[r[k]].Record?
    ensures forall a, b | 0 <= a < b < |r| :: r[a] < r[b]
  {
    if ks == [] then []
    else
      var n := |ks| - 1;
      RecordLines(ks[..n]) + (if ks[n].Header? then [] else [n])
  }

  /** Every record line is listed by `RecordLines`. */
  lemma {:induction false} RecordLinesComplete(ks: seq<LineKind>, i: nat)
    requires i < |ks| && ks[i].Record?
    ensures i in RecordLines(ks)
  {
    var n := |ks| - 1;
    if i < n {
      assert ks[..n][i] == ks[i];
      RecordLinesComplete(ks[..n], i);
    }
  }

  /** The outcome of the record on line `i` under the genome in effect there. */
  function RecordAt(ks: seq<LineKind>, i: nat): Result<CoordRow, ParseError>
    requires i < |ks| && ks[i].Record?
  {
    RecordRow(ks[i].orf, ks[i].span, GenomeIn(ks[..i]), i)
  }

  /** After a successful read, the current genome is that of the last header line. */
  lemma {:induction false} GenomeInState(ks: seq<LineKind>)
    requires ParseKinds(ks).Ok?
    ensures ParseKinds(ks).value.genome == GenomeIn(ks)
  {
    if ks != [] {
      GenomeInState(ks[..|ks| - 1]);
    }
  }

  /** Reading succeeds exactly when every record line yields a row. */
  lemma {:induction false} ParseSucceedsIff(ks: seq<LineKind>)
    ensures ParseKinds(ks).Ok? <==> forall i | 0 <= i < |ks| && ks[i].Record? :: RecordAt(ks, i).Ok?
  {
    if ks != [] {
      var n := |ks| - 1;
      var pre := ks[..n];
      assert forall i | 0 <= i < n :: pre[i] == ks[i] && pre[..i] == ks[..i];
      if ParseKinds(pre).Ok? {
        ParseSucceedsIff(pre);
        GenomeInState(pre);
      } else {
        ParseFirstError(pre);
      }
    }
  }

  /** A failed read reports the first record line that yields no row. */
  lemma {:induction false} ParseFirstError(ks: seq<LineKind>)
    requires ParseKinds(ks).Err?
    ensures var e := ParseKinds(ks).error;
      && e.line < |ks| && ks[e.line].Record?
      && RecordAt(ks, e.line) == Err(e)
      && forall i | 0 <= i < e.line && ks[i].Record? :: RecordAt(ks, i).Ok?
  {
    var n := |ks| - 1;
    var pre := ks[..n];
    assert forall i | 0 <= i < n :: pre[i] == ks[i] && pre[..i] == ks[..i];
    if ParseKinds(pre).Err? {
      ParseFirstError(pre);
    } else {
      GenomeInState(pre);
      ParseSucceedsIff(pre);
    }
  }

  /**
   * A successful read yields one row per record line, in input order: the
   * three lists have that length, and row k is what line `RecordLines(ks)[k]`
   * yields.
   */
  lemma {:induction false} ParseRows(ks: seq<LineKind>)
    requires ParseKinds(ks).Ok?
    ensures var st := ParseKinds(ks).value; var idx := RecordLines(ks);
      && |st.ids| == |idx| && |st.starts| == |idx| && |st.ends| == |idx|
      && forall k | 0 <= k < |idx| :: RecordAt(ks, idx[k]) == Ok(CoordRow(st.ids[k], st.starts[k], st.ends[k]))
  {
    if ks != [] {
      var n := |ks| - 1;
      var pre := ks[..n];
      ParseRows(pre);
      GenomeInState(pre);
      assert forall i | 0 <= i < n :: pre[i] == ks[i] && pre[..i] == ks[..i];
    }
  }
}
