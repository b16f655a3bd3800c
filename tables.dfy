/**
 * The tables the OGU+ORF quantitation passes around: the per-sample
 * parameters frame, the sparse feature-by-sample count matrix (a biom table),
 * and the OGU+ORF coordinates frame.
 */
module Tables {
  import opened Wrappers

  /**
   * Column names of the parameters frame. The sample-id, aliquot-mass and
   * elution-volume keys are defined in the `util` module, whose text is not
   * part of this model: they are distinct constructors here. Keys spelled out
   * in quant_orfs.py are `Named` with their literal text.
   */
  datatype Column = SampleId | SampleInAliquotMassG | EluteVolUl | Named(name: string)

  const TotalBiologicalReads: Column := Named("total_biological_reads_r1r2")
  const SsrnaConcentrationNgUl: Column := Named("total_rna_concentration_ng_ul")

  const RequiredSampleInfoKeys: set<Column> := {SampleId, SampleInAliquotMassG}
  const RequiredRnaPrepInfoKeys: set<Column> :=
    {SampleId, SsrnaConcentrationNgUl, EluteVolUl, TotalBiologicalReads}
  /** A set, as in the source: the order of the union is not fixed. */
  const RequiredParamKeys: set<Column> := RequiredSampleInfoKeys + RequiredRnaPrepInfoKeys

  /** One value of a frame: a number, a non-numeric text, or a missing value. */
  datatype Cell = Num(value: real) | Text(text: string) | Missing

  /** The per-sample parameters frame, indexed by sample id (one row per id). */
  datatype ParamsFrame = ParamsFrame(columns: set<Column>, rows: map<string, map<Column, Cell>>)

  /** The number stored for sample `s` in column `c`, if there is one. */
  function NumberAt(p: ParamsFrame, s: string, c: Column): (r: Option<real>)
    ensures r.Some? <==> s in p.rows && c in p.columns && c in p.rows[s] && p.rows[s][c].Num?
    ensures r.Some? ==> r.value == p.rows[s][c].value
  {
    if s in p.rows && c in p.columns && c in p.rows[s] && p.rows[s][c].Num?
    then Some(p.rows[s][c].value) else None
  }

  predicate Distinct<T(==)>(s: seq<T>) {
    forall i, j | 0 <= i < j < |s| :: s[i] != s[j]
  }

  /**
   * A sparse feature-by-sample table: observation (feature) ids, sample ids,
   * and the stored cells keyed by (feature, sample). A pair with no stored
   * cell holds zero.
   */
  datatype Matrix = Matrix(features: seq<string>, samples: seq<string>, cells: map<(string, string), real>)

  predicate WellFormed(m: Matrix) {
    && Distinct(m.features) && Distinct(m.samples)
    && forall k | k in m.cells :: k.0 in m.features && k.1 in m.samples
  }

  /** A biom table: ids unique on each axis, every stored cell on a known row and column. */
  type CountMatrix = m: Matrix | WellFormed(m) witness Matrix([], [], map[])

  /** The value at (f, s): the stored cell, or zero. */
  function CountAt(m: Matrix, f: string, s: string): real {
    if (f, s) in m.cells then m.cells[(f, s)] else 0.0
  }

  const OguOrfIdKey: string := "ogu_orf_id"
  const OguOrfStartKey: string := "ogu_orf_start"
  const OguOrfEndKey: string := "ogu_orf_end"

  /**
   * The OGU+ORF coordinates frame: its id, start and end columns, and any
   * other columns it carries, by name.
   */
  datatype CoordsFrame = CoordsFrame(
    ids: seq<string>, starts: seq<int>, ends: seq<int>, others: map<string, seq<Cell>>)

  /** Every column has one value per row; the three named columns are not among the others. */
  predicate CoordsValid(c: CoordsFrame) {
    && |c.starts| == |c.ids| && |c.ends| == |c.ids|
    && OguOrfIdKey !in c.others && OguOrfStartKey !in c.others && OguOrfEndKey !in c.others
    && forall k | k in c.others :: |c.others[k]| == |c.ids|
  }
}
