/**
 * `calc_copies_of_ogu_orf_ssrna_per_g_sample_from_dfs`: validates the
 * parameters table, filters the reads table on the sample parameters, builds
 * the copies-per-gram table from the coordinates and runs the projection.
 */
module QuantOrfs {
  import opened Wrappers
  import opened Tables
  import opened OrfCopies
  import opened Projection

  /**
   * The sample filter of the shared utilities: given the parameters, the
   * reads table and the columns to check, it returns the reads table without
   * the samples it rejects and its log messages. Its rule is not part of
   * this model.
   */
  type SampleFilter = (ParamsFrame, CountMatrix, set<Column>) -> (CountMatrix, seq<string>)

  /** The required parameter columns that the parameters table lacks. */
  function AbsentParamColumns(p: ParamsFrame): (r: set<Column>)
    ensures forall c | c in RequiredParamKeys :: c in r <==> c !in p.columns
    ensures r <= RequiredParamKeys
  {
    RequiredParamKeys - p.columns
  }

  /** The samples of the reads table that have no row in the parameters table. */
  function SamplesWithoutParams(p: ParamsFrame, m: Matrix): (r: set<string>)
    ensures forall s | s in m.samples :: s in r <==> s !in p.rows
    ensures forall s | s in r :: s in m.samples
  {
    set s | s in m.samples && s !in p.rows
  }

  /** The columns the samples are filtered on: every required column except the sample id. */
  function FilterColumns(): (r: set<Column>)
    ensures SampleId !in r && r + {SampleId} == RequiredParamKeys
  {
    RequiredParamKeys - {SampleId}
  }

  /**
   * Copies of each OGU+ORF ssRNA per gram of sample, with the log of the
   * sample filter. Missing parameter columns are reported first, then reads
   * samples without parameters; after that the result is the projection of
   * the filtered reads table through the copies-per-gram table built from
   * the coordinates, and the log is the filter's log.
   */
  method CalcCopiesOfOguOrfSsrnaPerGSampleFromDfs(
    p: ParamsFrame, m: CountMatrix, coords: CoordsFrame, filter: SampleFilter,
    copiesPerG: int -> real, gramsInElute: (real, real) -> real)
    returns (r: Result<Projected, QuantError>)
    requires CoordsValid(coords)
    requires AbsentParamColumns(p) == {} && SamplesWithoutParams(p, m) == {} ==>
      NonZeroDivisors(p, filter(p, m, FilterColumns()).0.samples)
    ensures AbsentParamColumns(p) != {} ==> r == Err(MissingParamColumns(AbsentParamColumns(p)))
    ensures AbsentParamColumns(p) == {} && SamplesWithoutParams(p, m) != {} ==>
      r == Err(SamplesNotInParams(SamplesWithoutParams(p, m)))
    ensures AbsentParamColumns(p) == {} && SamplesWithoutParams(p, m) == {} ==>
      var (filtered, filterLog) := filter(p, m, FilterColumns());
      var cf := CopiesPerGFrame(coords, copiesPerG);
      && (r.Ok? <==> AllAvailable(p, filtered, cf, gramsInElute))
      && (r.Err? ==> r == ProjectCopiesPerGSample(p, filtered, cf, gramsInElute))
      && (r.Ok? ==>
            && r.value.log == filterLog
            && r.value.table.features == filtered.features
            && r.value.table.samples == filtered.samples
            && r.value.table.cells.Keys == filtered.cells.Keys
            && forall k | k in filtered.cells ::
                 && SampleValue(p, k.1, TotalReads, gramsInElute).Some?
                 && SampleValue(p, k.1, SsrnaGramsInElute, gramsInElute).Some?
                 && CopiesPerGOf(cf, k.0).Some?
                 && SampleValue(p, k.1, AliquotMassG, gramsInElute).Some?
                 && SampleValue(p, k.1, TotalReads, gramsInElute).value != 0.0
                 && SampleValue(p, k.1, AliquotMassG, gramsInElute).value != 0.0
                 && r.value.table.cells[k] == CellCopiesPerG(filtered.cells[k],
                      SampleValue(p, k.1, TotalReads, gramsInElute).value,
                      SampleValue(p, k.1, SsrnaGramsInElute, gramsInElute).value,
                      CopiesPerGOf(cf, k.0).value,
                      SampleValue(p, k.1, AliquotMassG, gramsInElute).value))
  {
    var missing := AbsentParamColumns(p);
    if missing != {} {
      return Err(MissingParamColumns(missing));
    }
    var unknown := SamplesWithoutParams(p, m);
    if unknown != {} {
      return Err(SamplesNotInParams(unknown));
    }
    var (filtered, log) := filter(p, m, FilterColumns());
    var cf := CalcCopiesPerGFromCoords(coords, copiesPerG);
    ProjectSucceedsIff(p, filtered, cf, gramsInElute);
    var projected := ProjectCopiesPerGSample(p, filtered, cf, gramsInElute);
    if projected.Err? {
      return Err(projected.error);
    }
    log := log + projected.value.log;
    r := Ok(Projected(projected.value.table, log));
    forall k | k in filtered.cells
      ensures r.value.table.cells[k] == CellCopiesPerG(filtered.cells[k],
                SampleValue(p, k.1, TotalReads, gramsInElute).value,
                SampleValue(p, k.1, SsrnaGramsInElute, gramsInElute).value,
                CopiesPerGOf(cf, k.0).value,
                SampleValue(p, k.1, AliquotMassG, gramsInElute).value)
    {
      ProjectCells(p, filtered, cf, gramsInElute, k);
    }
  }
}
