/**
 * `_calc_copies_of_ogu_orf_ssrna_per_g_sample_from_dfs`: four non-in-place
 * transforms of the sparse count matrix, each scaling every stored cell by a
 * per-sample or per-feature value looked up for its column or row.
 */
module Projection {
  import opened Wrappers
  import opened Tables
  import opened OrfCopies

  /** The per-sample values the chain looks up. */
  datatype SampleQuantity = TotalReads | SsrnaGramsInElute | AliquotMassG

  datatype QuantError =
    | MissingParamColumns(columns: set<Column>)
    | SamplesNotInParams(samples: set<string>)
    | SampleValueUnavailable(sample: string, quantity: SampleQuantity)
    | FeatureCopiesUnavailable(feature: string)

  /**
   * The value of `q` for sample `s`. The grams of ssRNA in the elute come from
   * the sample's concentration and elution volume through `gramsInElute`.
   */
  function SampleValue(p: ParamsFrame, s: string, q: SampleQuantity, gramsInElute: (real, real) -> real): (r: Option<real>)
    ensures r.Some? ==> s in p.rows
  {
    match q
    case TotalReads => NumberAt(p, s, TotalBiologicalReads)
    case AliquotMassG => NumberAt(p, s, SampleInAliquotMassG)
    case SsrnaGramsInElute =>
      var conc := NumberAt(p, s, SsrnaConcentrationNgUl);
      var vol := NumberAt(p, s, EluteVolUl);
      if conc.Some? && vol.Some? then Some(gramsInElute(conc.value, vol.value)) else None
  }

  /** The two divisors of the chain are never zero where they are numbers, for the given samples. */
  predicate NonZeroDivisors(p: ParamsFrame, samples: seq<string>) {
    && (forall s | s in samples :: NumberAt(p, s, TotalBiologicalReads) != Some(0.0))
    && (forall s | s in samples :: NumberAt(p, s, SampleInAliquotMassG) != Some(0.0))
  }

  /**
   * Looks `value` up for every id in order, as a transform visits every id on
   * its axis; fails with the first id that has no value.
   */
  function LookupAll(ids: seq<string>, value: string -> Option<real>): (r: Result<map<string, real>, string>)
    ensures r.Ok? <==> forall i | 0 <= i < |ids| :: value(ids[i]).Some?
    ensures r.Ok? ==> forall i | 0 <= i < |ids| :: ids[i] in r.value && r.value[ids[i]] == value(ids[i]).value
    ensures r.Err? ==> exists i | 0 <= i < |ids| ::
      && r.error == ids[i] && value(ids[i]).None?
      && forall j | 0 <= j < i :: value(ids[j]).Some?
  {
    if ids == [] then Ok(map[])
    else match value(ids[0])
      case None => Err(ids[0])
      case Some(v) =>
        match LookupAll(ids[1..], value)
        case Err(e) =>
          assert forall j | 0 <= j < |ids| - 1 :: ids[1..][j] == ids[j + 1];
          Err(e)
        case Ok(rest) =>
          assert forall j | 0 < j < |ids| :: ids[j] == ids[1..][j - 1];
          Ok(rest[ids[0] := v])
  }

  /** The values of `q` for the given samples, or the first sample without one. */
  function SampleFactors(p: ParamsFrame, samples: seq<string>, q: SampleQuantity, gramsInElute: (real, real) -> real)
    : (r: Result<map<string, real>, QuantError>)
    ensures r.Ok? <==> forall s | s in samples :: SampleValue(p, s, q, gramsInElute).Some?
    ensures r.Ok? ==> forall s | s in samples :: s in r.value && Some(r.value[s]) == SampleValue(p, s, q, gramsInElute)
    ensures r.Err? ==>
      && r.error.SampleValueUnavailable? && r.error.quantity == q
      && r.error.sample in samples && SampleValue(p, r.error.sample, q, gramsInElute).None?
  {
    match LookupAll(samples, s => SampleValue(p, s, q, gramsInElute))
    case Ok(f) => Ok(f)
    case Err(s) => Err(SampleValueUnavailable(s, q))
  }

  /** The copies per gram of the given features, or the first feature without one. */
  function FeatureFactors(cf: CopiesFrame, features: seq<string>): (r: Result<map<string, real>, QuantError>)
    ensures r.Ok? <==> forall f | f in features :: CopiesPerGOf(cf, f).Some?
    ensures r.Ok? ==> forall f | f in features :: f in r.value && Some(r.value[f]) == CopiesPerGOf(cf, f)
    ensures r.Err? ==>
      && r.error.FeatureCopiesUnavailable?
      && r.error.feature in features && CopiesPerGOf(cf, r.error.feature).None?
  {
    match LookupAll(features, f => CopiesPerGOf(cf, f))
    case Ok(c) => Ok(c)
    case Err(f) => Err(FeatureCopiesUnavailable(f))
  }

  datatype Op = Multiply | Divide

  function Apply(op: Op, x: real, y: real): (r: real)
    requires op == Divide ==> y != 0.0
  {
    if op == Multiply then x * y else x / y
  }

  /** A transform along the sample axis: every stored cell of column s scaled by `factor[s]`. */
  function ScaleSamples(m: CountMatrix, factor: map<string, real>, op: Op): (r: CountMatrix)
    requires forall s | s in m.samples :: s in factor && (op == Divide ==> factor[s] != 0.0)
    ensures r.features == m.features && r.samples == m.samples && r.cells.Keys == m.cells.Keys
    ensures forall k | k in m.cells :: r.cells[k] == Apply(op, m.cells[k], factor[k.1])
  {
    Matrix(m.features, m.samples, map k | k in m.cells :: Apply(op, m.cells[k], factor[k.1]))
  }

  /** A transform along the observation axis: every stored cell of row f scaled by `factor[f]`. */
  function ScaleFeatures(m: CountMatrix, factor: map<string, real>, op: Op): (r: CountMatrix)
    requires forall f | f in m.features :: f in factor && (op == Divide ==> factor[f] != 0.0)
    ensures r.features == m.features && r.samples == m.samples && r.cells.Keys == m.cells.Keys
    ensures forall k | k in m.cells :: r.cells[k] == Apply(op, m.cells[k], factor[k.0])
  {
    Matrix(m.features, m.samples, map k | k in m.cells :: Apply(op, m.cells[k], factor[k.0]))
  }

  /** Every sample of `m` has a value for `q`. */
  predicate SamplesHave(p: ParamsFrame, m: Matrix, q: SampleQuantity, gramsInElute: (real, real) -> real) {
    forall s | s in m.samples :: SampleValue(p, s, q, gramsInElute).Some?
  }

  /** Every feature of `m` has a copies-per-gram value. */
  predicate FeaturesHaveCopies(cf: CopiesFrame, m: Matrix) {
    forall f | f in m.features :: CopiesPerGOf(cf, f).Some?
  }

  predicate AllAvailable(p: ParamsFrame, m: Matrix, cf: CopiesFrame, gramsInElute: (real, real) -> real) {
    && SamplesHave(p, m, TotalReads, gramsInElute)
    && SamplesHave(p, m, SsrnaGramsInElute, gramsInElute)
    && FeaturesHaveCopies(cf, m)
    && SamplesHave(p, m, AliquotMassG, gramsInElute)
  }

  /** The per-gram value of one stored cell, as the chain of four transforms computes it. */
  function CellCopiesPerG(count: real, totalReads: real, ssrnaGrams: real, copiesPerG: real, massG: real): real
    requires totalReads != 0.0 && massG != 0.0
  {
    Apply(Divide, Apply(Multiply, Apply(Multiply, Apply(Divide, count, totalReads), ssrnaGrams), copiesPerG), massG)
  }

  /** In closed form: count / reads * ssRNA grams * copies per gram / mass. */
  lemma CellCopiesPerGFormula(count: real, totalReads: real, ssrnaGrams: real, copiesPerG: real, massG: real)
    requires totalReads != 0.0 && massG != 0.0
    ensures CellCopiesPerG(count, totalReads, ssrnaGrams, copiesPerG, massG)
         == count / totalReads * ssrnaGrams * copiesPerG / massG
  {
  }

  lemma CellUnit(count: real)
    ensures CellCopiesPerG(count, 1.0, 1.0, 1.0, 1.0) == count
  {
  }

  lemma CellZero(totalReads: real, ssrnaGrams: real, copiesPerG: real, massG: real)
    requires totalReads != 0.0 && massG != 0.0
    ensures CellCopiesPerG(0.0, totalReads, ssrnaGrams, copiesPerG, massG) == 0.0
  {
  }

  /** Factors for every sample of `m`, with no zero divisor. */
  predicate SampleFactorsFor(m: Matrix, f: map<string, real>, nonZero: bool) {
    forall s | s in m.samples :: s in f && (nonZero ==> f[s] != 0.0)
  }

  /**
   * The four transforms in order: divide by total reads, multiply by ssRNA
   * grams, multiply by copies per gram, divide by aliquot mass.
   */
  function Chain(m: CountMatrix, totalReads: map<string, real>, grams: map<string, real>,
                 copiesPerG: map<string, real>, mass: map<string, real>): (r: CountMatrix)
    requires SampleFactorsFor(m, totalReads, true) && SampleFactorsFor(m, grams, false)
    requires SampleFactorsFor(m, mass, true)
    requires forall f | f in m.features :: f in copiesPerG
    ensures r.features == m.features && r.samples == m.samples && r.cells.Keys == m.cells.Keys
    ensures forall k | k in m.cells ::
      r.cells[k] == CellCopiesPerG(m.cells[k], totalReads[k.1], grams[k.1], copiesPerG[k.0], mass[k.1])
  {
    var fractions := ScaleSamples(m, totalReads, Divide);
    var ssrnaGrams := ScaleSamples(fractions, grams, Multiply);
    var copies := ScaleFeatures(ssrnaGrams, copiesPerG, Multiply);
    var perGram := ScaleSamples(copies, mass, Divide);
    perGram
  }

  /** The projected table and the log messages of the projection. */
  datatype Projected = Projected(table: CountMatrix, log: seq<string>)

  /** Where `NonZeroDivisors` holds, a found reads or mass value is not zero. */
  lemma DivisorsFound(p: ParamsFrame, m: Matrix, q: SampleQuantity, gramsInElute: (real, real) -> real,
                      f: map<string, real>)
    requires NonZeroDivisors(p, m.samples) && q != SsrnaGramsInElute
    requires forall s | s in m.samples :: s in f && Some(f[s]) == SampleValue(p, s, q, gramsInElute)
    ensures SampleFactorsFor(m, f, true)
  {
    forall s | s in m.samples
      ensures f[s] != 0.0
    {
    }
  }

  /**
   * Copies of each OGU+ORF ssRNA per gram of sample. The transforms cannot
   * fail, so looking every factor up first fails at the same stage as
   * looking each up just before its transform.
   */
  function ProjectCopiesPerGSample(p: ParamsFrame, m: CountMatrix, cf: CopiesFrame, gramsInElute: (real, real) -> real)
    : (r: Result<Projected, QuantError>)
    requires NonZeroDivisors(p, m.samples)
    ensures r.Ok? ==> r.value.log == []
    ensures r.Ok? ==> var t := r.value.table;
      t.features == m.features && t.samples == m.samples && t.cells.Keys == m.cells.Keys
  {
    var totalReads :- SampleFactors(p, m.samples, TotalReads, gramsInElute);
    var grams :- SampleFactors(p, m.samples, SsrnaGramsInElute, gramsInElute);
    var copiesPerG :- FeatureFactors(cf, m.features);
    var mass :- SampleFactors(p, m.samples, AliquotMassG, gramsInElute);
    DivisorsFound(p, m, TotalReads, gramsInElute, totalReads);
    DivisorsFound(p, m, AliquotMassG, gramsInElute, mass);
    Ok(Projected(Chain(m, totalReads, grams, copiesPerG, mass), []))
  }

  /** The projection succeeds exactly when every value it looks up is there. */
  lemma {:induction false} ProjectSucceedsIff(p: ParamsFrame, m: CountMatrix, cf: CopiesFrame, gramsInElute: (real, real) -> real)
    requires NonZeroDivisors(p, m.samples)
    ensures ProjectCopiesPerGSample(p, m, cf, gramsInElute).Ok? <==> AllAvailable(p, m, cf, gramsInElute)
  {
    var r1 := SampleFactors(p, m.samples, TotalReads, gramsInElute);
    var r2 := SampleFactors(p, m.samples, SsrnaGramsInElute, gramsInElute);
    var r3 := FeatureFactors(cf, m.features);
    var r4 := SampleFactors(p, m.samples, AliquotMassG, gramsInElute);
    assert r1.Ok? <==> SamplesHave(p, m, TotalReads, gramsInElute);
    assert r2.Ok? <==> SamplesHave(p, m, SsrnaGramsInElute, gramsInElute);
    assert r3.Ok? <==> FeaturesHaveCopies(cf, m);
    assert r4.Ok? <==> SamplesHave(p, m, AliquotMassG, gramsInElute);
  }

  /**
   * The stages fail in order: a sample without reads is reported before one
   * without ssRNA grams, those before a feature without copies per gram, and
   * those before a sample without a mass.
   */
  lemma {:induction false} ProjectErrorOrder(p: ParamsFrame, m: CountMatrix, cf: CopiesFrame, gramsInElute: (real, real) -> real)
    requires NonZeroDivisors(p, m.samples)
    ensures var r := ProjectCopiesPerGSample(p, m, cf, gramsInElute);
      && (!SamplesHave(p, m, TotalReads, gramsInElute) ==>
            r.Err? && r.error.SampleValueUnavailable? && r.error.quantity == TotalReads
            && r.error.sample in m.samples && SampleValue(p, r.error.sample, TotalReads, gramsInElute).None?)
      && (SamplesHave(p, m, TotalReads, gramsInElute) && !SamplesHave(p, m, SsrnaGramsInElute, gramsInElute) ==>
            r.Err? && r.error.SampleValueUnavailable? && r.error.quantity == SsrnaGramsInElute
            && r.error.sample in m.samples && SampleValue(p, r.error.sample, SsrnaGramsInElute, gramsInElute).None?)
      && (SamplesHave(p, m, TotalReads, gramsInElute) && SamplesHave(p, m, SsrnaGramsInElute, gramsInElute)
          && !FeaturesHaveCopies(cf, m) ==>
            r.Err? && r.error.FeatureCopiesUnavailable?
            && r.error.feature in m.features && CopiesPerGOf(cf, r.error.feature).None?)
      && (SamplesHave(p, m, TotalReads, gramsInElute) && SamplesHave(p, m, SsrnaGramsInElute, gramsInElute)
          && FeaturesHaveCopies(cf, m) && !SamplesHave(p, m, AliquotMassG, gramsInElute) ==>
            r.Err? && r.error.SampleValueUnavailable? && r.error.quantity == AliquotMassG
            && r.error.sample in m.samples && SampleValue(p, r.error.sample, AliquotMassG, gramsInElute).None?)
  {
    var r1 := SampleFactors(p, m.samples, TotalReads, gramsInElute);
    var r2 := SampleFactors(p, m.samples, SsrnaGramsInElute, gramsInElute);
    var r3 := FeatureFactors(cf, m.features);
    var r4 := SampleFactors(p, m.samples, AliquotMassG, gramsInElute);
    assert r1.Ok? <==> SamplesHave(p, m, TotalReads, gramsInElute);
    assert r2.Ok? <==> SamplesHave(p, m, SsrnaGramsInElute, gramsInElute);
    assert r3.Ok? <==> FeaturesHaveCopies(cf, m);
    assert r4.Ok? <==> SamplesHave(p, m, AliquotMassG, gramsInElute);
  }

  /** Each stored cell of the result is its count scaled by its sample's and feature's values. */
  lemma {:induction false} ProjectCells(p: ParamsFrame, m: CountMatrix, cf: CopiesFrame, gramsInElute: (real, real) -> real,
                                        k: (string, string))
    requires NonZeroDivisors(p, m.samples)
    requires ProjectCopiesPerGSample(p, m, cf, gramsInElute).Ok?
    requires k in m.cells
    ensures SampleValue(p, k.1, TotalReads, gramsInElute).Some? && SampleValue(p, k.1, AliquotMassG, gramsInElute).Some?
    ensures SampleValue(p, k.1, SsrnaGramsInElute, gramsInElute).Some? && CopiesPerGOf(cf, k.0).Some?
    ensures SampleValue(p, k.1, TotalReads, gramsInElute).value != 0.0
    ensures SampleValue(p, k.1, AliquotMassG, gramsInElute).value != 0.0
    ensures ProjectCopiesPerGSample(p, m, cf, gramsInElute).value.table.cells[k] ==
      CellCopiesPerG(m.cells[k], SampleValue(p, k.1, TotalReads, gramsInElute).value,
                     SampleValue(p, k.1, SsrnaGramsInElute, gramsInElute).value,
                     CopiesPerGOf(cf, k.0).value, SampleValue(p, k.1, AliquotMassG, gramsInElute).value)
  {
    var r1 := SampleFactors(p, m.samples, TotalReads, gramsInElute);
    var r2 := SampleFactors(p, m.samples, SsrnaGramsInElute, gramsInElute);
    var r3 := FeatureFactors(cf, m.features);
    var r4 := SampleFactors(p, m.samples, AliquotMassG, gramsInElute);
    assert r1.Ok? && r2.Ok? && r3.Ok? && r4.Ok?;
    assert k.0 in m.features && k.1 in m.samples;
    DivisorsFound(p, m, TotalReads, gramsInElute, r1.value);
    DivisorsFound(p, m, AliquotMassG, gramsInElute, r4.value);
    assert ProjectCopiesPerGSample(p, m, cf, gramsInElute).value.table
        == Chain(m, r1.value, r2.value, r3.value, r4.value);
  }

  /** With every factor equal to one, the projection gives back the counts unchanged. */
  lemma {:induction false} ProjectUnitFactors(p: ParamsFrame, m: CountMatrix, cf: CopiesFrame, gramsInElute: (real, real) -> real)
    requires NonZeroDivisors(p, m.samples)
    requires forall s, q | s in m.samples :: SampleValue(p, s, q, gramsInElute) == Some(1.0)
    requires forall f | f in m.features :: CopiesPerGOf(cf, f) == Some(1.0)
    ensures ProjectCopiesPerGSample(p, m, cf, gramsInElute) == Ok(Projected(m, []))
  {
    assert AllAvailable(p, m, cf, gramsInElute) by {
      assert SamplesHave(p, m, TotalReads, gramsInElute) && SamplesHave(p, m, SsrnaGramsInElute, gramsInElute);
      assert SamplesHave(p, m, AliquotMassG, gramsInElute);
    }
    ProjectSucceedsIff(p, m, cf, gramsInElute);
    UnitCells(p, m, cf, gramsInElute);
    var t := ProjectCopiesPerGSample(p, m, cf, gramsInElute).value.table;
    assert t == Matrix(m.features, m.samples, m.cells);
  }

  lemma {:induction false} UnitCells(p: ParamsFrame, m: CountMatrix, cf: CopiesFrame, gramsInElute: (real, real) -> real)
    requires NonZeroDivisors(p, m.samples) && ProjectCopiesPerGSample(p, m, cf, gramsInElute).Ok?
    requires forall s, q | s in m.samples :: SampleValue(p, s, q, gramsInElute) == Some(1.0)
    requires forall f | f in m.features :: CopiesPerGOf(cf, f) == Some(1.0)
    ensures ProjectCopiesPerGSample(p, m, cf, gramsInElute).value.table.cells == m.cells
  {
    var t := ProjectCopiesPerGSample(p, m, cf, gramsInElute).value.table;
    forall k | k in m.cells
      ensures t.cells[k] == m.cells[k]
    {
      ProjectCells(p, m, cf, gramsInElute, k);
      assert k.0 in m.features && k.1 in m.samples;
      CellUnit(m.cells[k]);
    }
  }

  /**
   * Zero cells stay zero: a cell that reads as zero in the counts, stored or
   * not, reads as zero in the result.
   */
  lemma {:induction false} ProjectKeepsZeros(p: ParamsFrame, m: CountMatrix, cf: CopiesFrame, gramsInElute: (real, real) -> real,
                                             f: string, s: string)
    requires NonZeroDivisors(p, m.samples)
    requires ProjectCopiesPerGSample(p, m, cf, gramsInElute).Ok?
    requires CountAt(m, f, s) == 0.0
    ensures CountAt(ProjectCopiesPerGSample(p, m, cf, gramsInElute).value.table, f, s) == 0.0
  {
    var k := (f, s);
    if k in m.cells {
      ProjectCells(p, m, cf, gramsInElute, k);
      CellZero(SampleValue(p, s, TotalReads, gramsInElute).value,
               SampleValue(p, s, SsrnaGramsInElute, gramsInElute).value,
               CopiesPerGOf(cf, f).value, SampleValue(p, s, AliquotMassG, gramsInElute).value);
    }
  }
}
