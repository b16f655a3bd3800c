/**
 * `_calc_ogu_orf_copies_per_g_from_coords`: the length of each OGU+ORF
 * element and its copies per gram of ssRNA, added as two columns to a copy of
 * the coordinates frame, which is then indexed by OGU+ORF id.
 */
module OrfCopies {
  import opened Wrappers
  import opened Tables
  import opened PyStrings

  const OguOrfLenKey: string := "ogu_orf_len"
  const CopiesPerGOguOrfSsrnaKey: string := "copies_per_g_ogu_orf_ss_rna"

  function Abs(x: int): (r: nat)
    ensures r == x || r == -x
  {
    if x < 0 then -x else x
  }

  /** The inclusive span of an element whose ends may come in either order. */
  function ElementLength(start: int, end: int): (len: int)
    ensures len >= 1
    ensures len - 1 >= end - start && len - 1 >= start - end
    ensures len - 1 == end - start || len - 1 == start - end
  {
    Abs(end - start) + 1
  }

  /** The length does not depend on which end is called the start. */
  lemma ElementLengthSymmetric(start: int, end: int)
    ensures ElementLength(start, end) == ElementLength(end, start)
  {
  }

  /**
   * The coordinates frame with its length and copies-per-gram columns added
   * and its index set to the OGU+ORF ids. A column of the input already named
   * like one of the two new columns is replaced.
   */
  datatype CopiesFrame = CopiesFrame(
    index: seq<string>,
    ids: seq<string>, starts: seq<int>, ends: seq<int>, others: map<string, seq<Cell>>,
    lens: seq<int>, copies: seq<real>)

  /**
   * What the copies-per-gram step yields for `coords`, where `copiesPerG` is
   * the copies per gram of an ssRNA element of a given length.
   */
  function CopiesPerGFrame(coords: CoordsFrame, copiesPerG: int -> real): (r: CopiesFrame)
    requires CoordsValid(coords)
    ensures r.index == coords.ids && r.ids == coords.ids
    ensures r.starts == coords.starts && r.ends == coords.ends
    ensures r.others == coords.others - {OguOrfLenKey, CopiesPerGOguOrfSsrnaKey}
    ensures |r.lens| == |coords.ids| && |r.copies| == |coords.ids|
    ensures forall i | 0 <= i < |coords.ids| ::
      r.lens[i] == ElementLength(coords.starts[i], coords.ends[i]) && r.copies[i] == copiesPerG(r.lens[i])
  {
    var n := |coords.ids|;
    var lens := seq(n, i requires 0 <= i < n => ElementLength(coords.starts[i], coords.ends[i]));
    CopiesFrame(
      coords.ids, coords.ids, coords.starts, coords.ends,
      coords.others - {OguOrfLenKey, CopiesPerGOguOrfSsrnaKey},
      lens, seq(n, i requires 0 <= i < n => copiesPerG(lens[i])))
  }

  /** The step as the source writes it: the length column is assigned three times, then the copies column. */
  method CalcCopiesPerGFromCoords(coords: CoordsFrame, copiesPerG: int -> real) returns (r: CopiesFrame)
    requires CoordsValid(coords)
    ensures r == CopiesPerGFrame(coords, copiesPerG)
  {
    var n := |coords.ids|;
    var lens: seq<int> := seq(n, i requires 0 <= i < n => coords.ends[i] - coords.starts[i]);
    lens := seq(|lens|, i requires 0 <= i < |lens| => Abs(lens[i]));
    lens := seq(|lens|, i requires 0 <= i < |lens| => lens[i] + 1);
    var copies := seq(|lens|, i requires 0 <= i < |lens| => copiesPerG(lens[i]));
    var others := coords.others - {OguOrfLenKey, CopiesPerGOguOrfSsrnaKey};
    r := CopiesFrame(coords.ids, coords.ids, coords.starts, coords.ends, others, lens, copies);
  }

  /** The copies per gram of the feature `f`: the value on the one row indexed `f`, if exactly one is. */
  function CopiesPerGOf(cf: CopiesFrame, f: string): (r: Option<real>)
    ensures r.Some? <==> multiset(cf.index)[f] == 1 && FirstIndexOf(cf.index, f) < |cf.copies|
    ensures r.Some? ==> exists i | 0 <= i < |cf.index| && i < |cf.copies| :: cf.index[i] == f && r.value == cf.copies[i]
  {
    if multiset(cf.index)[f] == 1 && FirstIndexOf(cf.index, f) < |cf.copies|
    then Some(cf.copies[FirstIndexOf(cf.index, f)]) else None
  }
}
