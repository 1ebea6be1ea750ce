/** The per-cell encodings of the transform: `Series.map` through the two
    closed lookup tables for `status` and `productiveness`, and
    `Series.fillna` for `important_achievements`. */
module Encodings {
  import opened Tables

  const StatusMap: map<string, int> := map["In progress" := 0, "Complete" := 1]

  /** One star: U+2B50 followed by the emoji presentation selector U+FE0F. */
  const Star: string := "\U{2B50}\U{FE0F}"

  /** One to five stars, written out as the source's dictionary lists them. */
  const ProductivenessMap: map<string, int> := map[
    Star := 1,
    Star + Star := 2,
    Star + Star + Star := 3,
    Star + Star + Star + Star := 4,
    Star + Star + Star + Star + Star := 5]

  /** `Series.map(m)` on one cell: a text that is a key becomes its code,
      anything else (another text, a number, a missing value) becomes
      missing, without an error. */
  function MapCell(m: map<string, int>, c: Cell): (r: Cell)
    ensures c.Text? && c.s in m ==> r == Int(m[c.s])
    ensures !(c.Text? && c.s in m) ==> r == Missing
  {
    match c
    case Text(s) => if s in m then Int(m[s]) else Missing
    case _ => Missing
  }

  /** `Series.fillna(v)` on one cell. */
  function FillMissing(c: Cell, v: Cell): (r: Cell)
    ensures c == Missing ==> r == v
    ensures c != Missing ==> r == c
    ensures v != Missing ==> r != Missing
  {
    if c == Missing then v else c
  }

  /** The status code is 0 exactly for "In progress", 1 exactly for
      "Complete", and missing for every other cell. */
  lemma StatusEncoding(c: Cell)
    ensures MapCell(StatusMap, c) == Int(0) <==> c == Text("In progress")
    ensures MapCell(StatusMap, c) == Int(1) <==> c == Text("Complete")
    ensures MapCell(StatusMap, c) == Missing <==> c != Text("In progress") && c != Text("Complete")
  {
  }

  /** `k` stars in a row. */
  function Stars(k: nat): (s: string)
    ensures |s| == 2 * k
  {
    if k == 0 then "" else Star + Stars(k - 1)
  }

  lemma StarKeys()
    ensures ProductivenessMap.Keys == {Stars(1), Stars(2), Stars(3), Stars(4), Stars(5)}
    ensures forall k :: 1 <= k <= 5 ==> ProductivenessMap[Stars(k)] == k
  {
    assert Stars(1) == Star;
    assert Stars(2) == Star + Star;
    assert Stars(3) == Star + Star + Star;
    assert Stars(4) == Star + Star + Star + Star;
    assert Stars(5) == Star + Star + Star + Star + Star;
  }

  /** The productiveness code is `k` exactly for `k` stars with `1 <= k <= 5`;
      every other cell, six or more stars included, becomes missing. */
  lemma ProductivenessEncoding(c: Cell, k: int)
    ensures MapCell(ProductivenessMap, c) == Int(k) <==> 1 <= k <= 5 && c == Text(Stars(k))
    ensures MapCell(ProductivenessMap, c) == Missing <==>
      !(exists j :: 1 <= j <= 5 && c == Text(Stars(j)))
  {
    StarKeys();
    if c.Text? && c.s in ProductivenessMap {
      var j :| 1 <= j <= 5 && c.s == Stars(j);
      assert MapCell(ProductivenessMap, c) == Int(j);
    }
  }

  /** In particular six or more stars are not an error but a missing code. */
  lemma TooManyStars(k: nat)
    requires k >= 6
    ensures MapCell(ProductivenessMap, Text(Stars(k))) == Missing
  {
    StarKeys();
    assert Stars(k) !in ProductivenessMap by {
      forall j | 1 <= j <= 5 ensures Stars(k) != Stars(j) {
        assert |Stars(k)| != |Stars(j)|;
      }
    }
  }
}
