/**
 * The translation table: `translate` in process.py.
 *
 * The XML document is abstracted to its asset elements in document order, each
 * with its name attribute and its (src, dest) pairs in document order. The two
 * nested dict comprehensions become map building in which a later key
 * overwrites an earlier one.
 */
module Translations {

  /** One asset element: its name and its translation children as (src, dest). */
  datatype AssetEntry = AssetEntry(name: string, pairs: seq<(string, string)>)

  /** asset name -> raw variable code -> variable name */
  type Table = map<string, map<string, string>>

  /** The inner comprehension {src: dest for t in a.findall('translation')}. */
  function Inner(pairs: seq<(string, string)>): (m: map<string, string>)
    ensures forall src :: src in m <==> exists i | 0 <= i < |pairs| :: pairs[i].0 == src
  {
    if pairs == [] then map[]
    else
      var last := pairs[|pairs| - 1];
      var m0 := Inner(pairs[..|pairs| - 1]);
      assert forall i | 0 <= i < |pairs| - 1 :: pairs[..|pairs| - 1][i] == pairs[i];
      m0[last.0 := last.1]
  }

  /** The outer comprehension {a.attrib['name']: Inner(a) for a in findall('asset')}. */
  function Translate(assets: seq<AssetEntry>): (t: Table)
    ensures forall a :: a in t <==> exists i | 0 <= i < |assets| :: assets[i].name == a
  {
    if assets == [] then map[]
    else
      var last := assets[|assets| - 1];
      var t0 := Translate(assets[..|assets| - 1]);
      assert forall i | 0 <= i < |assets| - 1 :: assets[..|assets| - 1][i] == assets[i];
      t0[last.name := Inner(last.pairs)]
  }

  /** A code maps to the dest of the last pair that names it. */
  lemma {:induction false} InnerLastWins(pairs: seq<(string, string)>, i: int)
    requires 0 <= i < |pairs|
    requires forall j | i < j < |pairs| :: pairs[j].0 != pairs[i].0
    ensures Inner(pairs)[pairs[i].0] == pairs[i].1
  {
    if i < |pairs| - 1 {
      var init := pairs[..|pairs| - 1];
      assert forall j | i < j < |init| :: init[j] == pairs[j];
      InnerLastWins(init, i);
    }
  }

  /**
   * An asset maps to the inner map of the last element with its name: a later
   * element with the same name replaces the earlier inner map whole, and its
   * codes are not merged with the earlier ones.
   */
  lemma {:induction false} TranslateLastWins(assets: seq<AssetEntry>, i: int)
    requires 0 <= i < |assets|
    requires forall j | i < j < |assets| :: assets[j].name != assets[i].name
    ensures Translate(assets)[assets[i].name] == Inner(assets[i].pairs)
  {
    if i < |assets| - 1 {
      var init := assets[..|assets| - 1];
      assert forall j | i < j < |init| :: init[j] == assets[j];
      TranslateLastWins(init, i);
    }
  }
}
