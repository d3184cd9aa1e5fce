/**
 * SELECTED_JOBS of reclass.js: the ordered list of (district, position,
 * colour) entries shown on the chart. jobSelectParse appends an entry
 * unless its (district, position) pair is already there; removeBadge
 * slices an entry out, or pops the last one.
 */
module Selection {
  import opened Reshaper

  /** One element of SELECTED_JOBS: `[district, position, colour]`. */
  datatype Entry = Entry(district: string, position: string, color: string)

  /** `DATA[district][position]` exists. */
  predicate Listed(e: Entry, cat: Catalog)
  {
    e.district in cat && e.position in cat[e.district]
  }

  /** Every entry of the selection can be looked up in the catalog. */
  predicate AllListed(sel: seq<Entry>, cat: Catalog)
  {
    forall k :: 0 <= k < |sel| ==> Listed(sel[k], cat)
  }

  /** `DATA[district][position]['Pay']`. */
  function PayOfEntry(e: Entry, cat: Catalog): seq<int>
    requires Listed(e, cat)
  {
    cat[e.district][e.position].pay
  }

  /** Some entry of the list has this (district, position) pair. */
  predicate HasPair(sel: seq<Entry>, district: string, position: string)
  {
    exists k :: 0 <= k < |sel| && sel[k].district == district && sel[k].position == position
  }

  /** The duplicate scan of jobSelectParse: is the pair already in the list? */
  method FindPair(sel: seq<Entry>, district: string, position: string) returns (found: bool)
    ensures found == HasPair(sel, district, position)
  {
    var j := 0;
    while j < |sel|
      invariant 0 <= j <= |sel|
      invariant forall k :: 0 <= k < j ==> !(sel[k].district == district && sel[k].position == position)
    {
      if sel[j].district == district && sel[j].position == position {
        return true;
      }
      j := j + 1;
    }
    return false;
  }

  /** No two entries share a (district, position) pair. */
  ghost predicate DistinctPairs(sel: seq<Entry>)
  {
    forall i, j :: 0 <= i < j < |sel| ==>
      !(sel[i].district == sel[j].district && sel[i].position == sel[j].position)
  }

  /** The list after jobSelectParse offers `e`: unchanged if its pair is present, else `e` appended. */
  function Added(sel: seq<Entry>, e: Entry): seq<Entry>
  {
    if HasPair(sel, e.district, e.position) then sel else sel + [e]
  }

  /**
   * Adding keeps the pairs distinct, leaves every earlier entry where it
   * was, grows the list by at most one entry, and afterwards the offered
   * pair is present.
   */
  lemma AddedKeepsDistinct(sel: seq<Entry>, e: Entry)
    requires DistinctPairs(sel)
    ensures DistinctPairs(Added(sel, e))
    ensures HasPair(Added(sel, e), e.district, e.position)
    ensures Added(sel, e)[..|sel|] == sel
    ensures |Added(sel, e)| == |sel| + (if HasPair(sel, e.district, e.position) then 0 else 1)
  {
    var r := Added(sel, e);
    if !HasPair(sel, e.district, e.position) {
      assert r[|sel|] == e;
    }
  }

  /**
   * removeBadge(index): when `index + 1 < length` the entry is sliced out;
   * otherwise the last entry is popped (pop on an empty list does nothing).
   */
  function Removed(sel: seq<Entry>, index: nat): seq<Entry>
  {
    if index + 1 < |sel| then sel[..index] + sel[index + 1..]
    else if sel == [] then sel
    else sel[..|sel| - 1]
  }

  /**
   * Removal takes out exactly one entry of a non-empty list, the one at
   * `index` or, for an index at or past the last slot, the last one, and
   * keeps the other entries in their order.
   */
  lemma RemovedShape(sel: seq<Entry>, index: nat)
    ensures sel == [] ==> Removed(sel, index) == []
    ensures sel != [] ==>
      var gone := if index + 1 < |sel| then index else |sel| - 1;
      var r := Removed(sel, index);
      && |r| == |sel| - 1
      && (forall k :: 0 <= k < gone ==> r[k] == sel[k])
      && (forall k :: gone <= k < |r| ==> r[k] == sel[k + 1])
      && multiset(r) + multiset{sel[gone]} == multiset(sel)
  {
    if sel != [] {
      var gone := if index + 1 < |sel| then index else |sel| - 1;
      assert sel == sel[..gone] + [sel[gone]] + sel[gone + 1..];
      assert Removed(sel, index) == sel[..gone] + sel[gone + 1..];
    }
  }

  /** Removal keeps the pairs distinct. */
  lemma RemovedKeepsDistinct(sel: seq<Entry>, index: nat)
    requires DistinctPairs(sel)
    ensures DistinctPairs(Removed(sel, index))
  {
    RemovedShape(sel, index);
    if sel != [] {
      var gone := if index + 1 < |sel| then index else |sel| - 1;
      var r := Removed(sel, index);
      forall i, j | 0 <= i < j < |r|
        ensures !(r[i].district == r[j].district && r[i].position == r[j].position)
      {
        var i' := if i < gone then i else i + 1;
        var j' := if j < gone then j else j + 1;
        assert r[i] == sel[i'] && r[j] == sel[j'] && i' < j';
      }
    }
  }
}
