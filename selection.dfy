/** The selection rules of the workspace: flipping one id, which points the
    search term leaves visible, whether every visible point is selected, and
    the bulk select/deselect that the single "select all" button performs. */
module Selection {
  import opened Collections
  import opened JsString
  import Validation

  /** The selection after `handleToggleDataPoint(id)`: only `id` changes
      membership. */
  function Toggled(sel: set<string>, id: string): (r: set<string>)
    ensures id in r <==> id !in sel
    ensures forall x :: x != id ==> (x in r <==> x in sel)
  {
    if id in sel then sel - {id} else sel + {id}
  }

  /** Toggling the same id twice restores the selection. */
  lemma ToggleTwice(sel: set<string>, id: string)
    ensures Toggled(Toggled(sel, id), id) == sel
  {
  }

  /** The search filter: the lower-cased term occurs in the lower-cased
      label or in the lower-cased name of the point's collection. */
  predicate PointVisible(c: DataCollection, p: DataPoint, term: string) {
    Includes(ToLower(p.fieldLabel), ToLower(term)) || Includes(ToLower(c.name), ToLower(term))
  }

  /** `collection.dataPoints.filter(...)` under the search term. */
  function VisiblePoints(c: DataCollection, ps: seq<DataPoint>, term: string): (r: seq<DataPoint>)
    ensures |r| <= |ps|
    ensures forall p :: p in r ==> p in ps && PointVisible(c, p, term)
    ensures forall p :: p in ps && PointVisible(c, p, term) ==> p in r
    decreases |ps|
  {
    if ps == [] then []
    else if PointVisible(c, ps[0], term) then [ps[0]] + VisiblePoints(c, ps[1..], term)
    else VisiblePoints(c, ps[1..], term)
  }

  /** A collection with only its visible points, as the `map` step of
      `filteredCollections` builds it. */
  function Shown(c: DataCollection, term: string): DataCollection {
    c.(dataPoints := VisiblePoints(c, c.dataPoints, term))
  }

  /** `filteredCollections`: every collection with its visible points, the
      collections left with none dropped. Each result is an input
      collection cut down to its visible points, and every input collection
      with a visible point is there; `FilteredInOrder` adds the order. */
  function FilteredCollections(cs: seq<DataCollection>, term: string): (r: seq<DataCollection>)
    ensures |r| <= |cs|
    ensures forall k :: 0 <= k < |r| ==> |r[k].dataPoints| > 0
    ensures forall d :: d in r ==> exists c :: c in cs && d == Shown(c, term)
    ensures forall c :: c in cs && |Shown(c, term).dataPoints| > 0 ==> Shown(c, term) in r
    decreases |cs|
  {
    if cs == [] then []
    else
      var shown := Shown(cs[0], term);
      var rest := FilteredCollections(cs[1..], term);
      assert forall c :: c in cs <==> c == cs[0] || c in cs[1..];
      if |shown.dataPoints| > 0 then
        assert forall d :: d in [shown] + rest <==> d == shown || d in rest;
        [shown] + rest
      else rest
  }

  /** Every input collection cut down to its visible points. */
  ghost function ShownAll(cs: seq<DataCollection>, term: string): (r: seq<DataCollection>)
    ensures |r| == |cs|
    ensures forall k :: 0 <= k < |cs| ==> r[k] == Shown(cs[k], term)
  {
    seq(|cs|, k requires 0 <= k < |cs| => Shown(cs[k], term))
  }

  /** The positions, offset by `off`, of the collections that keep a
      visible point. */
  ghost function FilteredOrigins(cs: seq<DataCollection>, term: string, off: nat): seq<nat>
    decreases |cs|
  {
    if cs == [] then []
    else if |Shown(cs[0], term).dataPoints| > 0 then [off] + FilteredOrigins(cs[1..], term, off + 1)
    else FilteredOrigins(cs[1..], term, off + 1)
  }

  /** The filtered collections keep the input order: they are the cut-down
      collections at increasing positions. */
  lemma {:induction false} FilteredInOrder(cs: seq<DataCollection>, term: string, off: nat)
    ensures Validation.Picks(FilteredOrigins(cs, term, off), off, ShownAll(cs, term), FilteredCollections(cs, term))
    decreases |cs|
  {
    if cs != [] {
      FilteredInOrder(cs[1..], term, off + 1);
      var rest := FilteredOrigins(cs[1..], term, off + 1);
      var tail := FilteredCollections(cs[1..], term);
      var src := ShownAll(cs, term);
      assert src[1..] == ShownAll(cs[1..], term);
      if |Shown(cs[0], term).dataPoints| > 0 {
        assert FilteredOrigins(cs, term, off) == [off] + rest;
        assert FilteredCollections(cs, term) == [src[0]] + tail;
        Validation.PicksCons(rest, off, src, tail);
      } else {
        assert FilteredOrigins(cs, term, off) == rest;
        assert FilteredCollections(cs, term) == tail;
        Validation.PicksSkip(rest, off, src, tail);
      }
    }
  }

  /** `allVisibleDataPointIds`: the ids of the filtered collections'
      points, collection by collection. */
  function VisibleIds(cs: seq<DataCollection>, term: string): seq<string> {
    FlatIds(FilteredCollections(cs, term))
  }

  function FlatIds(cs: seq<DataCollection>): (ids: seq<string>)
    ensures forall id :: id in ids <==> exists c, p :: c in cs && p in c.dataPoints && p.id == id
    decreases |cs|
  {
    if cs == [] then []
    else
      var rest := FlatIds(cs[1..]);
      assert forall c :: c in cs <==> c == cs[0] || c in cs[1..];
      Ids(cs[0].dataPoints) + rest
  }

  /** An id is visible exactly when some point carrying it passes the search
      filter within its collection. */
  lemma {:induction false} VisibleIdsExactly(cs: seq<DataCollection>, term: string, id: string)
    ensures id in VisibleIds(cs, term) <==>
      exists c, p :: c in cs && p in c.dataPoints && p.id == id && PointVisible(c, p, term)
    decreases |cs|
  {
    if cs != [] {
      VisibleIdsExactly(cs[1..], term, id);
      var c := cs[0];
      var shown := Shown(c, term);
      var tail := FilteredCollections(cs[1..], term);
      if |shown.dataPoints| > 0 {
        assert FilteredCollections(cs, term) == [shown] + tail;
        assert forall d :: d in [shown] + tail <==> d == shown || d in tail;
      } else {
        assert FilteredCollections(cs, term) == tail;
      }
      assert forall d :: d in cs <==> d == c || d in cs[1..];
    }
  }

  /** `areAllVisibleSelected`: `every` over the visible ids, false when none
      is visible. */
  function AllVisibleSelected(visible: seq<string>, sel: set<string>): (b: bool)
    ensures b <==> |visible| > 0 && forall k :: 0 <= k < |visible| ==> visible[k] in sel
  {
    |visible| > 0 && Every(visible, sel)
  }

  function Every(ids: seq<string>, sel: set<string>): (b: bool)
    ensures b <==> forall k :: 0 <= k < |ids| ==> ids[k] in sel
    decreases |ids|
  {
    if ids == [] then true
    else
      assert forall k :: 1 <= k < |ids| ==> ids[k] == ids[1..][k - 1];
      ids[0] in sel && Every(ids[1..], sel)
  }

  /** The set of ids listed in `ids`. */
  function Elements(ids: seq<string>): (s: set<string>)
    ensures forall x :: x in s <==> x in ids
  {
    set k | 0 <= k < |ids| :: ids[k]
  }

  /** The selection after `handleToggleSelectAll`: when every visible id is
      selected they are all removed, otherwise they are all added; the ids
      that are not visible keep their membership. */
  function BulkToggled(sel: set<string>, visible: seq<string>): (r: set<string>)
    ensures forall x :: x !in visible ==> (x in r <==> x in sel)
    ensures AllVisibleSelected(visible, sel) ==> forall x :: x in visible ==> x !in r
    ensures !AllVisibleSelected(visible, sel) ==> forall x :: x in visible ==> x in r
  {
    if AllVisibleSelected(visible, sel) then sel - Elements(visible) else sel + Elements(visible)
  }

  /** Pressing the button twice with something visible: the first press
      selects every visible id, the second deselects every visible id, and
      the ids that are not visible are as they were. When everything visible
      was already selected the first press deselects. */
  lemma BulkToggleTwice(sel: set<string>, visible: seq<string>)
    requires |visible| > 0
    ensures var once := BulkToggled(sel, visible);
      (AllVisibleSelected(visible, once) <==> !AllVisibleSelected(visible, sel)) &&
      BulkToggled(once, visible) == if AllVisibleSelected(visible, sel) then sel + Elements(visible)
                                    else sel - Elements(visible)
  {
    var once := BulkToggled(sel, visible);
    assert visible[0] in visible;
    if AllVisibleSelected(visible, sel) {
      assert visible[0] !in once;
    } else {
      assert forall k :: 0 <= k < |visible| ==> visible[k] in once;
    }
  }
}
