/** The body of `handleScrape`: choose the first collection with a selected
    point, match its repeating elements, and build one row per element from
    the selected points, in the collection's point order. */
module Extraction {
  import opened Wrappers
  import opened Dom
  import opened Collections
  import opened Rows
  import opened JsString
  import Validation
  import Csv
  import JsonString

  /** What is read for one point inside one repeating element before
      normalising: `null` (`None`) when nothing matches or the attribute is
      absent. An empty `attribute` is falsy, so text is read instead. */
  function RawValue(doc: Document, el: Element, p: DataPoint): Option<string> {
    match doc.queryFirst(el, p.selector)
    case None => None
    case Some(child) =>
      if p.attribute.Some? && p.attribute.value != "" then doc.getAttr(child, p.attribute.value)
      else Some(doc.text(child))
  }

  /** Nothing is read when no descendant matches; without an attribute (or
      with the empty one) a match is always read, as its text, never as
      `null`; with an attribute, what is read is that attribute. */
  lemma RawValueRead(doc: Document, el: Element, p: DataPoint)
    ensures doc.queryFirst(el, p.selector).None? ==> RawValue(doc, el, p).None?
    ensures (p.attribute.None? || p.attribute == Some("")) ==>
      (RawValue(doc, el, p).Some? <==> doc.queryFirst(el, p.selector).Some?)
    ensures (p.attribute.None? || p.attribute == Some("")) && RawValue(doc, el, p).Some? ==>
      RawValue(doc, el, p).value == doc.text(doc.queryFirst(el, p.selector).value)
    ensures p.attribute.Some? && p.attribute.value != "" && doc.queryFirst(el, p.selector).Some? ==>
      RawValue(doc, el, p) == doc.getAttr(doc.queryFirst(el, p.selector).value, p.attribute.value)
  {
  }

  /** `value ? value.trim() : null`: a cell is `null` exactly when nothing
      was read or the empty string was read; otherwise it is what was read,
      trimmed, so a value of white space only becomes the empty string. */
  function CellValue(doc: Document, el: Element, p: DataPoint): (v: Value)
    ensures v.None? <==> RawValue(doc, el, p) == None || RawValue(doc, el, p) == Some("")
    ensures v.Some? ==> v.value == Trim(RawValue(doc, el, p).value)
  {
    match RawValue(doc, el, p)
    case None => None
    case Some(s) => if s == "" then None else Some(Trim(s))
  }

  /** A cell never has white space at either end, and a non-empty read of
      white space only gives the empty string rather than `null`. */
  lemma CellIsTrimmed(doc: Document, el: Element, p: DataPoint)
    ensures CellValue(doc, el, p).Some? ==> Trim(CellValue(doc, el, p).value) == CellValue(doc, el, p).value
    ensures (RawValue(doc, el, p).Some? && RawValue(doc, el, p).value != "" &&
             AllWhiteSpace(RawValue(doc, el, p).value)) ==> CellValue(doc, el, p) == Some("")
  {
    if CellValue(doc, el, p).Some? {
      TrimIdempotent(RawValue(doc, el, p).value);
    }
  }

  /** The row for one element after `selectedPoints.forEach` has assigned
      `row[point.label]` for each of `ps` in turn, starting from `start`. */
  function RowFrom(start: Row, doc: Document, el: Element, ps: seq<DataPoint>): Row
    decreases |ps|
  {
    if ps == [] then start
    else
      var last := ps[|ps| - 1];
      Assign(RowFrom(start, doc, el, ps[..|ps| - 1]), last.fieldLabel, CellValue(doc, el, last))
  }

  /** The row the source builds: it starts as `{}`. */
  function RowFor(doc: Document, el: Element, ps: seq<DataPoint>): Row {
    RowFrom(EmptyRow, doc, el, ps)
  }

  /** The number of points labelled `__proto__`. */
  function ProtoLabels(ps: seq<DataPoint>): nat
    decreases |ps|
  {
    if ps == [] then 0
    else ProtoLabels(ps[..|ps| - 1]) + if ps[|ps| - 1].fieldLabel == ProtoKey then 1 else 0
  }

  /** The keys a row ends up with when at most one point is labelled
      `__proto__`: the labels in order of first occurrence, each once,
      except `__proto__`. */
  function KeysFor(ps: seq<DataPoint>): seq<string>
    decreases |ps|
  {
    if ps == [] then []
    else
      var prev := KeysFor(ps[..|ps| - 1]);
      var l := ps[|ps| - 1].fieldLabel;
      if l == ProtoKey || l in prev then prev else prev + [l]
  }

  /** With at most one point labelled `__proto__`, every row built from the
      same points has the keys `KeysFor(ps)`, whatever the element: the rows
      are rectangular. Without such a point the prototype is never
      replaced. */
  lemma {:induction false} RowKeys(doc: Document, el: Element, ps: seq<DataPoint>)
    requires ProtoLabels(ps) <= 1
    ensures Keys(RowFor(doc, el, ps)) == KeysFor(ps)
    ensures ProtoLabels(ps) == 0 ==> !RowFor(doc, el, ps).nullProto
    decreases |ps|
  {
    if ps != [] {
      RowKeys(doc, el, ps[..|ps| - 1]);
    }
  }

  /** Some point labelled `__proto__` reads `null` in `el`. */
  predicate NullsProto(doc: Document, el: Element, ps: seq<DataPoint>) {
    exists j :: 0 <= j < |ps| && ps[j].fieldLabel == ProtoKey && CellValue(doc, el, ps[j]).None?
  }

  /** A point labelled `__proto__` reads `null` in `el`, and a later point
      carries the same label. */
  predicate OwnsProto(doc: Document, el: Element, ps: seq<DataPoint>) {
    exists i, j :: 0 <= i < j < |ps| && ps[i].fieldLabel == ProtoKey && ps[j].fieldLabel == ProtoKey &&
      CellValue(doc, el, ps[i]).None?
  }

  /** For any points, the row's prototype becomes `null` exactly when a
      point labelled `__proto__` reads `null`. */
  lemma {:induction false} RowNullProto(doc: Document, el: Element, ps: seq<DataPoint>)
    ensures RowFor(doc, el, ps).nullProto <==> NullsProto(doc, el, ps)
    decreases |ps|
  {
    if ps != [] {
      RowNullProto(doc, el, ps[..|ps| - 1]);
      NullsProtoStep(doc, el, ps);
    }
  }

  /** Extending the points by one: some `__proto__` point reads `null` when
      one already did, or when the new point is such a point. */
  lemma NullsProtoStep(doc: Document, el: Element, ps: seq<DataPoint>)
    requires ps != []
    ensures NullsProto(doc, el, ps) <==>
      NullsProto(doc, el, ps[..|ps| - 1]) ||
      (ps[|ps| - 1].fieldLabel == ProtoKey && CellValue(doc, el, ps[|ps| - 1]).None?)
  {
    var init := ps[..|ps| - 1];
    if NullsProto(doc, el, ps) {
      var j :| 0 <= j < |ps| && ps[j].fieldLabel == ProtoKey && CellValue(doc, el, ps[j]).None?;
      assert j < |init| ==> init[j] == ps[j];
    }
    if NullsProto(doc, el, init) {
      var j :| 0 <= j < |init| && init[j].fieldLabel == ProtoKey && CellValue(doc, el, init[j]).None?;
      assert ps[j] == init[j];
    }
  }

  /** For any points, `__proto__` becomes a key exactly when a point
      labelled `__proto__` reads `null` and another such point follows it.
      So whether a row has the key `__proto__` depends on the element. */
  lemma {:induction false} RowProtoKey(doc: Document, el: Element, ps: seq<DataPoint>)
    ensures ProtoKey in Keys(RowFor(doc, el, ps)) <==> OwnsProto(doc, el, ps)
    decreases |ps|
  {
    if ps != [] {
      var init := ps[..|ps| - 1];
      RowProtoKey(doc, el, init);
      RowNullProto(doc, el, init);
      OwnsProtoStep(doc, el, ps);
    }
  }

  /** Extending the points by one: `__proto__` is owned when it already was,
      or when the new point is labelled `__proto__` after one that read
      `null`. */
  lemma OwnsProtoStep(doc: Document, el: Element, ps: seq<DataPoint>)
    requires ps != []
    ensures OwnsProto(doc, el, ps) <==>
      OwnsProto(doc, el, ps[..|ps| - 1]) ||
      (ps[|ps| - 1].fieldLabel == ProtoKey && NullsProto(doc, el, ps[..|ps| - 1]))
  {
    var init := ps[..|ps| - 1];
    if OwnsProto(doc, el, ps) {
      var i, j :| 0 <= i < j < |ps| && ps[i].fieldLabel == ProtoKey && ps[j].fieldLabel == ProtoKey &&
        CellValue(doc, el, ps[i]).None?;
      assert init[i] == ps[i];
      assert j < |init| ==> init[j] == ps[j];
      assert j == |init| ==> NullsProto(doc, el, init);
    }
    if OwnsProto(doc, el, init) {
      var i, j :| 0 <= i < j < |init| && init[i].fieldLabel == ProtoKey && init[j].fieldLabel == ProtoKey &&
        CellValue(doc, el, init[i]).None?;
      assert ps[i] == init[i] && ps[j] == init[j];
    }
    if ps[|ps| - 1].fieldLabel == ProtoKey && NullsProto(doc, el, init) {
      var i :| 0 <= i < |init| && init[i].fieldLabel == ProtoKey && CellValue(doc, el, init[i]).None?;
      assert ps[i] == init[i];
      assert OwnsProto(doc, el, ps) by {
        assert ps[i].fieldLabel == ProtoKey && ps[|ps| - 1].fieldLabel == ProtoKey && CellValue(doc, el, ps[i]).None?;
      }
    }
  }

  /** For any points, every key other than `__proto__` is one of
      `KeysFor(ps)`, and each of those is a key. */
  lemma {:induction false} RowOtherKeys(doc: Document, el: Element, ps: seq<DataPoint>)
    ensures forall k :: k != ProtoKey ==> (k in Keys(RowFor(doc, el, ps)) <==> k in KeysFor(ps))
    decreases |ps|
  {
    if ps != [] {
      RowOtherKeys(doc, el, ps[..|ps| - 1]);
    }
  }

  /** The labels of some points, in order. */
  function Labels(ps: seq<DataPoint>): (ls: seq<string>)
    ensures |ls| == |ps| && forall j :: 0 <= j < |ps| ==> ls[j] == ps[j].fieldLabel
  {
    seq(|ps|, j requires 0 <= j < |ps| => ps[j].fieldLabel)
  }

  /** A key is listed exactly when some point has it as label and it is
      not `__proto__`; no key is listed twice. */
  lemma {:induction false} KeysForExactly(ps: seq<DataPoint>)
    ensures forall k :: k in KeysFor(ps) <==> k != ProtoKey && k in Labels(ps)
    ensures Distinct(KeysFor(ps))
    decreases |ps|
  {
    if ps != [] {
      var init := ps[..|ps| - 1];
      KeysForExactly(init);
      assert Labels(ps) == Labels(init) + [ps[|ps| - 1].fieldLabel];
    }
  }

  /** With distinct labels and no `__proto__`, the keys are exactly the
      labels, in the points' order. */
  lemma {:induction false} KeysAreLabels(ps: seq<DataPoint>)
    requires Distinct(Labels(ps)) && ProtoKey !in Labels(ps)
    ensures KeysFor(ps) == Labels(ps)
    decreases |ps|
  {
    if ps != [] {
      var init := ps[..|ps| - 1];
      assert Labels(ps) == Labels(init) + [ps[|ps| - 1].fieldLabel];
      KeysAreLabels(init);
    }
  }

  /** A label's value is the cell of the last point carrying that label:
      duplicate labels overwrite. */
  lemma {:induction false} LastLabelWins(doc: Document, el: Element, ps: seq<DataPoint>, j: nat)
    requires j < |ps| && ps[j].fieldLabel != ProtoKey
    requires forall j' :: j < j' < |ps| ==> ps[j'].fieldLabel != ps[j].fieldLabel
    ensures Get(RowFor(doc, el, ps), ps[j].fieldLabel) == Present(CellValue(doc, el, ps[j]))
    decreases |ps|
  {
    if j < |ps| - 1 {
      var init := ps[..|ps| - 1];
      LastLabelWins(doc, el, init, j);
    } else {
      ReadAfterWrite(RowFor(doc, el, ps[..j]), ps[j].fieldLabel, CellValue(doc, el, ps[j]));
    }
  }

  /** A page on which two points labelled `__proto__` give rows with
      different keys: in the first element the first point matches nothing,
      in the second both points read `"x"`. */
  const RaggedDoc: Document := Document(
    _ => true,
    _ => [Element(0), Element(1)],
    (e: Element, sel: string) => if e.node == 0 && sel == "a" then None else Some(Element(2)),
    (_, _) => None,
    _ => "x")

  const RaggedPoints: seq<DataPoint> :=
    [DataPoint("dp-0-0", ProtoKey, "a", None), DataPoint("dp-0-1", ProtoKey, "b", None)]

  /** The rows of `RaggedDoc` are not rectangular: the first has the key
      `__proto__` and the second has no key, so the CSV has the header
      `__proto__`, the cell `"x"`, and for the second row the inherited
      prototype written as `{}`. */
  lemma RaggedRows()
    ensures Keys(RowFor(RaggedDoc, Element(0), RaggedPoints)) == [ProtoKey]
    ensures Keys(RowFor(RaggedDoc, Element(1), RaggedPoints)) == []
    ensures Csv.ConvertToCsv([RowFor(RaggedDoc, Element(0), RaggedPoints), RowFor(RaggedDoc, Element(1), RaggedPoints)])
      == "__proto__\r\n\"x\"\r\n{}"
  {
    RaggedCells();
    RaggedFirstRow();
    RaggedSecondRow();
    RaggedCsv(RowFor(RaggedDoc, Element(0), RaggedPoints), RowFor(RaggedDoc, Element(1), RaggedPoints));
  }

  lemma RaggedCells()
    ensures CellValue(RaggedDoc, Element(0), RaggedPoints[0]) == None
    ensures CellValue(RaggedDoc, Element(0), RaggedPoints[1]) == Some("x")
    ensures CellValue(RaggedDoc, Element(1), RaggedPoints[0]) == Some("x")
    ensures CellValue(RaggedDoc, Element(1), RaggedPoints[1]) == Some("x")
  {
    assert !AllWhiteSpace("x") by { assert !IsWhiteSpace("x"[0]); }
    assert Trim("x") == "x";
  }

  lemma RaggedFirstRow()
    requires CellValue(RaggedDoc, Element(0), RaggedPoints[0]) == None
    requires CellValue(RaggedDoc, Element(0), RaggedPoints[1]) == Some("x")
    ensures RowFor(RaggedDoc, Element(0), RaggedPoints) == Row([Field(ProtoKey, Some("x"))], true)
  {
    var ps := RaggedPoints;
    assert ps[..1][..0] == [] && ps[..1] == [ps[0]];
    var r0 := RowFrom(EmptyRow, RaggedDoc, Element(0), ps[..1][..0]);
    assert r0 == EmptyRow;
    var r1 := RowFrom(EmptyRow, RaggedDoc, Element(0), ps[..1]);
    assert r1 == Assign(r0, ProtoKey, None);
    assert r1 == Row([], true);
    assert RowFrom(EmptyRow, RaggedDoc, Element(0), ps) == Assign(r1, ProtoKey, Some("x"));
  }

  lemma RaggedSecondRow()
    requires CellValue(RaggedDoc, Element(1), RaggedPoints[0]) == Some("x")
    requires CellValue(RaggedDoc, Element(1), RaggedPoints[1]) == Some("x")
    ensures RowFor(RaggedDoc, Element(1), RaggedPoints) == EmptyRow
  {
    var ps := RaggedPoints;
    assert ps[..1][..0] == [] && ps[..1] == [ps[0]];
    var r0 := RowFrom(EmptyRow, RaggedDoc, Element(1), ps[..1][..0]);
    assert r0 == EmptyRow;
    var r1 := RowFrom(EmptyRow, RaggedDoc, Element(1), ps[..1]);
    assert r1 == Assign(r0, ProtoKey, Some("x"));
    assert r1 == EmptyRow;
    assert RowFrom(EmptyRow, RaggedDoc, Element(1), ps) == Assign(r1, ProtoKey, Some("x"));
  }

  /** The CSV text of a row holding `__proto__: "x"` followed by an empty
      row that still has `Object.prototype`. */
  lemma RaggedCsv(a: Row, b: Row)
    requires a == Row([Field(ProtoKey, Some("x"))], true) && b == EmptyRow
    ensures Keys(a) == [ProtoKey] && Keys(b) == []
    ensures Csv.ConvertToCsv([a, b]) == "__proto__\r\n\"x\"\r\n{}"
  {
    assert Keys(a) == [ProtoKey];
    assert Get(a, ProtoKey) == Present(Some("x"));
    assert Get(b, ProtoKey) == InheritedPrototype;
    assert JsonString.Quote("x") == "\"x\"" by {
      assert JsonString.EscapeChar('x') == "x";
      assert JsonString.EscapeBody("x"[1..]) == [];
    }
    assert Csv.DataLine([ProtoKey], a) == "\"x\"" by {
      assert Csv.EncodeCells([ProtoKey], a) == ["\"x\""];
    }
    assert Csv.DataLine([ProtoKey], b) == "{}" by {
      assert Csv.EncodeCells([ProtoKey], b) == ["{}"];
    }
    var lines := [ProtoKey, "\"x\"", "{}"];
    assert Csv.DataLines([ProtoKey], [a, b]) == lines[1..] by {
      assert [a, b][1..] == [b];
    }
    assert Join(lines, "\r\n") == lines[0] + "\r\n" + (lines[1] + "\r\n" + lines[2]) by {
      assert lines[1..][1..] == [lines[2]];
      assert Join(lines[1..][1..], "\r\n") == lines[2];
      assert Join(lines[1..], "\r\n") == lines[1] + "\r\n" + lines[2];
    }
  }

  /** The labels in order of first occurrence, each once. */
  function LabelsOnce(ps: seq<DataPoint>): seq<string>
    decreases |ps|
  {
    if ps == [] then []
    else
      var prev := LabelsOnce(ps[..|ps| - 1]);
      var l := ps[|ps| - 1].fieldLabel;
      if l in prev then prev else prev + [l]
  }

  /** A row started from `Object.create(null)` has no `__proto__` setter:
      for any points, every row has one key per distinct label, in order of
      first occurrence, `__proto__` included, whatever the element, and no
      read of a key falls through to a prototype. */
  lemma {:induction false} BareRowKeys(doc: Document, el: Element, ps: seq<DataPoint>)
    ensures Keys(RowFrom(BareRow, doc, el, ps)) == LabelsOnce(ps)
    ensures RowFrom(BareRow, doc, el, ps).nullProto
    decreases |ps|
  {
    if ps != [] {
      BareRowKeys(doc, el, ps[..|ps| - 1]);
    }
  }

  /** Builds the row for one element, as the `forEach` over the selected
      points does. */
  method BuildRow(doc: Document, el: Element, ps: seq<DataPoint>) returns (row: Row)
    ensures row == RowFor(doc, el, ps)
  {
    row := EmptyRow;
    var i := 0;
    while i < |ps|
      invariant 0 <= i <= |ps|
      invariant row == RowFor(doc, el, ps[..i])
    {
      var point := ps[i];
      var value := CellValue(doc, el, point);
      assert ps[..i + 1][..i] == ps[..i];
      row := Assign(row, point.fieldLabel, value);
      i := i + 1;
    }
    assert ps[..|ps|] == ps;
  }

  /** `Array.from(repeatingElements).map(...)`: one row per element, in
      document order. */
  method BuildRows(doc: Document, elements: seq<Element>, ps: seq<DataPoint>) returns (rows: seq<Row>)
    ensures |rows| == |elements|
    ensures forall k :: 0 <= k < |elements| ==> rows[k] == RowFor(doc, elements[k], ps)
  {
    ghost var want := seq(|elements|, m requires 0 <= m < |elements| => RowFor(doc, elements[m], ps));
    rows := [];
    var k := 0;
    while k < |elements|
      invariant 0 <= k <= |elements|
      invariant rows == want[..k]
    {
      var row := BuildRow(doc, elements[k], ps);
      assert want[..k + 1] == want[..k] + [row];
      rows := rows + [row];
      k := k + 1;
    }
    assert rows == want;
  }

  /** `coll.dataPoints.some(dp => selectedDataPointIds.has(dp.id))`. */
  predicate HasSelected(c: DataCollection, sel: set<string>) {
    exists j :: 0 <= j < |c.dataPoints| && c.dataPoints[j].id in sel
  }

  /** `selectedCollections`: the collections with a selected point, in
      order. */
  function SelectedCollections(cs: seq<DataCollection>, sel: set<string>): (r: seq<DataCollection>)
    ensures r == [] <==> forall k :: 0 <= k < |cs| ==> !HasSelected(cs[k], sel)
    ensures forall c :: c in r ==> c in cs && HasSelected(c, sel)
    ensures forall k :: 0 <= k < |cs| && HasSelected(cs[k], sel) ==> cs[k] in r
    decreases |cs|
  {
    if cs == [] then []
    else
      assert forall k :: 1 <= k < |cs| ==> cs[k] == cs[1..][k - 1];
      if HasSelected(cs[0], sel) then [cs[0]] + SelectedCollections(cs[1..], sel)
      else SelectedCollections(cs[1..], sel)
  }

  /** The positions (offset by `off`) of the collections with a selected
      point. */
  ghost function SelectedOrigins(cs: seq<DataCollection>, sel: set<string>, off: nat): seq<nat>
    decreases |cs|
  {
    if cs == [] then []
    else if HasSelected(cs[0], sel) then [off] + SelectedOrigins(cs[1..], sel, off + 1)
    else SelectedOrigins(cs[1..], sel, off + 1)
  }

  /** The filter keeps the collections' order: what it returns is the
      collections at increasing positions. */
  lemma {:induction false} SelectedInOrder(cs: seq<DataCollection>, sel: set<string>, off: nat)
    ensures Validation.Picks(SelectedOrigins(cs, sel, off), off, cs, SelectedCollections(cs, sel))
    decreases |cs|
  {
    if cs != [] {
      SelectedInOrder(cs[1..], sel, off + 1);
      var rest := SelectedOrigins(cs[1..], sel, off + 1);
      var tail := SelectedCollections(cs[1..], sel);
      if HasSelected(cs[0], sel) {
        assert SelectedOrigins(cs, sel, off) == [off] + rest;
        assert SelectedCollections(cs, sel) == [cs[0]] + tail;
        Validation.PicksCons(rest, off, cs, tail);
      } else {
        assert SelectedOrigins(cs, sel, off) == rest;
        assert SelectedCollections(cs, sel) == tail;
        Validation.PicksSkip(rest, off, cs, tail);
      }
    }
  }

  /** The "Multiple Collections Selected" note is shown exactly when two
      different collections each have a selected point. */
  lemma MultipleSelected(cs: seq<DataCollection>, sel: set<string>)
    ensures |SelectedCollections(cs, sel)| > 1 <==>
      exists k, l :: 0 <= k < l < |cs| && HasSelected(cs[k], sel) && HasSelected(cs[l], sel)
  {
    if |SelectedCollections(cs, sel)| > 1 {
      MultipleFromTwo(cs, sel);
    }
    if exists k, l :: 0 <= k < l < |cs| && HasSelected(cs[k], sel) && HasSelected(cs[l], sel) {
      var k, l :| 0 <= k < l < |cs| && HasSelected(cs[k], sel) && HasSelected(cs[l], sel);
      TwoFromMultiple(cs, sel, k, l);
    }
  }

  lemma MultipleFromTwo(cs: seq<DataCollection>, sel: set<string>)
    requires |SelectedCollections(cs, sel)| > 1
    ensures exists k, l :: 0 <= k < l < |cs| && HasSelected(cs[k], sel) && HasSelected(cs[l], sel)
  {
    var r := SelectedCollections(cs, sel);
    var k, l := PickedAt(cs, sel);
    assert r[0] in r && r[1] in r;
    assert HasSelected(cs[k], sel) && HasSelected(cs[l], sel);
  }

  /** The positions the first two selected collections come from. */
  lemma PickedAt(cs: seq<DataCollection>, sel: set<string>) returns (k: nat, l: nat)
    requires |SelectedCollections(cs, sel)| > 1
    ensures k < l < |cs| && cs[k] == SelectedCollections(cs, sel)[0] && cs[l] == SelectedCollections(cs, sel)[1]
  {
    SelectedInOrder(cs, sel, 0);
    var idx := SelectedOrigins(cs, sel, 0);
    var r := SelectedCollections(cs, sel);
    assert |idx| == |r| && idx[0] < idx[1];
    assert 0 <= idx[0] < |cs| && r[0] == cs[idx[0]];
    assert 0 <= idx[1] < |cs| && r[1] == cs[idx[1]];
    k, l := idx[0], idx[1];
  }

  lemma {:induction false} TwoFromMultiple(cs: seq<DataCollection>, sel: set<string>, k: nat, l: nat)
    requires k < l < |cs| && HasSelected(cs[k], sel) && HasSelected(cs[l], sel)
    ensures |SelectedCollections(cs, sel)| > 1
    decreases k
  {
    assert cs[1..][l - 1] == cs[l];
    if k == 0 {
      assert SelectedCollections(cs[1..], sel) != [];
    } else {
      assert cs[1..][k - 1] == cs[k];
      TwoFromMultiple(cs[1..], sel, k - 1, l - 1);
    }
  }

  /** The collection extracted is the first one, in order, that has a
      selected point; selections in later collections are ignored. */
  lemma {:induction false} FirstSelectedIsFirst(cs: seq<DataCollection>, sel: set<string>, m: nat)
    requires m < |cs| && HasSelected(cs[m], sel)
    requires forall m' :: 0 <= m' < m ==> !HasSelected(cs[m'], sel)
    ensures SelectedCollections(cs, sel) != [] && SelectedCollections(cs, sel)[0] == cs[m]
    decreases m
  {
    if m > 0 {
      assert !HasSelected(cs[0], sel);
      FirstSelectedIsFirst(cs[1..], sel, m - 1);
    }
  }

  /** `selectedPoints`: the chosen collection's selected points, in the
      collection's order. */
  function SelectedPoints(c: DataCollection, sel: set<string>): seq<DataPoint> {
    FilterSelected(c.dataPoints, sel)
  }

  function FilterSelected(ps: seq<DataPoint>, sel: set<string>): (r: seq<DataPoint>)
    ensures forall p :: p in r <==> p in ps && p.id in sel
    decreases |ps|
  {
    if ps == [] then []
    else if ps[0].id in sel then [ps[0]] + FilterSelected(ps[1..], sel)
    else FilterSelected(ps[1..], sel)
  }

  /** The positions (offset by `off`) of the selected points. */
  ghost function FilterOrigins(ps: seq<DataPoint>, sel: set<string>, off: nat): seq<nat>
    decreases |ps|
  {
    if ps == [] then []
    else if ps[0].id in sel then [off] + FilterOrigins(ps[1..], sel, off + 1)
    else FilterOrigins(ps[1..], sel, off + 1)
  }

  /** The selected points keep the collection's order: they are the points
      at increasing positions. */
  lemma {:induction false} FilterInOrder(ps: seq<DataPoint>, sel: set<string>, off: nat)
    ensures Validation.Picks(FilterOrigins(ps, sel, off), off, ps, FilterSelected(ps, sel))
    decreases |ps|
  {
    if ps != [] {
      FilterInOrder(ps[1..], sel, off + 1);
      var rest := FilterOrigins(ps[1..], sel, off + 1);
      var tail := FilterSelected(ps[1..], sel);
      if ps[0].id in sel {
        assert FilterOrigins(ps, sel, off) == [off] + rest;
        assert FilterSelected(ps, sel) == [ps[0]] + tail;
        Validation.PicksCons(rest, off, ps, tail);
      } else {
        assert FilterOrigins(ps, sel, off) == rest;
        assert FilterSelected(ps, sel) == tail;
        Validation.PicksSkip(rest, off, ps, tail);
      }
    }
  }

  /** The outcome of `handleScrape`: the three toasts, or the rows handed
      to `onScrapingComplete`. The "Multiple Collections Selected" note is
      shown before the elements are matched, so every outcome after it
      records whether it was shown. */
  datatype ScrapeOutcome =
    | NoDataPointsSelected
    | NoElementsFound(selector: string, multipleCollections: bool)
    | ScrapingFailed(multipleCollections: bool)
    | Scraped(rows: seq<Row>, multipleCollections: bool)

  /** Some selector the extraction evaluates throws: the repeating selector,
      or, when it matched, a selected point's selector. */
  predicate ExtractionThrows(doc: Document, c: DataCollection, ps: seq<DataPoint>) {
    !doc.validSelector(c.repeatingElementSelector) ||
    (|doc.queryAll(c.repeatingElementSelector)| > 0 &&
     exists j :: 0 <= j < |ps| && !doc.validSelector(ps[j].selector))
  }

  /** What `handleScrape` does, given the parsed document and the
      workspace's collections and selection. */
  function ScrapeResult(doc: Document, cs: seq<DataCollection>, sel: set<string>): ScrapeOutcome {
    var chosen := SelectedCollections(cs, sel);
    if chosen == [] then NoDataPointsSelected
    else
      var multiple := |chosen| > 1;
      var c := chosen[0];
      var ps := SelectedPoints(c, sel);
      if ExtractionThrows(doc, c, ps) then ScrapingFailed(multiple)
      else
        var elements := doc.queryAll(c.repeatingElementSelector);
        if |elements| == 0 then NoElementsFound(c.repeatingElementSelector, multiple)
        else Scraped(seq(|elements|, k requires 0 <= k < |elements| => RowFor(doc, elements[k], ps)), multiple)
  }

  /** The extraction reports "No Data Points Selected" exactly when no
      collection has a selected point; a successful scrape has one row per
      element the chosen collection's selector matches, in document order,
      each built from that collection's selected points. */
  lemma ScrapeShape(doc: Document, cs: seq<DataCollection>, sel: set<string>)
    ensures ScrapeResult(doc, cs, sel).NoDataPointsSelected? <==> forall k :: 0 <= k < |cs| ==> !HasSelected(cs[k], sel)
    ensures ScrapeResult(doc, cs, sel).Scraped? ==>
      SelectedCollections(cs, sel) != [] &&
      |ScrapeResult(doc, cs, sel).rows| == |doc.queryAll(SelectedCollections(cs, sel)[0].repeatingElementSelector)| > 0 &&
      forall k :: 0 <= k < |ScrapeResult(doc, cs, sel).rows| ==>
        ScrapeResult(doc, cs, sel).rows[k] ==
          RowFor(doc, doc.queryAll(SelectedCollections(cs, sel)[0].repeatingElementSelector)[k],
                 SelectedPoints(SelectedCollections(cs, sel)[0], sel))
  {
  }

  /** Whatever happens after a collection is chosen (a throw, no elements,
      or rows), the "Multiple Collections Selected" note has been shown
      exactly when two collections have selected points. */
  lemma ScrapeNotesMultiple(doc: Document, cs: seq<DataCollection>, sel: set<string>)
    requires !ScrapeResult(doc, cs, sel).NoDataPointsSelected?
    ensures ScrapeResult(doc, cs, sel).multipleCollections <==>
      exists k, l :: 0 <= k < l < |cs| && HasSelected(cs[k], sel) && HasSelected(cs[l], sel)
  {
    MultipleFlag(doc, cs, sel);
    MultipleSelected(cs, sel);
  }

  lemma MultipleFlag(doc: Document, cs: seq<DataCollection>, sel: set<string>)
    requires !ScrapeResult(doc, cs, sel).NoDataPointsSelected?
    ensures ScrapeResult(doc, cs, sel).multipleCollections == (|SelectedCollections(cs, sel)| > 1)
  {
  }

  /** When at most one selected point of the chosen collection is labelled
      `__proto__`, every row of a successful scrape has the keys
      `KeysFor` of the selected points: the table is rectangular. */
  lemma ScrapedRowsRectangular(doc: Document, cs: seq<DataCollection>, sel: set<string>)
    requires SelectedCollections(cs, sel) != []
    requires ProtoLabels(SelectedPoints(SelectedCollections(cs, sel)[0], sel)) <= 1
    ensures ScrapeResult(doc, cs, sel).Scraped? ==>
      forall k :: 0 <= k < |ScrapeResult(doc, cs, sel).rows| ==>
        Keys(ScrapeResult(doc, cs, sel).rows[k]) == KeysFor(SelectedPoints(SelectedCollections(cs, sel)[0], sel))
  {
    var out := ScrapeResult(doc, cs, sel);
    if out.Scraped? {
      var c := SelectedCollections(cs, sel)[0];
      var elements := doc.queryAll(c.repeatingElementSelector);
      forall k | 0 <= k < |out.rows|
        ensures Keys(out.rows[k]) == KeysFor(SelectedPoints(c, sel))
      {
        RowKeys(doc, elements[k], SelectedPoints(c, sel));
      }
    }
  }

  /** Extracting from the document the collections were validated against
      never throws and always matches elements: it either reports that
      nothing is selected or produces rows. */
  lemma ValidatedScrapeSucceeds(doc: Document, proposals: seq<ProposedCollection>, sel: set<string>)
    requires Validation.Validate(doc, proposals).Some?
    ensures var out := ScrapeResult(doc, Validation.ValidateCollections(doc, proposals), sel);
      out.NoDataPointsSelected? || out.Scraped?
  {
    var cs := Validation.ValidateCollections(doc, proposals);
    var chosen := SelectedCollections(cs, sel);
    if chosen != [] {
      var c := chosen[0];
      assert c in cs;
      Validation.ValidatedSelectorsValid(doc, proposals);
      var ps := SelectedPoints(c, sel);
      forall j | 0 <= j < |ps| ensures doc.validSelector(ps[j].selector) {
        assert ps[j] in c.dataPoints;
      }
      var k :| 0 <= k < |cs| && cs[k] == c;
      assert Validation.Sound(doc, cs[k]);
    }
  }

  /** `handleScrape`, run synchronously. */
  method Scrape(doc: Document, cs: seq<DataCollection>, sel: set<string>) returns (outcome: ScrapeOutcome)
    ensures outcome == ScrapeResult(doc, cs, sel)
  {
    var selectedCollections := SelectedCollections(cs, sel);
    if |selectedCollections| == 0 {
      return NoDataPointsSelected;
    }
    var multiple := |selectedCollections| > 1;
    var collectionToScrape := selectedCollections[0];
    var selectedPoints := SelectedPoints(collectionToScrape, sel);
    if ExtractionThrows(doc, collectionToScrape, selectedPoints) {
      return ScrapingFailed(multiple);
    }
    var repeatingElements := doc.queryAll(collectionToScrape.repeatingElementSelector);
    if |repeatingElements| == 0 {
      return NoElementsFound(collectionToScrape.repeatingElementSelector, multiple);
    }
    var rows := BuildRows(doc, repeatingElements, selectedPoints);
    outcome := Scraped(rows, multiple);
  }
}
