/** The results tree of one test and its flattening into table rows
    (`renderFields`, `FieldRow`, `GroupRow` and `isHtmlValue` of the React-PDF
    template). A node is a `field` leaf, a `group` with `sub_fields`, or a node
    whose `type` tag is anything else, which every consumer skips. */
module Fields {
  import opened Strings

  /** One `field` node. Missing string properties are `""`, which is also
      JavaScript's only falsy string. */
  datatype FieldData = FieldData(
    name: string,
    value: string,
    unit: string,
    referenceRange: string,
    isAbnormal: bool,
    abnormalType: string,
    displayValue: string)

  /** A node of `fields` / `sub_fields`. A missing `sub_fields` and an empty
      one behave alike everywhere, so both are the empty sequence. */
  datatype Node =
    | FieldNode(field: FieldData)
    | GroupNode(name: string, subFields: seq<Node>)
    | OtherNode(tag: string)

  /** One row of the results table, with its indent depth. */
  datatype Row =
    | FieldRow(field: FieldData, indent: nat)
    | GroupRow(name: string, indent: nat)

  /** The markers `isHtmlValue` looks for. */
  const BroadMarkers: seq<string> := ["<table", "<p>", "<br", "<strong", "<b>", "</"]

  /** The narrower marker set `TestSection` uses to decide `hasHtmlContent`. */
  const NarrowMarkers: seq<string> := ["<table", "<p>", "<br", "<strong"]

  /** `isHtmlValue`: a non-empty string containing one of six markers. */
  function IsHtmlValue(v: string): (r: bool)
    ensures v == "" ==> !r
    ensures r <==> v != "" && exists m :: m in BroadMarkers && Includes(v, m)
  {
    BroadMarkersListed(v);
    v != "" &&
    (Includes(v, "<table") || Includes(v, "<p>") || Includes(v, "<br")
     || Includes(v, "<strong") || Includes(v, "<b>") || Includes(v, "</"))
  }

  lemma BroadMarkersListed(v: string)
    ensures (Includes(v, "<table") || Includes(v, "<p>") || Includes(v, "<br")
             || Includes(v, "<strong") || Includes(v, "<b>") || Includes(v, "</"))
            <==> exists m :: m in BroadMarkers && Includes(v, m)
  {
    var ms := BroadMarkers;
    assert ms[0] == "<table" && ms[1] == "<p>" && ms[2] == "<br";
    assert ms[3] == "<strong" && ms[4] == "<b>" && ms[5] == "</";
    if Includes(v, "<table") { assert ms[0] in ms; }
    if Includes(v, "<p>") { assert ms[1] in ms; }
    if Includes(v, "<br") { assert ms[2] in ms; }
    if Includes(v, "<strong") { assert ms[3] in ms; }
    if Includes(v, "<b>") { assert ms[4] in ms; }
    if Includes(v, "</") { assert ms[5] in ms; }
  }

  lemma NarrowMarkersListed(v: string)
    ensures (Includes(v, "<table") || Includes(v, "<p>") || Includes(v, "<br") || Includes(v, "<strong"))
            <==> exists m :: m in NarrowMarkers && Includes(v, m)
  {
    var ms := NarrowMarkers;
    assert ms[0] == "<table" && ms[1] == "<p>" && ms[2] == "<br" && ms[3] == "<strong";
    if Includes(v, "<table") { assert ms[0] in ms; }
    if Includes(v, "<p>") { assert ms[1] in ms; }
    if Includes(v, "<br") { assert ms[2] in ms; }
    if Includes(v, "<strong") { assert ms[3] in ms; }
  }

  /** The test `hasHtmlContent` applies to one value. */
  function HasNarrowMarker(v: string): (r: bool)
    ensures r <==> exists m :: m in NarrowMarkers && Includes(v, m)
  {
    NarrowMarkersListed(v);
    Includes(v, "<table") || Includes(v, "<p>") || Includes(v, "<br") || Includes(v, "<strong")
  }

  /** Every value the narrow test accepts, `isHtmlValue` accepts too, but not
      conversely: a value whose only markup is `<b>` or a closing tag passes
      only the broad test. */
  lemma NarrowWithinBroad(v: string)
    ensures v != "" && HasNarrowMarker(v) ==> IsHtmlValue(v)
    ensures IsHtmlValue(v) && !HasNarrowMarker(v) <==>
              !HasNarrowMarker(v) && (Includes(v, "<b>") || Includes(v, "</"))
  {
    if Includes(v, "<b>") || Includes(v, "</") {
      var i: nat :| At(v, i, "<b>") || At(v, i, "</");
    }
  }

  /** Every marker begins with `<`, so a value without one is never taken
      for markup by either test. */
  lemma NoAngleNoMarkup(v: string)
    requires '<' !in v
    ensures !IsHtmlValue(v) && !HasNarrowMarker(v)
  {
    forall m | m in BroadMarkers ensures !Includes(v, m) {
      assert m[0] == '<';
      forall i: nat | i + |m| <= |v| ensures !At(v, i, m) {
        assert v[i] in v;
        assert v[i..i + |m|][0] == v[i];
      }
    }
  }

  /** Witnesses of the gap between the two marker sets. */
  lemma GapWitnesses()
    ensures IsHtmlValue("<b>") && !HasNarrowMarker("<b>")
    ensures IsHtmlValue("</") && !HasNarrowMarker("</")
  {
    assert At("<b>", 0, "<b>");
    assert At("</", 0, "</");
    assert "<b>"[..3] != "<br";
    assert "<b>"[..3] != "<p>";
  }

  /** A field that `renderFields` turns into a row: truthy, non-HTML value. */
  predicate TableValue(f: FieldData) {
    f.value != "" && !IsHtmlValue(f.value)
  }

  /** `renderFields(fields, indent)`: each node in order contributes a
      `FieldRow` (a field with a table value), a `GroupRow` followed by the rows
      of its `sub_fields` one level deeper (a group), or nothing. */
  function RenderFields(fields: seq<Node>, indent: nat): seq<Row>
    decreases fields
  {
    if fields == [] then []
    else
      var rest := RenderFields(fields[1..], indent);
      match fields[0]
      case FieldNode(f) => if TableValue(f) then [FieldRow(f, indent)] + rest else rest
      case GroupNode(name, subs) => [GroupRow(name, indent)] + RenderFields(subs, indent + 1) + rest
      case OtherNode(_) => rest
  }

  /** A group without `sub_fields` yields only its label row. */
  lemma EmptyGroupIsLabelOnly(name: string, indent: nat)
    ensures RenderFields([GroupNode(name, [])], indent) == [GroupRow(name, indent)]
  {
  }

  /** Rendering distributes over concatenation of sibling lists: the rows of
      earlier siblings come first. */
  lemma {:induction false} RenderFieldsAppend(a: seq<Node>, b: seq<Node>, indent: nat)
    ensures RenderFields(a + b, indent) == RenderFields(a, indent) + RenderFields(b, indent)
    decreases a
  {
    if a == [] {
      assert a + b == b;
    } else {
      assert (a + b)[0] == a[0];
      assert (a + b)[1..] == a[1..] + b;
      RenderFieldsAppend(a[1..], b, indent);
    }
  }

  /** No row carries an empty or HTML value, and no row is shallower than the
      indent the rendering started at. */
  lemma {:induction false} RowsAreTableRows(fields: seq<Node>, indent: nat)
    ensures forall r :: r in RenderFields(fields, indent) ==> r.indent >= indent
    ensures forall r :: r in RenderFields(fields, indent) && r.FieldRow? ==> TableValue(r.field)
    ensures RenderFields(fields, indent) != [] ==> RenderFields(fields, indent)[0].indent == indent
    decreases fields
  {
    if fields != [] {
      RowsAreTableRows(fields[1..], indent);
      match fields[0]
      case FieldNode(f) =>
      case GroupNode(name, subs) => RowsAreTableRows(subs, indent + 1);
      case OtherNode(_) =>
    }
  }

  // ---------------------------------------------------------------------
  // Reference traversal: every node paired with its number of enclosing
  // groups, in document (pre-)order.
  // ---------------------------------------------------------------------

  datatype Placed = Placed(node: Node, depth: nat)

  /** Pre-order listing of the tree: a node, then (for a group) its
      descendants one level deeper, then its later siblings. */
  function Preorder(fields: seq<Node>, depth: nat): seq<Placed>
    decreases fields
  {
    if fields == [] then []
    else
      [Placed(fields[0], depth)]
      + (match fields[0] case GroupNode(_, subs) => Preorder(subs, depth + 1) case _ => [])
      + Preorder(fields[1..], depth)
  }

  /** The row (if any) one placed node is shown as. */
  function RowOf(p: Placed): seq<Row> {
    match p.node
    case FieldNode(f) => if TableValue(f) then [FieldRow(f, p.depth)] else []
    case GroupNode(name, _) => [GroupRow(name, p.depth)]
    case OtherNode(_) => []
  }

  function RowsOf(ps: seq<Placed>): seq<Row>
    decreases |ps|
  {
    if ps == [] then [] else RowOf(ps[0]) + RowsOf(ps[1..])
  }

  lemma {:induction false} RowsOfAppend(a: seq<Placed>, b: seq<Placed>)
    ensures RowsOf(a + b) == RowsOf(a) + RowsOf(b)
    decreases |a|
  {
    if a == [] {
      assert a + b == b;
    } else {
      assert (a + b)[0] == a[0];
      assert (a + b)[1..] == a[1..] + b;
      RowsOfAppend(a[1..], b);
    }
  }

  /** The table rows are exactly the pre-order traversal of the tree with
      every node mapped to its row, the indent being the node's number of
      enclosing groups. */
  lemma {:induction false} RenderFieldsIsPreorder(fields: seq<Node>, indent: nat)
    ensures RenderFields(fields, indent) == RowsOf(Preorder(fields, indent))
    decreases fields
  {
    if fields != [] {
      var head := [Placed(fields[0], indent)];
      var sub := match fields[0] case GroupNode(_, subs) => Preorder(subs, indent + 1) case _ => [];
      var tail := Preorder(fields[1..], indent);
      assert Preorder(fields, indent) == head + sub + tail;
      RowsOfAppend(head + sub, tail);
      RowsOfAppend(head, sub);
      assert RowsOf(head) == RowOf(Placed(fields[0], indent));
      RenderFieldsIsPreorder(fields[1..], indent);
      match fields[0]
      case FieldNode(f) =>
      case GroupNode(name, subs) => RenderFieldsIsPreorder(subs, indent + 1);
      case OtherNode(_) =>
    }
  }

  lemma {:induction false} InRowsOf(ps: seq<Placed>, r: Row)
    ensures r in RowsOf(ps) <==> exists i :: 0 <= i < |ps| && r in RowOf(ps[i])
    decreases |ps|
  {
    if ps != [] {
      InRowsOf(ps[1..], r);
      if r in RowsOf(ps[1..]) {
        var i :| 0 <= i < |ps[1..]| && r in RowOf(ps[1..][i]);
        assert r in RowOf(ps[i + 1]);
      }
      forall i | 0 < i < |ps| && r in RowOf(ps[i]) ensures r in RowsOf(ps[1..]) {
        assert ps[1..][i - 1] == ps[i];
      }
    }
  }

  /** Membership in both directions: a field row at indent `k` is emitted iff
      that field, with a table value, sits `k` groups deep (counting from the
      starting indent); a group row iff such a group does. */
  lemma RowMembership(fields: seq<Node>, indent: nat, f: FieldData, name: string, k: nat)
    ensures FieldRow(f, k) in RenderFields(fields, indent) <==>
              TableValue(f) && exists i :: 0 <= i < |Preorder(fields, indent)|
                                  && Preorder(fields, indent)[i] == Placed(FieldNode(f), k)
    ensures GroupRow(name, k) in RenderFields(fields, indent) <==>
              exists i :: 0 <= i < |Preorder(fields, indent)|
                            && Preorder(fields, indent)[i].node.GroupNode?
                            && Preorder(fields, indent)[i] == Placed(GroupNode(name, Preorder(fields, indent)[i].node.subFields), k)
  {
    var ps := Preorder(fields, indent);
    RenderFieldsIsPreorder(fields, indent);
    InRowsOf(ps, FieldRow(f, k));
    InRowsOf(ps, GroupRow(name, k));
    if FieldRow(f, k) in RenderFields(fields, indent) {
      var i :| 0 <= i < |ps| && FieldRow(f, k) in RowOf(ps[i]);
      assert ps[i] == Placed(FieldNode(f), k);
    }
    if TableValue(f) && exists i :: 0 <= i < |ps| && ps[i] == Placed(FieldNode(f), k) {
      var i :| 0 <= i < |ps| && ps[i] == Placed(FieldNode(f), k);
      assert FieldRow(f, k) in RowOf(ps[i]);
    }
  }

  // ---------------------------------------------------------------------
  // Inverse: rebuilding the tree from the rows.
  // ---------------------------------------------------------------------

  /** The tree restricted to what the table shows: fields with a table value
      and all groups. */
  function Prune(fields: seq<Node>): seq<Node>
    decreases fields
  {
    if fields == [] then []
    else
      var rest := Prune(fields[1..]);
      match fields[0]
      case FieldNode(f) => if TableValue(f) then [fields[0]] + rest else rest
      case GroupNode(name, subs) => [GroupNode(name, Prune(subs))] + rest
      case OtherNode(_) => rest
  }

  /** Length of the longest prefix of `rows` indented deeper than `indent`. */
  function DeeperPrefix(rows: seq<Row>, indent: nat): (k: nat)
    ensures k <= |rows|
    ensures forall i :: 0 <= i < k ==> rows[i].indent > indent
    ensures k < |rows| ==> rows[k].indent <= indent
    decreases |rows|
  {
    if rows == [] || rows[0].indent <= indent then 0
    else 1 + DeeperPrefix(rows[1..], indent)
  }

  /** Rebuild a tree from table rows: a group row owns the following rows
      that are indented deeper than it. */
  function Regroup(rows: seq<Row>, indent: nat): seq<Node>
    decreases |rows|
  {
    if rows == [] then []
    else
      match rows[0]
      case FieldRow(f, _) => [FieldNode(f)] + Regroup(rows[1..], indent)
      case GroupRow(name, _) =>
        var k := DeeperPrefix(rows[1..], indent);
        [GroupNode(name, Regroup(rows[1..][..k], indent + 1))] + Regroup(rows[1..][k..], indent)
  }

  lemma DeeperPrefixSplit(a: seq<Row>, b: seq<Row>, indent: nat)
    requires forall r :: r in a ==> r.indent > indent
    requires b != [] ==> b[0].indent <= indent
    ensures DeeperPrefix(a + b, indent) == |a|
    decreases |a|
  {
    if a == [] {
      assert a + b == b;
    } else {
      assert (a + b)[1..] == a[1..] + b;
      DeeperPrefixSplit(a[1..], b, indent);
    }
  }

  /** Round trip: the rows determine the shown part of the tree, nesting and
      order included. */
  lemma {:induction false} RegroupRenderFields(fields: seq<Node>, indent: nat)
    ensures Regroup(RenderFields(fields, indent), indent) == Prune(fields)
    decreases fields
  {
    if fields != [] {
      var rest := RenderFields(fields[1..], indent);
      RegroupRenderFields(fields[1..], indent);
      match fields[0]
      case FieldNode(f) =>
      case OtherNode(_) =>
      case GroupNode(name, subs) =>
        var inner := RenderFields(subs, indent + 1);
        var rows := [GroupRow(name, indent)] + inner + rest;
        assert rows[0] == GroupRow(name, indent);
        assert rows[1..] == inner + rest;
        RowsAreTableRows(subs, indent + 1);
        RowsAreTableRows(fields[1..], indent);
        DeeperPrefixSplit(inner, rest, indent);
        assert (inner + rest)[..|inner|] == inner;
        assert (inner + rest)[|inner|..] == rest;
        RegroupRenderFields(subs, indent + 1);
    }
  }

  /** A tree every node of which the table shows. */
  predicate AllShown(fields: seq<Node>)
    decreases fields
  {
    forall i :: 0 <= i < |fields| ==>
      match fields[i]
      case FieldNode(f) => TableValue(f)
      case GroupNode(_, subs) => AllShown(subs)
      case OtherNode(_) => false
  }

  lemma {:induction false} PruneAllShown(fields: seq<Node>)
    requires AllShown(fields)
    ensures Prune(fields) == fields
    decreases fields
  {
    if fields != [] {
      assert AllShown(fields[1..]) by {
        forall i | 0 <= i < |fields[1..]| ensures fields[1..][i] == fields[i + 1] { }
      }
      PruneAllShown(fields[1..]);
      match fields[0]
      case FieldNode(f) =>
      case OtherNode(_) =>
      case GroupNode(name, subs) => PruneAllShown(subs);
    }
  }

  /** For a tree whose every node is shown, flattening loses nothing. */
  lemma FlatteningIsLossless(fields: seq<Node>, indent: nat)
    requires AllShown(fields)
    ensures Regroup(RenderFields(fields, indent), indent) == fields
  {
    RegroupRenderFields(fields, indent);
    PruneAllShown(fields);
  }

  // ---------------------------------------------------------------------
  // The row components.
  // ---------------------------------------------------------------------

  /** Left padding of a row's name cell: `indent1` (10) or `indent2` (20). */
  datatype Indent = NoIndent | Indent1 | Indent2

  function Padding(i: Indent): nat {
    match i
    case NoIndent => 0
    case Indent1 => 10
    case Indent2 => 20
  }

  /** Colour style of the result and flag cells. */
  datatype Emphasis = Normal | High | Low

  /** What one `FieldRow` shows. */
  datatype FieldRowView = FieldRowView(
    nameIndent: Indent,
    nameBold: bool,
    name: string,
    result: string,
    emphasis: Emphasis,
    flag: string,
    range: string,
    unit: string)

  /** What one `GroupRow` shows. */
  datatype GroupRowView = GroupRowView(nameIndent: Indent, name: string)

  /** The flag column: `H` or `L` only for an abnormal field whose
      `abnormalType` is `high` or `low`. */
  function Flag(f: FieldData): (r: string)
    ensures r == "H" <==> f.isAbnormal && f.abnormalType == "high"
    ensures r == "L" <==> f.isAbnormal && f.abnormalType == "low"
    ensures r == "" <==> !(f.isAbnormal && (f.abnormalType == "high" || f.abnormalType == "low"))
  {
    if f.isAbnormal then
      (if f.abnormalType == "high" then "H" else if f.abnormalType == "low" then "L" else "")
    else ""
  }

  /** `FieldRow`: indent styling only at depth 1 or 2; bold name iff abnormal;
      colour chosen from `abnormalType` alone; flag per `Flag`. */
  function ViewFieldRow(f: FieldData, indent: nat): (v: FieldRowView)
    ensures v.nameIndent == Indent1 <==> indent == 1
    ensures v.nameIndent == Indent2 <==> indent == 2
    ensures v.nameBold <==> f.isAbnormal
    ensures v.emphasis == High <==> f.abnormalType == "high"
    ensures v.emphasis == Low <==> f.abnormalType == "low"
    ensures v.flag == "H" <==> f.isAbnormal && f.abnormalType == "high"
    ensures v.flag == "L" <==> f.isAbnormal && f.abnormalType == "low"
    ensures v.flag == Flag(f)
    ensures v.flag != "" ==> v.emphasis != Normal
    ensures v.name == f.name && v.result == f.value && v.range == f.referenceRange && v.unit == f.unit
  {
    FieldRowView(
      if indent == 1 then Indent1 else if indent == 2 then Indent2 else NoIndent,
      f.isAbnormal,
      f.name,
      f.value,
      if f.abnormalType == "high" then High else if f.abnormalType == "low" then Low else Normal,
      Flag(f),
      f.referenceRange,
      f.unit)
  }

  /** `GroupRow`: indent styling only at depth 1. */
  function ViewGroupRow(name: string, indent: nat): (v: GroupRowView)
    ensures v.nameIndent != Indent2
    ensures v.nameIndent == Indent1 <==> indent == 1
    ensures v.name == name
  {
    GroupRowView(if indent == 1 then Indent1 else NoIndent, name)
  }

  /** Indentation is not monotone in depth: rows three or more groups deep
      are padded like top-level rows, and a group label two deep is padded
      less than the fields beside it. */
  lemma IndentNotMonotone(f: FieldData, name: string)
    ensures Padding(ViewFieldRow(f, 3).nameIndent) == Padding(ViewFieldRow(f, 0).nameIndent) == 0
    ensures Padding(ViewGroupRow(name, 2).nameIndent) < Padding(ViewFieldRow(f, 2).nameIndent)
  {
  }

  /** A high `abnormalType` colours the result even when the field is not
      marked abnormal, though no flag is shown. */
  lemma EmphasisWithoutFlag(f: FieldData)
    requires !f.isAbnormal && f.abnormalType == "high"
    ensures ViewFieldRow(f, 0).emphasis == High && ViewFieldRow(f, 0).flag == ""
  {
  }
}
