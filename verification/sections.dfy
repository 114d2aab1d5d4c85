/** `TestSection` of the React-PDF template: how one test becomes a list of
    children. The decision is taken on the test's top-level fields only: a
    narrow HTML test (`hasHtmlContent`) selects rich-text runs, a table test
    (`hasTableFields`) selects the results table, and only when neither holds
    are the values listed as plain `label: value` rows. */
module Sections {
  import opened Strings
  import opened Values
  import opened Fields
  import opened Cleaner

  /** One entry of `tests`. `interpretation` is the `interpretation.text`
      property (missing when either the object or its text is missing). */
  datatype Test = Test(
    category: Option<string>,
    testName: Option<string>,
    fields: seq<Node>,
    interpretation: Option<string>)

  /** The children of a test section, in the order they are pushed. `index`
      is the position of the originating top-level field. An `HtmlRun` holds
      the field's value; the `Html` element is given `RunMarkup` of it, the
      value after `cleanHtmlForPdf`. */
  datatype Child =
    | Department(text: string)
    | TestName(text: string)
    | HtmlRun(index: nat, source: string)
    | ResultsTable(rows: seq<Row>)
    | PlainRow(index: nat, caption: Option<string>, value: string)
    | Interpretation(text: string)

  /** A `field` node with a truthy value. */
  predicate Valued(n: Node) {
    n.FieldNode? && n.field.value != ""
  }

  /** A node that makes `hasHtmlContent` true. */
  predicate MarkupNode(n: Node) {
    Valued(n) && HasNarrowMarker(n.field.value)
  }

  /** A node that makes `hasTableFields` true: a non-HTML value with a unit
      or a range, or any group. */
  predicate TableNode(n: Node) {
    || (Valued(n) && !IsHtmlValue(n.field.value) && (n.field.unit != "" || n.field.referenceRange != ""))
    || n.GroupNode?
  }

  /** A node rendered as a rich-text run when the section is in markup mode. */
  predicate HtmlField(n: Node) {
    Valued(n) && IsHtmlValue(n.field.value)
  }

  /** `hasHtmlContent`: `fields.some(...)` with the narrow marker test. */
  function HasHtmlContent(fields: seq<Node>): (r: bool)
    ensures r <==> exists i :: 0 <= i < |fields| && MarkupNode(fields[i])
    decreases |fields|
  {
    if fields == [] then false
    else if MarkupNode(fields[0]) then true
    else
      var r := HasHtmlContent(fields[1..]);
      assert forall i :: 1 <= i < |fields| ==> fields[i] == fields[1..][i - 1];
      r
  }

  /** `hasTableFields`: `fields.some(...)` with the table test. */
  function HasTableFields(fields: seq<Node>): (r: bool)
    ensures r <==> exists i :: 0 <= i < |fields| && TableNode(fields[i])
    decreases |fields|
  {
    if fields == [] then false
    else if TableNode(fields[0]) then true
    else
      var r := HasTableFields(fields[1..]);
      assert forall i :: 1 <= i < |fields| ==> fields[i] == fields[1..][i - 1];
      r
  }

  /** The rich-text runs for the top-level fields from index `i` on: one per
      field whose value `isHtmlValue` accepts, in field order. */
  function HtmlRuns(fields: seq<Node>, i: nat): (r: seq<Child>)
    requires i <= |fields|
    ensures forall k :: 0 <= k < |r| ==> r[k].HtmlRun? && i <= r[k].index < |fields|
    ensures forall j: nat, h :: HtmlRun(j, h) in r <==>
      i <= j < |fields| && HtmlField(fields[j]) && h == fields[j].field.value
    ensures forall a, b :: 0 <= a < b < |r| ==> r[a].index < r[b].index
    decreases |fields| - i
  {
    if i == |fields| then []
    else
      var rest := HtmlRuns(fields, i + 1);
      if HtmlField(fields[i]) then [HtmlRun(i, fields[i].field.value)] + rest
      else rest
  }

  /** The markup the `Html` element of a run renders: the cleaned value. It
      is never longer than the value, and markup without any `<tr` is passed
      through unchanged. */
  function RunMarkup(c: Child): (r: string)
    requires c.HtmlRun?
    ensures |r| <= |c.source|
    ensures NoCiIn(c.source, TrOpen) ==> r == c.source
  {
    CleanWithoutRows(c.source);
    CleanHtmlForPdf(c.source)
  }

  /** The label of a plain row: `name:` in bold, or nothing for a nameless
      field. */
  function Label(name: string): (r: Option<string>)
    ensures r.Some? <==> name != ""
    ensures r.Some? ==> r.value == name + ":"
  {
    if name != "" then Some(name + ":") else None
  }

  /** The plain rows for the top-level fields from index `i` on: one per
      field with a truthy value, HTML or not, in field order. */
  function PlainRows(fields: seq<Node>, i: nat): (r: seq<Child>)
    requires i <= |fields|
    ensures forall k :: 0 <= k < |r| ==> r[k].PlainRow? && i <= r[k].index < |fields|
    ensures forall j: nat, l, v :: PlainRow(j, l, v) in r <==>
      i <= j < |fields| && Valued(fields[j]) && l == Label(fields[j].field.name) && v == fields[j].field.value
    ensures forall a, b :: 0 <= a < b < |r| ==> r[a].index < r[b].index
    decreases |fields| - i
  {
    if i == |fields| then []
    else
      var rest := PlainRows(fields, i + 1);
      if Valued(fields[i]) then
        [PlainRow(i, Label(fields[i].field.name), fields[i].field.value)] + rest
      else rest
  }

  /** The runs pushed in markup mode: every HTML-valued top-level field. */
  function MarkupBlock(fs: seq<Node>): (r: seq<Child>)
    ensures forall c :: c in r ==> c.HtmlRun?
  {
    var r := HtmlRuns(fs, 0);
    assert forall c :: c in r ==> c.HtmlRun? by {
      forall c | c in r ensures c.HtmlRun? {
        var k :| 0 <= k < |r| && r[k] == c;
      }
    }
    r
  }

  /** The plain rows pushed when neither mode holds. */
  function PlainBlock(fs: seq<Node>): (r: seq<Child>)
    ensures forall c :: c in r ==> c.PlainRow?
  {
    var r := PlainRows(fs, 0);
    assert forall c :: c in r ==> c.PlainRow? by {
      forall c | c in r ensures c.PlainRow? {
        var k :| 0 <= k < |r| && r[k] == c;
      }
    }
    r
  }

  /** `TestSection`: department and test name, then the runs (markup mode),
      then the table (table mode), then the plain rows (neither mode), then
      the interpretation when its text is truthy. The children always come
      in this push order. */
  function SectionChildren(t: Test): (r: seq<Child>)
    ensures Ordered(r)
  {
    var fs := t.fields;
    var html := HasHtmlContent(fs);
    var table := HasTableFields(fs);
    BlocksOrdered(
      [Department(TextOf(t.category)), TestName(TextOf(t.testName))],
      if html then MarkupBlock(fs) else [],
      if table then [ResultsTable(RenderFields(fs, 0))] else [],
      if !html && !table then PlainBlock(fs) else [],
      if TruthyStr(t.interpretation) then [Interpretation(t.interpretation.value)] else []);
    [Department(TextOf(t.category)), TestName(TextOf(t.testName))]
    + (if html then MarkupBlock(fs) else [])
    + (if table then [ResultsTable(RenderFields(fs, 0))] else [])
    + (if !html && !table then PlainBlock(fs) else [])
    + (if TruthyStr(t.interpretation) then [Interpretation(t.interpretation.value)] else [])
  }

  // ---------------------------------------------------------------------
  // Shape of a section.
  // ---------------------------------------------------------------------

  /** The position of each kind of child in the push order. */
  function Rank(c: Child): nat {
    match c
    case Department(_) => 0
    case TestName(_) => 1
    case HtmlRun(_, _) => 2
    case ResultsTable(_) => 3
    case PlainRow(_, _, _) => 4
    case Interpretation(_) => 5
  }

  predicate Ordered(cs: seq<Child>) {
    forall a, b :: 0 <= a < b < |cs| ==> Rank(cs[a]) <= Rank(cs[b])
  }

  predicate RanksAtLeast(cs: seq<Child>, k: nat) {
    forall c :: c in cs ==> Rank(c) >= k
  }

  predicate RanksAtMost(cs: seq<Child>, k: nat) {
    forall c :: c in cs ==> Rank(c) <= k
  }

  lemma OrderedAppend(a: seq<Child>, b: seq<Child>, k: nat)
    requires Ordered(a) && Ordered(b) && RanksAtMost(a, k) && RanksAtLeast(b, k)
    ensures Ordered(a + b)
  {
    forall x, y | 0 <= x < y < |a + b| ensures Rank((a + b)[x]) <= Rank((a + b)[y]) {
      if y < |a| {
        assert (a + b)[x] == a[x] && (a + b)[y] == a[y];
      } else if x >= |a| {
        assert (a + b)[x] == b[x - |a|] && (a + b)[y] == b[y - |a|];
      } else {
        assert (a + b)[x] == a[x] && a[x] in a;
        assert (a + b)[y] == b[y - |a|] && b[y - |a|] in b;
      }
    }
  }

  lemma OrderedUniform(cs: seq<Child>, k: nat)
    requires forall c :: c in cs ==> Rank(c) == k
    ensures Ordered(cs) && RanksAtLeast(cs, k) && RanksAtMost(cs, k)
  {
    forall a, b | 0 <= a < b < |cs| ensures Rank(cs[a]) <= Rank(cs[b]) {
      assert cs[a] in cs && cs[b] in cs;
    }
  }

  /** Blocks of one kind each, in rank order, concatenate in order. */
  lemma BlocksOrdered(head: seq<Child>, runs: seq<Child>, tab: seq<Child>, plain: seq<Child>, interp: seq<Child>)
    requires |head| == 2 && head[0].Department? && head[1].TestName?
    requires forall c :: c in runs ==> c.HtmlRun?
    requires forall c :: c in tab ==> c.ResultsTable?
    requires forall c :: c in plain ==> c.PlainRow?
    requires forall c :: c in interp ==> c.Interpretation?
    ensures Ordered(head + runs + tab + plain + interp)
  {
    OrderedUniform(runs, 2);
    OrderedUniform(tab, 3);
    OrderedUniform(plain, 4);
    OrderedUniform(interp, 5);
    OrderedAppend(head, runs, 2);
    OrderedAppend(head + runs, tab, 3);
    assert RanksAtMost(head + runs + tab, 4);
    OrderedAppend(head + runs + tab, plain, 4);
    assert RanksAtMost(head + runs + tab + plain, 5);
    OrderedAppend(head + runs + tab + plain, interp, 5);
  }

  /** A section's children split into its six blocks. */
  lemma SectionBlocks(t: Test)
    ensures SectionChildren(t) ==
      [Department(TextOf(t.category)), TestName(TextOf(t.testName))]
      + (if HasHtmlContent(t.fields) then MarkupBlock(t.fields) else [])
      + (if HasTableFields(t.fields) then [ResultsTable(RenderFields(t.fields, 0))] else [])
      + (if !HasHtmlContent(t.fields) && !HasTableFields(t.fields) then PlainBlock(t.fields) else [])
      + (if TruthyStr(t.interpretation) then [Interpretation(t.interpretation.value)] else [])
  {
  }

  /** Membership in a section assembled from one-kind blocks. */
  lemma BlockMembership(head: seq<Child>, runs: seq<Child>, tab: seq<Child>, plain: seq<Child>, interp: seq<Child>)
    requires |head| == 2 && head[0].Department? && head[1].TestName?
    requires forall c :: c in runs ==> c.HtmlRun?
    requires forall c :: c in tab ==> c.ResultsTable?
    requires forall c :: c in plain ==> c.PlainRow?
    requires forall c :: c in interp ==> c.Interpretation?
    ensures var cs := head + runs + tab + plain + interp;
      && |cs| >= 2 && cs[0] == head[0] && cs[1] == head[1]
      && (forall c: Child :: c.HtmlRun? ==> (c in cs <==> c in runs))
      && (forall c: Child :: c.ResultsTable? ==> (c in cs <==> c in tab))
      && (forall c: Child :: c.PlainRow? ==> (c in cs <==> c in plain))
      && (forall c: Child :: c.Interpretation? ==> (c in cs <==> c in interp))
  {
  }

  /** The fixed parts: the department and the test name open every section,
      and the interpretation is present exactly when its text is truthy. */
  lemma SectionFrame(t: Test)
    ensures |SectionChildren(t)| >= 2
    ensures SectionChildren(t)[0] == Department(TextOf(t.category))
    ensures SectionChildren(t)[1] == TestName(TextOf(t.testName))
    ensures forall x :: Interpretation(x) in SectionChildren(t) <==>
      TruthyStr(t.interpretation) && x == t.interpretation.value
  {
    var fs := t.fields;
    SectionBlocks(t);
    BlockMembership(
      [Department(TextOf(t.category)), TestName(TextOf(t.testName))],
      if HasHtmlContent(fs) then MarkupBlock(fs) else [],
      if HasTableFields(fs) then [ResultsTable(RenderFields(fs, 0))] else [],
      if !HasHtmlContent(fs) && !HasTableFields(fs) then PlainBlock(fs) else [],
      if TruthyStr(t.interpretation) then [Interpretation(t.interpretation.value)] else []);
  }

  /** The three display modes. Rich-text runs appear exactly when
      `hasHtmlContent` holds, the table exactly when `hasTableFields` holds
      (holding the rows `renderFields` produces), and plain rows only when
      neither does. */
  lemma SectionModes(t: Test)
    ensures (exists j, h :: HtmlRun(j, h) in SectionChildren(t)) <==> HasHtmlContent(t.fields)
    ensures forall rows :: ResultsTable(rows) in SectionChildren(t) <==>
      HasTableFields(t.fields) && rows == RenderFields(t.fields, 0)
    ensures forall j, l, v :: PlainRow(j, l, v) in SectionChildren(t) ==>
      !HasHtmlContent(t.fields) && !HasTableFields(t.fields)
  {
    var fs := t.fields;
    SectionBlocks(t);
    BlockMembership(
      [Department(TextOf(t.category)), TestName(TextOf(t.testName))],
      if HasHtmlContent(fs) then MarkupBlock(fs) else [],
      if HasTableFields(fs) then [ResultsTable(RenderFields(fs, 0))] else [],
      if !HasHtmlContent(fs) && !HasTableFields(fs) then PlainBlock(fs) else [],
      if TruthyStr(t.interpretation) then [Interpretation(t.interpretation.value)] else []);
    if HasHtmlContent(fs) {
      var i :| 0 <= i < |fs| && MarkupNode(fs[i]);
      NarrowWithinBroad(fs[i].field.value);
      assert HtmlRun(i, fs[i].field.value) in MarkupBlock(fs);
    }
  }

  // ---------------------------------------------------------------------
  // Which values a section shows.
  // ---------------------------------------------------------------------

  /** The top-level field at `i` has its value on the page: as a run, as a
      depth-0 table row, or as a plain row. */
  ghost predicate ValueShown(t: Test, i: nat)
    requires i < |t.fields| && t.fields[i].FieldNode?
  {
    var cs := SectionChildren(t);
    var f := t.fields[i].field;
    || (exists h :: HtmlRun(i, h) in cs)
    || (exists rows :: ResultsTable(rows) in cs && FieldRow(f, 0) in rows)
    || (exists l :: PlainRow(i, l, f.value) in cs)
  }

  /** A top-level field with a table value is rendered at depth 0. */
  lemma {:induction false} TopFieldRendered(fs: seq<Node>, i: nat, d: nat)
    requires i < |fs| && fs[i].FieldNode? && TableValue(fs[i].field)
    ensures FieldRow(fs[i].field, d) in RenderFields(fs, d)
    decreases i
  {
    assert fs == [fs[0]] + fs[1..];
    RenderFieldsAppend([fs[0]], fs[1..], d);
    if i > 0 {
      TopFieldRendered(fs[1..], i - 1, d);
    }
  }

  /** Exactly which truthy top-level values a section shows: an HTML value
      only in markup mode, a non-HTML value only in table mode, and any value
      when neither mode holds. In particular a section in one mode silently
      drops the values that belong to the other. */
  lemma ValueShownExactly(t: Test, i: nat)
    requires i < |t.fields| && Valued(t.fields[i])
    ensures ValueShown(t, i) <==>
      var v := t.fields[i].field.value;
      var html := HasHtmlContent(t.fields);
      var table := HasTableFields(t.fields);
      (IsHtmlValue(v) && html) || (!IsHtmlValue(v) && table) || (!html && !table)
  {
    ShownWhereModeAllows(t, i);
    ShownOnlyWhereModeAllows(t, i);
  }

  lemma ShownWhereModeAllows(t: Test, i: nat)
    requires i < |t.fields| && Valued(t.fields[i])
    ensures var v := t.fields[i].field.value;
      var html := HasHtmlContent(t.fields);
      var table := HasTableFields(t.fields);
      (IsHtmlValue(v) && html) || (!IsHtmlValue(v) && table) || (!html && !table) ==> ValueShown(t, i)
  {
    var fs := t.fields;
    var f := fs[i].field;
    var cs := SectionChildren(t);
    var html := HasHtmlContent(fs);
    var table := HasTableFields(fs);
    SectionModes(t);
    if IsHtmlValue(f.value) && html {
      assert HtmlRun(i, f.value) in MarkupBlock(fs);
      assert HtmlRun(i, f.value) in cs;
    }
    if !IsHtmlValue(f.value) && table {
      TopFieldRendered(fs, i, 0);
      assert ResultsTable(RenderFields(fs, 0)) in cs;
    }
    if !html && !table {
      assert PlainRow(i, Label(f.name), f.value) in PlainBlock(fs);
      assert PlainRow(i, Label(f.name), f.value) in cs;
    }
  }

  lemma ShownOnlyWhereModeAllows(t: Test, i: nat)
    requires i < |t.fields| && Valued(t.fields[i])
    ensures var v := t.fields[i].field.value;
      var html := HasHtmlContent(t.fields);
      var table := HasTableFields(t.fields);
      ValueShown(t, i) ==> (IsHtmlValue(v) && html) || (!IsHtmlValue(v) && table) || (!html && !table)
  {
    var f := t.fields[i].field;
    var cs := SectionChildren(t);
    if ValueShown(t, i) {
      if exists h :: HtmlRun(i, h) in cs {
        var h :| HtmlRun(i, h) in cs;
        ShownAsRun(t, i, h);
      } else if exists rows :: ResultsTable(rows) in cs && FieldRow(f, 0) in rows {
        var rows :| ResultsTable(rows) in cs && FieldRow(f, 0) in rows;
        ShownInTable(t, i, rows);
      } else {
        var l :| PlainRow(i, l, f.value) in cs;
        SectionModes(t);
      }
    }
  }

  lemma ShownAsRun(t: Test, i: nat, h: string)
    requires i < |t.fields| && Valued(t.fields[i])
    requires HtmlRun(i, h) in SectionChildren(t)
    ensures IsHtmlValue(t.fields[i].field.value) && HasHtmlContent(t.fields)
  {
    var fs := t.fields;
    SectionModes(t);
    SectionBlocks(t);
    BlockMembership(
      [Department(TextOf(t.category)), TestName(TextOf(t.testName))],
      if HasHtmlContent(fs) then MarkupBlock(fs) else [],
      if HasTableFields(fs) then [ResultsTable(RenderFields(fs, 0))] else [],
      if !HasHtmlContent(fs) && !HasTableFields(fs) then PlainBlock(fs) else [],
      if TruthyStr(t.interpretation) then [Interpretation(t.interpretation.value)] else []);
    assert HtmlRun(i, h) in HtmlRuns(fs, 0);
  }

  lemma ShownInTable(t: Test, i: nat, rows: seq<Row>)
    requires i < |t.fields| && Valued(t.fields[i])
    requires ResultsTable(rows) in SectionChildren(t) && FieldRow(t.fields[i].field, 0) in rows
    ensures !IsHtmlValue(t.fields[i].field.value) && HasTableFields(t.fields)
  {
    SectionModes(t);
    RowsAreTableRows(t.fields, 0);
  }

  /** A `field` node with only a name, a value and a unit. */
  function Simple(name: string, value: string, unit: string): Node {
    FieldNode(FieldData(name, value, unit, "", false, "", ""))
  }

  /** A value that only `isHtmlValue` takes for markup (one marked up with
      `<b>` alone, say) is dropped from a table section: `isHtmlValue` keeps
      it out of the table, while the narrower `hasHtmlContent` test keeps the
      section out of markup mode. */
  lemma DroppedBoldValue(v: string, w: string, unit: string)
    requires IsHtmlValue(v) && !HasNarrowMarker(v)
    requires w != "" && '<' !in w && unit != ""
    ensures var t := Test(None, None, [Simple("", v, ""), Simple("", w, unit)], None);
      Valued(t.fields[0]) && !ValueShown(t, 0) && ValueShown(t, 1)
  {
    var t := Test(None, None, [Simple("", v, ""), Simple("", w, unit)], None);
    NoAngleNoMarkup(w);
    assert !HasHtmlContent(t.fields) by {
      assert !MarkupNode(t.fields[0]) && !MarkupNode(t.fields[1]);
    }
    assert HasTableFields(t.fields) by {
      assert TableNode(t.fields[1]);
    }
    ValueShownExactly(t, 0);
    ValueShownExactly(t, 1);
  }

  /** A plain value without unit or range is dropped from a markup section:
      it is neither a run nor a table row, and plain rows are not produced. */
  lemma DroppedPlainValue(markup: string, w: string)
    requires HasNarrowMarker(markup) && w != "" && '<' !in w
    ensures var t := Test(None, None, [Simple("", markup, ""), Simple("", w, "")], None);
      Valued(t.fields[1]) && !ValueShown(t, 1) && ValueShown(t, 0)
  {
    var t := Test(None, None, [Simple("", markup, ""), Simple("", w, "")], None);
    NoAngleNoMarkup(w);
    NarrowWithinBroad(markup);
    assert markup != "" by {
      var m :| m in NarrowMarkers && Includes(markup, m);
    }
    assert HasHtmlContent(t.fields) by {
      assert MarkupNode(t.fields[0]);
    }
    assert !HasTableFields(t.fields) by {
      assert !TableNode(t.fields[0]) && !TableNode(t.fields[1]);
    }
    ValueShownExactly(t, 0);
    ValueShownExactly(t, 1);
  }
}
