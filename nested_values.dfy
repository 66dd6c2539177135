/**
 * `extractNestedValuesGenerator` and its inner `extractValues`
 * (query-insights-extension/src/utils.js, and the identical copy in
 * src/utils.js): flattening a Looker result row, whose cells are objects
 * that carry a `value` and whose pivoted cells nest one level of such
 * objects per pivot key, into "label:value" strings.
 */
module NestedValues {
  import opened JsSemantics

  /** A parsed JSON value: `null`, a primitive carried as the text its
      template-literal conversion produces, or an object with its own
      enumerable entries in for…in order. */
  datatype JsValue = Null | Prim(text: string) | Obj(entries: seq<Entry>)
  datatype Entry = Entry(key: string, val: JsValue)

  /** The own entry named `k`, if any. */
  function Lookup(entries: seq<Entry>, k: string): (r: Option<JsValue>)
    ensures r.Some? <==> exists i :: 0 <= i < |entries| && entries[i].key == k
    ensures r.Some? ==> exists i :: 0 <= i < |entries| && entries[i].key == k && entries[i].val == r.value
  {
    if entries == [] then None
    else if entries[0].key == k then Some(entries[0].val)
    else Lookup(entries[1..], k)
  }

  /** True of an object that `extractValues` reports instead of descending
      into: `'value' in value && value.value !== null`. */
  predicate HasValue(entries: seq<Entry>) {
    var f := Lookup(entries, "value");
    f.Some? && f.value != Null
  }

  /** The text `${value.value}` produces (the value is not null here). */
  function ToText(v: JsValue): string {
    match v
    case Prim(text) => text
    case Obj(_) => "[object Object]"
    case Null => "null"
  }

  /** `prefix ? `${prefix.split('.')[1]} ${key}` : key`: an empty prefix is
      falsy; a prefix without a dot has no second part, which the template
      renders as "undefined". */
  function PivotLabel(prefix: string, key: string): (r: string)
    ensures prefix == "" ==> r == key
    ensures prefix != "" ==>
              r == (if |Split(prefix, '.')| > 1 then Split(prefix, '.')[1] else "undefined") + " " + key
  {
    if prefix == "" then key
    else
      var parts := Split(prefix, '.');
      (if |parts| > 1 then parts[1] else "undefined") + " " + key
  }

  // ---------------------------------------------------------------------
  // Specification of extractValues
  // ---------------------------------------------------------------------

  /** What one iteration of the for…in loop appends for entry `e`. */
  function Contribution(e: Entry, prefix: string): seq<string>
    decreases e
  {
    match e.val
    case Obj(inner) =>
      if HasValue(inner) then [PivotLabel(prefix, e.key) + ":" + ToText(Lookup(inner, "value").value)]
      else if |inner| > 0 then EntriesExtraction(inner, e.key)
      else []
    case _ => []
  }

  /** What the loop has accumulated after the entries `entries`. */
  function EntriesExtraction(entries: seq<Entry>, prefix: string): seq<string>
    decreases entries
  {
    if entries == [] then []
    else EntriesExtraction(entries[..|entries| - 1], prefix) + Contribution(entries[|entries| - 1], prefix)
  }

  /** The array `extractValues(obj, prefix)` returns: for…in over a
      primitive or null yields no object-valued entry. */
  function Extraction(obj: JsValue, prefix: string): seq<string>
  {
    match obj
    case Obj(entries) => EntriesExtraction(entries, prefix)
    case _ => []
  }

  // ---------------------------------------------------------------------
  // The imperative code
  // ---------------------------------------------------------------------

  /** `extractValues(obj, prefix)`: the for…in loop pushing one string per
      value-bearing object and spreading the result of the recursive call
      for every other non-empty object. */
  method ExtractValues(obj: JsValue, prefix: string) returns (values: seq<string>)
    ensures values == Extraction(obj, prefix)
    decreases obj
  {
    values := [];
    if obj.Obj? {
      var entries := obj.entries;
      for i := 0 to |entries|
        invariant values == EntriesExtraction(entries[..i], prefix)
      {
        var key, value := entries[i].key, entries[i].val;
        assert entries[..i + 1][..i] == entries[..i];
        if value.Obj? {
          var field := Lookup(value.entries, "value");
          if field.Some? && field.value != Null {
            var pivotLabel := PivotLabel(prefix, key);
            values := values + [pivotLabel + ":" + ToText(field.value)];
          } else if |value.entries| > 0 {
            assert entries[i] in entries;
            var nested := ExtractValues(value, key);
            values := values + nested;
          }
        }
      }
      assert entries[..|entries|] == entries;
    }
  }

  /** `extractNestedValuesGenerator(data)`: its one and only yield, the
      extracted strings joined with commas. */
  method ExtractNestedValuesGenerator(data: JsValue) returns (yielded: string)
    ensures yielded == Join(Extraction(data, ""), ",")
  {
    var values := ExtractValues(data, "");
    yielded := Join(values, ",");
  }

  // ---------------------------------------------------------------------
  // A reference description: the value-bearing objects and their key paths
  // ---------------------------------------------------------------------

  /** A value-bearing object reached through the keys `parents` and then `key`. */
  datatype Leaf = Leaf(parents: seq<string>, key: string, field: JsValue)

  /** The value-bearing objects below `entries`, in for…in order, not
      looking inside a value-bearing object and not descending into
      primitives. */
  function LeavesOf(entries: seq<Entry>): seq<Leaf>
    decreases entries
  {
    if entries == [] then []
    else LeavesOf(entries[..|entries| - 1]) + EntryLeaves(entries[|entries| - 1])
  }

  function EntryLeaves(e: Entry): seq<Leaf>
    decreases e
  {
    match e.val
    case Obj(inner) =>
      if HasValue(inner) then [Leaf([], e.key, Lookup(inner, "value").value)]
      else Under(e.key, LeavesOf(inner))
    case _ => []
  }

  /** The same leaves seen one level further up, through key `k`. */
  function Under(k: string, leaves: seq<Leaf>): (r: seq<Leaf>)
    ensures |r| == |leaves|
  {
    if leaves == [] then []
    else [Leaf([k] + leaves[0].parents, leaves[0].key, leaves[0].field)] + Under(k, leaves[1..])
  }

  /** The string reported for a leaf when the outermost object was reached
      through `prefix`: the label uses the leaf's own key and the key of the
      object directly holding it, and nothing further up. */
  function Render(prefix: string, l: Leaf): string {
    var parentKey := if l.parents == [] then prefix else l.parents[|l.parents| - 1];
    PivotLabel(parentKey, l.key) + ":" + ToText(l.field)
  }

  function RenderAll(prefix: string, leaves: seq<Leaf>): (r: seq<string>)
    ensures |r| == |leaves|
  {
    if leaves == [] then [] else [Render(prefix, leaves[0])] + RenderAll(prefix, leaves[1..])
  }

  lemma {:induction false} RenderAllConcat(prefix: string, a: seq<Leaf>, b: seq<Leaf>)
    ensures RenderAll(prefix, a + b) == RenderAll(prefix, a) + RenderAll(prefix, b)
    decreases |a|
  {
    if a == [] {
      assert a + b == b;
    } else {
      assert (a + b)[1..] == a[1..] + b;
      RenderAllConcat(prefix, a[1..], b);
    }
  }

  /** Seen from one level up, a leaf's label does not change. */
  lemma {:induction false} RenderAllUnder(prefix: string, k: string, leaves: seq<Leaf>)
    ensures RenderAll(prefix, Under(k, leaves)) == RenderAll(k, leaves)
    decreases |leaves|
  {
    if leaves != [] {
      RenderAllUnder(prefix, k, leaves[1..]);
    }
  }

  /** Each entry contributes the rendering of its leaves. */
  lemma {:induction false} ContributionRendersLeaves(e: Entry, prefix: string)
    ensures Contribution(e, prefix) == RenderAll(prefix, EntryLeaves(e))
    decreases e
  {
    match e.val
    case Obj(inner) =>
      if !HasValue(inner) {
        EntriesExtractionRendersLeaves(inner, e.key);
        RenderAllUnder(prefix, e.key, LeavesOf(inner));
        if |inner| == 0 {
          assert LeavesOf(inner) == [];
        }
      }
    case _ =>
  }

  /** The loop's accumulated array is the rendering of the leaves below the
      entries it has visited. */
  lemma {:induction false} EntriesExtractionRendersLeaves(entries: seq<Entry>, prefix: string)
    ensures EntriesExtraction(entries, prefix) == RenderAll(prefix, LeavesOf(entries))
    decreases entries
  {
    if entries != [] {
      var front, e := entries[..|entries| - 1], entries[|entries| - 1];
      EntriesExtractionRendersLeaves(front, prefix);
      ContributionRendersLeaves(e, prefix);
      RenderAllConcat(prefix, LeavesOf(front), EntryLeaves(e));
    }
  }

  /** `extractValues(data)` reports exactly one "label:value" string per
      value-bearing object, in for…in order; a top-level one is labelled by
      its key, a nested one by the second dot-separated part of its parent's
      key and its own key. */
  lemma ExtractionIsRenderedLeaves(entries: seq<Entry>)
    ensures Extraction(Obj(entries), "") == RenderAll("", LeavesOf(entries))
    ensures |Extraction(Obj(entries), "")| == |LeavesOf(entries)|
  {
    EntriesExtractionRendersLeaves(entries, "");
  }

  /** A top-level value-bearing cell `{k: {value: v, ...}}` is reported under
      its bare key. */
  lemma TopLevelCell(k: string, cell: seq<Entry>)
    requires HasValue(cell)
    ensures Extraction(Obj([Entry(k, Obj(cell))]), "") == [k + ":" + ToText(Lookup(cell, "value").value)]
  {
    var row := [Entry(k, Obj(cell))];
    assert EntriesExtraction(row, "") == Contribution(row[0], "") by {
      assert row[..0] == [];
    }
  }

  /** The for…in loop visits entries in order: the extraction over a
      concatenation is the concatenation of the extractions. */
  lemma {:induction false} EntriesExtractionConcat(a: seq<Entry>, b: seq<Entry>, prefix: string)
    ensures EntriesExtraction(a + b, prefix) == EntriesExtraction(a, prefix) + EntriesExtraction(b, prefix)
    decreases |b|
  {
    if b == [] {
      assert a + b == a;
    } else {
      var front := b[..|b| - 1];
      assert (a + b)[..|a + b| - 1] == a + front;
      EntriesExtractionConcat(a, front, prefix);
    }
  }

  /** Every reported string holds a ':' between label and value, so none is empty. */
  lemma {:induction false} RenderedNonEmpty(prefix: string, leaves: seq<Leaf>)
    ensures forall i :: 0 <= i < |RenderAll(prefix, leaves)| ==> ':' in RenderAll(prefix, leaves)[i]
    decreases |leaves|
  {
    if leaves != [] {
      RenderedNonEmpty(prefix, leaves[1..]);
      var l := leaves[0];
      var parentKey := if l.parents == [] then prefix else l.parents[|l.parents| - 1];
      var lab := PivotLabel(parentKey, l.key);
      assert (lab + ":" + ToText(l.field))[|lab|] == ':';
    }
  }

  lemma JoinEmpty(xs: seq<string>, sep: string)
    requires |sep| > 0
    ensures Join(xs, sep) == "" <==> xs == [] || (|xs| == 1 && xs[0] == "")
  {
    if |xs| > 1 {
      assert |Join(xs, sep)| >= |sep|;
    }
  }

  /** The generator yields the empty string exactly when the row holds no
      value-bearing object. */
  lemma GeneratorYieldsEmptyIff(entries: seq<Entry>)
    ensures Join(Extraction(Obj(entries), ""), ",") == "" <==> LeavesOf(entries) == []
  {
    ExtractionIsRenderedLeaves(entries);
    RenderedNonEmpty("", LeavesOf(entries));
    JoinEmpty(Extraction(Obj(entries), ""), ",");
    if LeavesOf(entries) != [] {
      assert ':' in Extraction(Obj(entries), "")[0];
    }
  }

  /** The prefix handed to a nested call is the key alone: how deep an
      object sits, and the keys above its parent, never reach its label. */
  lemma NestedContributionIgnoresPrefix(e: Entry, p1: string, p2: string)
    requires e.val.Obj? && !HasValue(e.val.entries)
    ensures Contribution(e, p1) == Contribution(e, p2)
  {
  }

  /** A pivoted cell `{k: {pk: {value: v, ...}}}`, the shape Looker gives a
      measure pivoted on `k`, is reported as "<second part of k> pk:v". */
  lemma PivotedCell(k: string, pk: string, cell: seq<Entry>)
    requires HasValue(cell) && pk != "value" && |Split(k, '.')| > 1
    ensures Extraction(Obj([Entry(k, Obj([Entry(pk, Obj(cell))]))]), "")
            == [Split(k, '.')[1] + " " + pk + ":" + ToText(Lookup(cell, "value").value)]
  {
    assert k != "";
    var inner := [Entry(pk, Obj(cell))];
    assert !HasValue(inner) by {
      assert Lookup(inner, "value") == Lookup([], "value");
    }
    assert EntriesExtraction(inner, k) == Contribution(inner[0], k) by {
      assert inner[..0] == [];
    }
    var outer := [Entry(k, Obj(inner))];
    assert EntriesExtraction(outer, "") == Contribution(outer[0], "") by {
      assert outer[..0] == [];
    }
  }

  /** When the key of the object holding a value-bearing cell has no dot,
      `prefix.split('.')[1]` is undefined and the label starts with the text
      "undefined". */
  lemma DotlessParentLabel(k: string, pk: string, cell: seq<Entry>)
    requires HasValue(cell) && pk != "value" && k != "" && '.' !in k
    ensures Extraction(Obj([Entry(k, Obj([Entry(pk, Obj(cell))]))]), "")
            == ["undefined " + pk + ":" + ToText(Lookup(cell, "value").value)]
  {
    SplitWithoutSeparator(k, '.');
    assert PivotLabel(k, pk) == "undefined " + pk by {
      assert "undefined" + " " + pk == "undefined " + pk;
    }
    var inner := [Entry(pk, Obj(cell))];
    assert !HasValue(inner) by {
      assert Lookup(inner, "value") == Lookup([], "value");
    }
    assert EntriesExtraction(inner, k) == Contribution(inner[0], k) by {
      assert inner[..0] == [];
    }
    var outer := [Entry(k, Obj(inner))];
    assert EntriesExtraction(outer, "") == Contribution(outer[0], "") by {
      assert outer[..0] == [];
    }
  }
}
