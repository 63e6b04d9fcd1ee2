/** The rebindings view of `_populate_rebindings_tree`: every `actionmap`
    child of the root becomes a group row, every `action` inside it one row
    per `rebind` child (or one "N/A" placeholder when it has none), and each
    rebind row is linked to its `rebind` element. The view is built step by
    step, in the order the window appends rows, so that the window's loops
    can be checked against it directly. */
module RebindingsView {
  import opened XmlDoc
  import opened TreeModel

  /** The rows built so far and the row-to-element links
      (`item_id_to_rebind_element`). */
  datatype View = View(rows: seq<Node>, links: map<nat, nat>)

  function GroupRow(actionmap: Element): Node {
    Node(TreeTop, Get(actionmap, "name", "Unknown ActionMap"), "", "", false, false)
  }

  function BindingRow(action: Element, rebind: Element, group: nat): Node {
    Node(Under(group), "  " + Get(action, "name", "Unknown Action") + " (" + Get(rebind, "device", "") + ")",
         Get(rebind, "input", ""), Get(rebind, "defaultInput", ""), true, false)
  }

  function PlaceholderRow(action: Element, group: nat): Node {
    Node(Under(group), "  " + Get(action, "name", "Unknown Action"), "N/A", "N/A", false, false)
  }

  /** Appending one editable row per rebind, in order, each linked to its
      own rebind element. */
  function AddRebinds(elems: seq<Element>, v: View, a: nat, rbs: seq<nat>, group: nat): View
    requires a < |elems| && AllIn(elems, rbs)
    decreases |rbs|
  {
    if rbs == [] then v
    else
      var w := AddRebinds(elems, v, a, rbs[..|rbs| - 1], group);
      var last := rbs[|rbs| - 1];
      View(w.rows + [BindingRow(elems[a], elems[last], group)], w.links[|w.rows| := last])
  }

  /** The rows added for the rebinds follow the earlier rows, one per
      rebind, each linked to its own rebind element; earlier rows and links
      are kept and no other key is added. */
  lemma AddRebindsShape(elems: seq<Element>, v: View, a: nat, rbs: seq<nat>, group: nat)
    requires a < |elems| && AllIn(elems, rbs)
    ensures var r := AddRebinds(elems, v, a, rbs, group);
      && |r.rows| == |v.rows| + |rbs| && r.rows[..|v.rows|] == v.rows
      && (forall key :: key in r.links <==> key in v.links || |v.rows| <= key < |v.rows| + |rbs|)
      && (forall k :: 0 <= k < |rbs| ==>
            r.rows[|v.rows| + k] == BindingRow(elems[a], elems[rbs[k]], group) && r.links[|v.rows| + k] == rbs[k])
      && (forall key :: key in v.links && key < |v.rows| ==> r.links[key] == v.links[key])
  {
    AddRebindsRows(elems, v, a, rbs, group);
    AddRebindsLinks(elems, v, a, rbs, group);
  }

  lemma {:induction false} AddRebindsRows(elems: seq<Element>, v: View, a: nat, rbs: seq<nat>, group: nat)
    requires a < |elems| && AllIn(elems, rbs)
    ensures var r := AddRebinds(elems, v, a, rbs, group);
      && |r.rows| == |v.rows| + |rbs| && r.rows[..|v.rows|] == v.rows
      && (forall k :: 0 <= k < |rbs| ==> r.rows[|v.rows| + k] == BindingRow(elems[a], elems[rbs[k]], group))
    decreases |rbs|
  {
    if rbs != [] {
      var init := rbs[..|rbs| - 1];
      AddRebindsRows(elems, v, a, init, group);
      var w := AddRebinds(elems, v, a, init, group);
      var r := AddRebinds(elems, v, a, rbs, group);
      assert r.rows == w.rows + [BindingRow(elems[a], elems[rbs[|rbs| - 1]], group)];
      assert r.rows[..|v.rows|] == w.rows[..|v.rows|];
      forall k | 0 <= k < |init|
        ensures r.rows[|v.rows| + k] == BindingRow(elems[a], elems[rbs[k]], group)
      {
        assert init[k] == rbs[k];
        assert r.rows[|v.rows| + k] == w.rows[|v.rows| + k];
      }
    }
  }

  lemma {:induction false} AddRebindsLinks(elems: seq<Element>, v: View, a: nat, rbs: seq<nat>, group: nat)
    requires a < |elems| && AllIn(elems, rbs)
    ensures var r := AddRebinds(elems, v, a, rbs, group);
      && |r.rows| == |v.rows| + |rbs|
      && (forall key :: key in r.links <==> key in v.links || |v.rows| <= key < |v.rows| + |rbs|)
      && (forall k :: 0 <= k < |rbs| ==> r.links[|v.rows| + k] == rbs[k])
      && (forall key :: key in v.links && key < |v.rows| ==> r.links[key] == v.links[key])
    decreases |rbs|
  {
    if rbs != [] {
      var init := rbs[..|rbs| - 1];
      AddRebindsLinks(elems, v, a, init, group);
      var w := AddRebinds(elems, v, a, init, group);
      var r := AddRebinds(elems, v, a, rbs, group);
      assert r.links == w.links[|w.rows| := rbs[|rbs| - 1]];
      assert |w.rows| == |v.rows| + |init|;
      forall k | 0 <= k < |init| ensures r.links[|v.rows| + k] == rbs[k] {
        assert init[k] == rbs[k];
        assert |v.rows| + k != |w.rows|;
      }
      forall key | key in v.links && key < |v.rows| ensures r.links[key] == v.links[key] {
        assert key != |w.rows|;
      }
      assert r.links[|v.rows| + |init|] == rbs[|init|];
      forall key ensures key in r.links <==> key in v.links || |v.rows| <= key < |v.rows| + |rbs| {
        assert key in r.links <==> key in w.links || key == |w.rows|;
      }
    }
  }

  /** One `action`: its rebind rows, or a single "N/A" row with no link. */
  function AddAction(elems: seq<Element>, v: View, a: nat, group: nat): View
    requires WellFormedArena(elems) && a < |elems|
  {
    var rbs := FindAll(elems, a, "rebind");
    if rbs == [] then View(v.rows + [PlaceholderRow(elems[a], group)], v.links)
    else AddRebinds(elems, v, a, rbs, group)
  }

  function AddActions(elems: seq<Element>, v: View, acts: seq<nat>, group: nat): View
    requires WellFormedArena(elems) && AllIn(elems, acts)
    decreases |acts|
  {
    if acts == [] then v
    else
      AddAction(elems, AddActions(elems, v, acts[..|acts| - 1], group), acts[|acts| - 1], group)
  }

  /** The group row of one `actionmap` followed by the rows of its actions. */
  function AddActionMap(elems: seq<Element>, v: View, am: nat): View
    requires WellFormedArena(elems) && am < |elems|
  {
    AddActions(elems, View(v.rows + [GroupRow(elems[am])], v.links), FindAll(elems, am, "action"), |v.rows|)
  }

  function ActionMapsView(elems: seq<Element>, ams: seq<nat>): View
    requires WellFormedArena(elems) && AllIn(elems, ams)
    decreases |ams|
  {
    if ams == [] then View([], map[])
    else
      AddActionMap(elems, ActionMapsView(elems, ams[..|ams| - 1]), ams[|ams| - 1])
  }

  /** The whole view of a rebindings document. */
  function RebindingsTree(d: Document): View
    requires WellFormed(d)
  {
    ActionMapsView(d.elems, FindAll(d.elems, d.root, "actionmap"))
  }

  // ----- One step of each builder, for the window's loops -----

  lemma {:induction false} AddRebindsStep(elems: seq<Element>, v: View, a: nat, rbs: seq<nat>, k: nat, group: nat)
    requires a < |elems| && AllIn(elems, rbs) && k < |rbs|
    ensures AllIn(elems, rbs[..k]) && AllIn(elems, rbs[..k + 1])
    ensures var w := AddRebinds(elems, v, a, rbs[..k], group);
      AddRebinds(elems, v, a, rbs[..k + 1], group)
        == View(w.rows + [BindingRow(elems[a], elems[rbs[k]], group)], w.links[|w.rows| := rbs[k]])
  {
    assert rbs[..k + 1][..k] == rbs[..k];
  }

  lemma {:induction false} AddActionsStep(elems: seq<Element>, v: View, acts: seq<nat>, j: nat, group: nat)
    requires WellFormedArena(elems) && AllIn(elems, acts) && j < |acts|
    ensures AllIn(elems, acts[..j]) && AllIn(elems, acts[..j + 1])
    ensures AddActions(elems, v, acts[..j + 1], group) == AddAction(elems, AddActions(elems, v, acts[..j], group), acts[j], group)
  {
    assert acts[..j + 1][..j] == acts[..j];
  }

  lemma {:induction false} ActionMapsViewStep(elems: seq<Element>, ams: seq<nat>, i: nat)
    requires WellFormedArena(elems) && AllIn(elems, ams) && i < |ams|
    ensures AllIn(elems, ams[..i]) && AllIn(elems, ams[..i + 1])
    ensures ActionMapsView(elems, ams[..i + 1]) == AddActionMap(elems, ActionMapsView(elems, ams[..i]), ams[i])
  {
    assert ams[..i + 1][..i] == ams[..i];
  }

  /** An action with rebinds gets exactly one editable row per rebind, each
      linked to its own rebind element and showing its `input`; an action
      without rebinds gets exactly one "N/A" row and no link. */
  lemma ActionRows(elems: seq<Element>, v: View, a: nat, group: nat)
    requires WellFormedArena(elems) && a < |elems|
    ensures var rbs := FindAll(elems, a, "rebind");
      var r := AddAction(elems, v, a, group);
      if rbs == [] then
        r.rows == v.rows + [PlaceholderRow(elems[a], group)] && r.links == v.links
      else
        && |r.rows| == |v.rows| + |rbs| && r.rows[..|v.rows|] == v.rows
        && (forall k :: 0 <= k < |rbs| ==>
              && |v.rows| + k in r.links && r.links[|v.rows| + k] == rbs[k]
              && elems[rbs[k]].tag == "rebind"
              && r.rows[|v.rows| + k].editable
              && r.rows[|v.rows| + k].value == Get(elems[rbs[k]], "input", ""))
        && (forall key :: key in r.links <==> key in v.links || |v.rows| <= key < |r.rows|)
  {
    var rbs := FindAll(elems, a, "rebind");
    if rbs != [] {
      AddRebindsShape(elems, v, a, rbs, group);
      var r := AddRebinds(elems, v, a, rbs, group);
      assert |r.rows| == |v.rows| + |rbs|;
      forall k | 0 <= k < |rbs|
        ensures r.rows[|v.rows| + k].editable && r.rows[|v.rows| + k].value == Get(elems[rbs[k]], "input", "")
      {
        assert r.rows[|v.rows| + k] == BindingRow(elems[a], elems[rbs[k]], group);
      }
    }
  }

  /** The links are exactly the editable rows, and each points at a
      `rebind` element whose `input` the row shows. */
  ghost predicate Exact(elems: seq<Element>, v: View) {
    && (forall k :: k in v.links <==> 0 <= k < |v.rows| && IsSettingRow(v.rows[k]))
    && (forall k :: k in v.links ==>
          && v.links[k] < |elems|
          && elems[v.links[k]].tag == "rebind"
          && v.rows[k].value == Get(elems[v.links[k]], "input", ""))
  }

  /** Two levels: a row either hangs in the tree widget or under an earlier
      row that does. */
  ghost predicate TwoLevels(rows: seq<Node>) {
    forall k :: 0 <= k < |rows| && rows[k].parent.Under? ==>
      rows[k].parent.node < k && rows[rows[k].parent.node].parent == TreeTop
  }

  ghost predicate Good(elems: seq<Element>, v: View) {
    Exact(elems, v) && TwoLevels(v.rows) && forall k :: 0 <= k < |v.rows| ==> !v.rows[k].colourEditor
  }

  /** One more binding row, under a group row, linked to a rebind element
      whose `input` it shows, keeps the view good. */
  lemma AppendBindingGood(elems: seq<Element>, w: View, row: Node, last: nat, group: nat)
    requires Good(elems, w) && group < |w.rows| && w.rows[group].parent == TreeTop
    requires last < |elems| && elems[last].tag == "rebind"
    requires row.parent == Under(group) && row.editable && !row.colourEditor
    requires row.value == Get(elems[last], "input", "")
    ensures Good(elems, View(w.rows + [row], w.links[|w.rows| := last]))
  {
    var r := View(w.rows + [row], w.links[|w.rows| := last]);
    assert forall k :: 0 <= k < |w.rows| ==> r.rows[k] == w.rows[k];
    assert r.rows[|w.rows|] == row;
  }

  lemma {:induction false} AddRebindsGood(elems: seq<Element>, v: View, a: nat, rbs: seq<nat>, group: nat)
    requires a < |elems| && AllIn(elems, rbs) && forall k :: 0 <= k < |rbs| ==> elems[rbs[k]].tag == "rebind"
    requires Good(elems, v) && group < |v.rows| && v.rows[group].parent == TreeTop
    ensures var r := AddRebinds(elems, v, a, rbs, group);
      Good(elems, r) && |r.rows| >= |v.rows| && r.rows[..|v.rows|] == v.rows
    decreases |rbs|
  {
    if rbs != [] {
      var init := rbs[..|rbs| - 1];
      AddRebindsGood(elems, v, a, init, group);
      var last := rbs[|rbs| - 1];
      var w := AddRebinds(elems, v, a, init, group);
      assert w.rows[group] == w.rows[..|v.rows|][group] == v.rows[group];
      AppendBindingGood(elems, w, BindingRow(elems[a], elems[last], group), last, group);
      var r := AddRebinds(elems, v, a, rbs, group);
      assert r.rows[..|v.rows|] == w.rows[..|v.rows|];
    }
  }

  lemma AddActionGood(elems: seq<Element>, v: View, a: nat, group: nat)
    requires WellFormedArena(elems) && a < |elems|
    requires Good(elems, v) && group < |v.rows| && v.rows[group].parent == TreeTop
    ensures Good(elems, AddAction(elems, v, a, group))
  {
    var rbs := FindAll(elems, a, "rebind");
    if rbs != [] {
      AddRebindsGood(elems, v, a, rbs, group);
    }
  }

  /** The rows an action adds all hang under its group row. */
  lemma AddActionTail(elems: seq<Element>, v: View, a: nat, group: nat)
    requires WellFormedArena(elems) && a < |elems|
    ensures var r := AddAction(elems, v, a, group);
      |r.rows| > |v.rows| && r.rows == v.rows + r.rows[|v.rows|..]
      && forall k :: |v.rows| <= k < |r.rows| ==> r.rows[k].parent == Under(group)
  {
    var rbs := FindAll(elems, a, "rebind");
    var r := AddAction(elems, v, a, group);
    if rbs == [] {
      assert r.rows == v.rows + [PlaceholderRow(elems[a], group)];
    } else {
      assert r == AddRebinds(elems, v, a, rbs, group);
      AddRebindsRows(elems, v, a, rbs, group);
      forall k | |v.rows| <= k < |r.rows| ensures r.rows[k].parent == Under(group) {
        var j := k - |v.rows|;
        assert r.rows[|v.rows| + j] == BindingRow(elems[a], elems[rbs[j]], group);
      }
    }
    assert r.rows == r.rows[..|v.rows|] + r.rows[|v.rows|..];
  }

  lemma AddActionCount(elems: seq<Element>, v: View, a: nat, group: nat)
    requires WellFormedArena(elems) && a < |elems|
    ensures TopLevelCount(AddAction(elems, v, a, group).rows) == TopLevelCount(v.rows)
  {
    AddActionTail(elems, v, a, group);
    var r := AddAction(elems, v, a, group);
    var tail := r.rows[|v.rows|..];
    assert forall k :: 0 <= k < |tail| ==> tail[k] == r.rows[|v.rows| + k];
    NoTopLevel(tail, group);
    TopLevelCountAppend(v.rows, tail);
  }

  lemma {:induction false} NoTopLevel(rows: seq<Node>, group: nat)
    requires forall k :: 0 <= k < |rows| ==> rows[k].parent == Under(group)
    ensures TopLevelCount(rows) == 0
    decreases |rows|
  {
    if rows != [] {
      NoTopLevel(rows[..|rows| - 1], group);
    }
  }

  lemma {:induction false} AddActionsGood(elems: seq<Element>, v: View, acts: seq<nat>, group: nat)
    requires WellFormedArena(elems) && AllIn(elems, acts)
    requires Good(elems, v) && group < |v.rows| && v.rows[group].parent == TreeTop
    ensures var r := AddActions(elems, v, acts, group);
      Good(elems, r) && |r.rows| >= |v.rows| && r.rows[..|v.rows|] == v.rows
      && TopLevelCount(r.rows) == TopLevelCount(v.rows)
    decreases |acts|
  {
    if acts != [] {
      AddActionsGood(elems, v, acts[..|acts| - 1], group);
      var w := AddActions(elems, v, acts[..|acts| - 1], group);
      assert w.rows[group] == v.rows[group];
      AddActionGood(elems, w, acts[|acts| - 1], group);
      AddActionTail(elems, w, acts[|acts| - 1], group);
      AddActionCount(elems, w, acts[|acts| - 1], group);
      var r := AddAction(elems, w, acts[|acts| - 1], group);
      PrefixOfConcat(w.rows, r.rows[|w.rows|..], |v.rows|);
    }
  }

  lemma PrefixOfConcat(a: seq<Node>, b: seq<Node>, n: nat)
    requires n <= |a|
    ensures (a + b)[..n] == a[..n]
  {
  }

  lemma AddActionMapGood(elems: seq<Element>, v: View, am: nat)
    requires WellFormedArena(elems) && am < |elems|
    requires Good(elems, v)
    ensures Good(elems, AddActionMap(elems, v, am))
    ensures TopLevelCount(AddActionMap(elems, v, am).rows) == TopLevelCount(v.rows) + 1
  {
    var g := View(v.rows + [GroupRow(elems[am])], v.links);
    assert g.rows[..|v.rows|] == v.rows;
    assert Good(elems, g);
    AddActionsGood(elems, g, FindAll(elems, am, "action"), |v.rows|);
    assert TopLevelCount(g.rows) == TopLevelCount(v.rows) + 1;
  }

  lemma {:induction false} ActionMapsViewGood(elems: seq<Element>, ams: seq<nat>)
    requires WellFormedArena(elems) && AllIn(elems, ams)
    ensures Good(elems, ActionMapsView(elems, ams))
    ensures TopLevelCount(ActionMapsView(elems, ams).rows) == |ams|
    decreases |ams|
  {
    if ams != [] {
      ActionMapsViewGood(elems, ams[..|ams| - 1]);
      AddActionMapGood(elems, ActionMapsView(elems, ams[..|ams| - 1]), ams[|ams| - 1]);
    }
  }

  /** The rebindings view of a document: a row is linked iff it is an
      editable binding row, every link points at a `rebind` element whose
      `input` the row shows, binding rows hang under group rows, and there
      is exactly one top-level (group) row per `actionmap`. */
  lemma RebindingsTreeShape(d: Document)
    requires WellFormed(d)
    ensures var v := RebindingsTree(d);
      && (forall k :: k in v.links <==> 0 <= k < |v.rows| && v.rows[k].editable)
      && (forall k :: k in v.links ==>
            && v.links[k] < |d.elems|
            && d.elems[v.links[k]].tag == "rebind"
            && v.rows[k].value == Get(d.elems[v.links[k]], "input", ""))
      && TwoLevels(v.rows)
      && TopLevelCount(v.rows) == |FindAll(d.elems, d.root, "actionmap")|
  {
    ActionMapsViewGood(d.elems, FindAll(d.elems, d.root, "actionmap"));
  }
}
