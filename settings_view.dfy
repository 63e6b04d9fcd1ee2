/** The user-settings view of `_populate_generic_xml_tree`, as a tree-shape
    transform. A `Class` element with a `field` attribute becomes one setting
    row under the current parent, and its children are hoisted to be that
    row's siblings. A `Class` element without `field` gets a row only when
    its parent is the tree widget itself; otherwise its children go to the
    current parent. Every other element becomes a row showing its tag and
    stripped text, with its children under it.

    The transform reads each element only through its `Look` (what its row
    would show) and its children, so it is stated over the arena of those
    shapes; `base` is the index the first generated row will get. */
module SettingsView {
  import opened Text
  import opened XmlDoc
  import opened TreeModel
  import opened Colour

  predicate IsSetting(el: Element) {
    el.tag == "Class" && "field" in el.attrs
  }

  function Decide(el: Element): Decision
    requires IsSetting(el)
  {
    Classify(el.attrs["field"], Get(el, "value", ""))
  }

  /** The self-heal: a reticle colour setting whose value does not parse as
      four numbers gets `DefaultRgba` as its value; nothing else changes. */
  function HealElem(el: Element): Element {
    if IsSetting(el) && Decide(el).heal then el.(attrs := el.attrs["value" := DefaultRgba]) else el
  }

  /** What population reads of one element. A setting shows its field name
      and either a colour editor (value column left empty) or its raw value;
      any other element shows its tag and its stripped text. */
  datatype Look = SettingLook(field: string, colourEditor: bool, shown: string)
                | OtherLook(tag: string, text: string)

  function LookOf(el: Element): Look {
    if IsSetting(el) then
      var d := Decide(el);
      SettingLook(el.attrs["field"], d.colourEditor, if d.colourEditor then "" else Get(el, "value", ""))
    else OtherLook(el.tag, Strip(el.text))
  }

  /** The row of an element with the given look under the given parent: a
      plain setting is editable text, a colour setting carries the editor. */
  function RowOf(l: Look, parent: Parent): Node {
    match l
    case SettingLook(field, colourEditor, shown) => Node(parent, field, shown, "", !colourEditor, colourEditor)
    case OtherLook(tag, text) => Node(parent, tag, text, "", false, false)
  }

  datatype Shape = Shape(look: Look, children: seq<nat>)

  function ShapeOf(el: Element): Shape {
    Shape(LookOf(el), el.children)
  }

  /** The shapes of an arena, element by element. */
  function Shapes(elems: seq<Element>): (r: seq<Shape>)
    ensures |r| == |elems|
    decreases |elems|
  {
    if elems == [] then [] else Shapes(elems[..|elems| - 1]) + [ShapeOf(elems[|elems| - 1])]
  }

  lemma {:induction false} ShapesAt(elems: seq<Element>, i: nat)
    requires i < |elems|
    ensures Shapes(elems)[i] == ShapeOf(elems[i])
    decreases |elems|
  {
    if i < |elems| - 1 {
      ShapesAt(elems[..|elems| - 1], i);
    }
  }

  lemma ShapesPointwise(elems: seq<Element>)
    ensures forall i :: 0 <= i < |elems| ==> Shapes(elems)[i] == ShapeOf(elems[i])
  {
    forall i | 0 <= i < |elems| ensures Shapes(elems)[i] == ShapeOf(elems[i]) {
      ShapesAt(elems, i);
    }
  }

  /** A well-formed arena has acyclic shapes. */
  lemma ShapesAcyclic(elems: seq<Element>)
    requires WellFormedArena(elems)
    ensures Acyclic(Shapes(elems))
  {
    ShapesPointwise(elems);
  }

  predicate Acyclic(sh: seq<Shape>) {
    forall i, k :: 0 <= i < |sh| && 0 <= k < |sh[i].children| ==> i < sh[i].children[k] < |sh|
  }

  /** Arenas with the same shapes are well formed together. */
  lemma SameShapesWellFormed(e1: seq<Element>, e2: seq<Element>)
    requires Shapes(e1) == Shapes(e2) && WellFormedArena(e1)
    ensures WellFormedArena(e2)
  {
    forall i | 0 <= i < |e2| ensures e2[i].children == e1[i].children {
      ShapesAt(e1, i);
      ShapesAt(e2, i);
    }
  }

  /** Generated rows, links from row index to element index
      (`item_id_to_usersetting_element`), and the setting elements visited. */
  datatype Gen = Gen(nodes: seq<Node>, links: map<nat, nat>, settings: set<nat>)

  predicate ChildrenOf(sh: seq<Shape>, owner: nat, cs: seq<nat>) {
    forall k :: 0 <= k < |cs| ==> owner < cs[k] < |sh|
  }

  function GenElem(sh: seq<Shape>, e: nat, parent: Parent, base: nat): Gen
    requires Acyclic(sh) && e < |sh|
    decreases |sh| - e, 1
  {
    var s := sh[e];
    if s.look.SettingLook? then
      var c := GenChildren(sh, e, s.children, parent, base + 1);
      Gen([RowOf(s.look, parent)] + c.nodes, map[base := e] + c.links, {e} + c.settings)
    else if s.look.tag != "Class" || parent == TreeTop then
      var c := GenChildren(sh, e, s.children, Under(base), base + 1);
      Gen([RowOf(s.look, parent)] + c.nodes, c.links, c.settings)
    else
      GenChildren(sh, e, s.children, parent, base)
  }

  function GenChildren(sh: seq<Shape>, owner: nat, cs: seq<nat>, parent: Parent, base: nat): Gen
    requires Acyclic(sh) && owner < |sh| && ChildrenOf(sh, owner, cs)
    decreases |sh| - owner, 0, |cs|
  {
    if cs == [] then Gen([], map[], {})
    else
      var g := GenChildren(sh, owner, cs[..|cs| - 1], parent, base);
      var h := GenElem(sh, cs[|cs| - 1], parent, base + |g.nodes|);
      Cat(g, h)
  }

  /** The whole user-settings view, populated from the root into the tree
      widget itself. */
  function SettingsTree(d: Document): Gen
    requires WellFormed(d)
  {
    ShapesAcyclic(d.elems);
    GenElem(Shapes(d.elems), d.root, TreeTop, 0)
  }

  /** The document after population: every visited setting healed. */
  function HealAll(elems: seq<Element>, visited: set<nat>): (r: seq<Element>)
    ensures |r| == |elems|
    decreases |elems|
  {
    if elems == [] then []
    else
      var i := |elems| - 1;
      HealAll(elems[..i], visited) + [if i in visited then HealElem(elems[i]) else elems[i]]
  }

  lemma {:induction false} HealAllAt(elems: seq<Element>, visited: set<nat>, i: nat)
    requires i < |elems|
    ensures HealAll(elems, visited)[i] == if i in visited then HealElem(elems[i]) else elems[i]
    decreases |elems|
  {
    if i < |elems| - 1 {
      HealAllAt(elems[..|elems| - 1], visited, i);
    }
  }

  // ----- Healing does not change what population shows -----

  /** Healing keeps what an element shows and its children, is idempotent,
      and leaves a value that needs no further healing. */
  lemma HealElemProperties(el: Element)
    ensures LookOf(HealElem(el)) == LookOf(el) && HealElem(el).children == el.children
    ensures HealElem(HealElem(el)) == HealElem(el)
    ensures IsSetting(el) ==> !Decide(HealElem(el)).heal
  {
    if IsSetting(el) {
      DefaultIsRgba(el.attrs["field"]);
      if Decide(el).heal {
        assert Get(HealElem(el), "value", "") == DefaultRgba;
      }
    }
  }

  /** Healing any set of elements leaves the shapes as they were. */
  lemma HealAllShapes(elems: seq<Element>, visited: set<nat>)
    ensures Shapes(HealAll(elems, visited)) == Shapes(elems)
  {
    var r := HealAll(elems, visited);
    forall i | 0 <= i < |elems| ensures Shapes(r)[i] == Shapes(elems)[i] {
      HealAllAt(elems, visited, i);
      ShapesAt(r, i);
      ShapesAt(elems, i);
      HealElemProperties(elems[i]);
    }
  }

  /** Healing nothing changes nothing; healing one element replaces it. */
  lemma HealAllNone(elems: seq<Element>)
    ensures HealAll(elems, {}) == elems
  {
    forall i | 0 <= i < |elems| ensures HealAll(elems, {})[i] == elems[i] {
      HealAllAt(elems, {}, i);
    }
  }

  lemma HealAllSingle(elems: seq<Element>, e: nat)
    requires e < |elems|
    ensures HealAll(elems, {}) == elems
    ensures HealAll(elems, {e}) == elems[e := HealElem(elems[e])]
  {
    HealAllNone(elems);
    forall i | 0 <= i < |elems| ensures HealAll(elems, {e})[i] == elems[e := HealElem(elems[e])][i] {
      HealAllAt(elems, {e}, i);
      if i == e {
        assert HealAll(elems, {e})[i] == HealElem(elems[e]);
      } else {
        assert HealAll(elems, {e})[i] == elems[i];
      }
    }
  }

  /** Healing one set and then another is healing their union. */
  lemma HealAllUnion(elems: seq<Element>, a: set<nat>, b: set<nat>)
    ensures HealAll(HealAll(elems, a), b) == HealAll(elems, a + b)
  {
    forall i | 0 <= i < |elems| ensures HealAll(HealAll(elems, a), b)[i] == HealAll(elems, a + b)[i] {
      HealAllAt(elems, a, i);
      HealAllAt(HealAll(elems, a), b, i);
      HealAllAt(elems, a + b, i);
      HealElemProperties(elems[i]);
    }
  }

  /** Loading a document and loading it again after its self-heal show the
      same rows and links, and the second load heals nothing: the self-heal
      is idempotent. */
  lemma ReloadAfterHealIsStable(d: Document)
    requires WellFormed(d)
    ensures var g := SettingsTree(d);
      var healed := Document(HealAll(d.elems, g.settings), d.root);
      && WellFormed(healed)
      && SettingsTree(healed) == g
      && HealAll(healed.elems, g.settings) == healed.elems
  {
    var g := SettingsTree(d);
    var h := HealAll(d.elems, g.settings);
    HealAllShapes(d.elems, g.settings);
    SameShapesWellFormed(d.elems, h);
    HealAllUnion(d.elems, g.settings, g.settings);
    assert g.settings + g.settings == g.settings;
  }

  // ----- What the rows and links are -----

  /** The rows of `g`, numbered from `base`, are linked exactly when they
      are setting rows, each to a visited setting whose look it shows. */
  ghost predicate LinksExact(sh: seq<Shape>, g: Gen, base: nat) {
    && (forall k :: k in g.links ==> base <= k < base + |g.nodes|)
    && (forall j :: 0 <= j < |g.nodes| ==> (base + j in g.links <==> IsSettingRow(g.nodes[j])))
    && (forall j :: 0 <= j < |g.nodes| && base + j in g.links ==> LinkOk(sh, g, base, j))
    && (forall s :: s in g.settings ==> s < |sh| && sh[s].look.SettingLook?)
  }

  /** Row `j` of `g` is linked to a visited setting whose look it shows. */
  ghost predicate LinkOk(sh: seq<Shape>, g: Gen, base: nat, j: nat)
    requires j < |g.nodes| && base + j in g.links
  {
    && g.links[base + j] in g.settings
    && g.links[base + j] < |sh| && sh[g.links[base + j]].look.SettingLook?
    && g.nodes[j] == RowOf(sh[g.links[base + j]].look, g.nodes[j].parent)
  }

  /** Parent structure of rows numbered from `base`: each hangs under the
      transform's parent or under an earlier one of them, never under a
      setting row, and a container row named "Class" hangs only in the tree
      widget. */
  ghost predicate ParentsOk(nodes: seq<Node>, base: nat, parent: Parent) {
    && (forall j :: 0 <= j < |nodes| ==>
          || nodes[j].parent == parent
          || (nodes[j].parent.Under? && base <= nodes[j].parent.node < base + j))
    && (forall i, j :: 0 <= i < |nodes| && 0 <= j < |nodes| && nodes[j].parent == Under(base + i) ==>
          !IsSettingRow(nodes[i]))
    && (forall j :: 0 <= j < |nodes| && !IsSettingRow(nodes[j]) && nodes[j].name == "Class" ==>
          nodes[j].parent == TreeTop)
  }

  function Cat(g: Gen, h: Gen): Gen {
    Gen(g.nodes + h.nodes, g.links + h.links, g.settings + h.settings)
  }

  lemma {:induction false} GenChildrenUnfold(sh: seq<Shape>, owner: nat, cs: seq<nat>, parent: Parent, base: nat)
    requires Acyclic(sh) && owner < |sh| && ChildrenOf(sh, owner, cs) && cs != []
    ensures ChildrenOf(sh, owner, cs[..|cs| - 1])
    ensures var g := GenChildren(sh, owner, cs[..|cs| - 1], parent, base);
      GenChildren(sh, owner, cs, parent, base) == Cat(g, GenElem(sh, cs[|cs| - 1], parent, base + |g.nodes|))
  {
    assert ChildrenOf(sh, owner, cs[..|cs| - 1]);
  }

  /** What an element contributes itself, before its children: the row of a
      setting and its link, the row of a shown container, or nothing for a
      nested `Class` container. */
  function Head(sh: seq<Shape>, e: nat, parent: Parent, base: nat): Gen
    requires e < |sh|
  {
    var l := sh[e].look;
    if l.SettingLook? then Gen([RowOf(l, parent)], map[base := e], {e})
    else if l.tag != "Class" || parent == TreeTop then Gen([RowOf(l, parent)], map[], {})
    else Gen([], map[], {})
  }

  /** Where an element's children hang: under its own row when it is a
      shown container, otherwise where the element itself hangs. */
  function Inner(sh: seq<Shape>, e: nat, parent: Parent, base: nat): Parent
    requires e < |sh|
  {
    var l := sh[e].look;
    if l.OtherLook? && (l.tag != "Class" || parent == TreeTop) then Under(base) else parent
  }

  lemma GenElemSplit(sh: seq<Shape>, e: nat, parent: Parent, base: nat)
    requires Acyclic(sh) && e < |sh|
    ensures ChildrenOf(sh, e, sh[e].children)
    ensures GenElem(sh, e, parent, base)
      == Cat(Head(sh, e, parent, base),
             GenChildren(sh, e, sh[e].children, Inner(sh, e, parent, base), base + |Head(sh, e, parent, base).nodes|))
  {
    var hd := Head(sh, e, parent, base);
    var c := GenChildren(sh, e, sh[e].children, Inner(sh, e, parent, base), base + |hd.nodes|);
    assert hd.nodes + c.nodes == GenElem(sh, e, parent, base).nodes;
    assert hd.links + c.links == GenElem(sh, e, parent, base).links;
    assert hd.settings + c.settings == GenElem(sh, e, parent, base).settings;
  }

  /** What a walk of `_populate_generic_xml_tree` has produced so far: the
      document's elements (healed where visited), the rows and the
      row-to-element links. */
  datatype Walk = Walk(elems: seq<Element>, rows: seq<Node>, links: map<nat, nat>)

  /** The walk `w`, made on `base` with the elements of `healed` already
      healed, carried on by the rows, links and heals of `g`. */
  function After(base: seq<Element>, healed: set<nat>, w: Walk, g: Gen): Walk {
    Walk(HealAll(base, healed + g.settings), w.rows + g.nodes, w.links + g.links)
  }

  /** A walk over the whole of `d` that starts from an empty tree and no
      heals ends with exactly the settings view of `d`, its links, and `d`
      with the settings of that view healed. */
  lemma AfterFresh(d: Document)
    requires WellFormed(d)
    ensures (ShapesAcyclic(d.elems);
      After(d.elems, {}, Walk(d.elems, [], map[]), GenElem(Shapes(d.elems), d.root, TreeTop, 0)))
      == Walk(HealAll(d.elems, SettingsTree(d).settings), SettingsTree(d).nodes, SettingsTree(d).links)
  {
    var g := SettingsTree(d);
    assert {} + g.settings == g.settings;
    assert [] + g.nodes == g.nodes;
    assert map[] + g.links == g.links;
  }

  lemma AfterEmpty(base: seq<Element>, healed: set<nat>, w: Walk)
    requires w.elems == HealAll(base, healed)
    ensures After(base, healed, w, Gen([], map[], {})) == w
  {
    assert healed + {} == healed;
    assert w.links + map[] == w.links;
    assert w.rows + [] == w.rows;
  }

  lemma AfterCat(base: seq<Element>, healed: set<nat>, w: Walk, g: Gen, h: Gen)
    ensures After(base, healed + g.settings, After(base, healed, w, g), h) == After(base, healed, w, Cat(g, h))
  {
    assert healed + g.settings + h.settings == healed + (g.settings + h.settings);
    assert (w.links + g.links) + h.links == w.links + (g.links + h.links);
  }

  /** Healing one more element of a partly healed arena. */
  lemma HealAllAdd(base: seq<Element>, healed: set<nat>, e: nat)
    requires e < |base|
    ensures var cur := HealAll(base, healed);
      HealAll(base, healed + {e}) == cur[e := HealElem(cur[e])]
  {
    var cur := HealAll(base, healed);
    HealElemProperties(base[e]);
    forall i | 0 <= i < |base| ensures HealAll(base, healed + {e})[i] == cur[e := HealElem(cur[e])][i] {
      HealAllAt(base, healed + {e}, i);
      HealAllAt(base, healed, i);
    }
  }

  /** A partly healed element shows what the loaded one showed. */
  lemma HealAllLook(base: seq<Element>, healed: set<nat>, e: nat)
    requires e < |base|
    ensures LookOf(HealAll(base, healed)[e]) == LookOf(base[e])
    ensures HealAll(base, healed)[e].children == base[e].children
  {
    HealAllAt(base, healed, e);
    HealElemProperties(base[e]);
  }

  /** One more child: the view of the first `i + 1` children is the view
      of the first `i` followed by that of child `i`, placed at `at`, the
      row after those of the first `i`. */
  lemma GenChildrenStep(sh: seq<Shape>, owner: nat, cs: seq<nat>, i: nat, parent: Parent, base: nat, at: nat)
    requires Acyclic(sh) && owner < |sh| && ChildrenOf(sh, owner, cs) && i < |cs| && ChildrenOf(sh, owner, cs[..i])
    requires at == base + |GenChildren(sh, owner, cs[..i], parent, base).nodes|
    ensures ChildrenOf(sh, owner, cs[..i + 1])
    ensures GenChildren(sh, owner, cs[..i + 1], parent, base)
      == Cat(GenChildren(sh, owner, cs[..i], parent, base), GenElem(sh, cs[i], parent, at))
  {
    assert ChildrenOf(sh, owner, cs[..i + 1]);
    GenChildrenUnfold(sh, owner, cs[..i + 1], parent, base);
    assert cs[..i + 1][..i] == cs[..i];
  }

  lemma CatLinks(sh: seq<Shape>, g: Gen, h: Gen, base: nat)
    requires LinksExact(sh, g, base) && LinksExact(sh, h, base + |g.nodes|)
    ensures LinksExact(sh, Cat(g, h), base)
  {
    var r := Cat(g, h);
    forall k | k in r.links ensures base <= k < base + |r.nodes| {
      if k !in h.links {
        assert k in g.links;
      }
    }
    forall j | 0 <= j < |r.nodes|
      ensures base + j in r.links <==> IsSettingRow(r.nodes[j])
    {
      if j < |g.nodes| {
        assert r.nodes[j] == g.nodes[j] && base + j !in h.links;
      } else {
        assert r.nodes[j] == h.nodes[j - |g.nodes|] && base + j == (base + |g.nodes|) + (j - |g.nodes|);
      }
    }
    forall j | 0 <= j < |r.nodes| && base + j in r.links
      ensures LinkOk(sh, r, base, j)
    {
      if j < |g.nodes| {
        assert r.nodes[j] == g.nodes[j] && base + j !in h.links;
        assert r.links[base + j] == g.links[base + j];
        assert LinkOk(sh, g, base, j);
      } else {
        var i := j - |g.nodes|;
        assert r.nodes[j] == h.nodes[i] && base + j == (base + |g.nodes|) + i;
        assert r.links[base + j] == h.links[base + j];
        assert LinkOk(sh, h, base + |g.nodes|, i);
      }
    }
  }

  lemma CatParents(g: seq<Node>, h: seq<Node>, base: nat, parent: Parent)
    requires parent.Under? ==> parent.node < base
    requires ParentsOk(g, base, parent) && ParentsOk(h, base + |g|, parent)
    ensures ParentsOk(g + h, base, parent)
  {
    var r := g + h;
    assert forall j :: 0 <= j < |g| ==> r[j] == g[j];
    assert forall j :: 0 <= j < |h| ==> r[|g| + j] == h[j];
    forall i, j | 0 <= i < |r| && 0 <= j < |r| && r[j].parent == Under(base + i)
      ensures !IsSettingRow(r[i])
    {
      if j < |g| {
        assert r[j] == g[j];
      } else {
        assert r[j] == h[j - |g|];
      }
    }
  }

  /** A setting row followed by its hoisted children. */
  lemma SettingRows(sh: seq<Shape>, e: nat, c: Gen, base: nat, parent: Parent)
    requires e < |sh| && sh[e].look.SettingLook? && (parent.Under? ==> parent.node < base)
    requires LinksExact(sh, c, base + 1) && ParentsOk(c.nodes, base + 1, parent)
    ensures var r := Gen([RowOf(sh[e].look, parent)] + c.nodes, map[base := e] + c.links, {e} + c.settings);
      LinksExact(sh, r, base) && ParentsOk(r.nodes, base, parent)
  {
    var r := Gen([RowOf(sh[e].look, parent)] + c.nodes, map[base := e] + c.links, {e} + c.settings);
    assert r.nodes[0] == RowOf(sh[e].look, parent) && base !in c.links && r.links[base] == e;
    assert LinkOk(sh, r, base, 0);
    forall j | 1 <= j < |r.nodes|
      ensures r.nodes[j] == c.nodes[j - 1] && (base + j in r.links <==> (base + 1) + (j - 1) in c.links)
      ensures base + j in r.links ==> r.links[base + j] == c.links[(base + 1) + (j - 1)] && LinkOk(sh, r, base, j)
    {
      if base + j in r.links {
        assert LinkOk(sh, c, base + 1, j - 1);
      }
    }
  }

  /** A container row followed by its children, which hang under it. */
  lemma ContainerRows(sh: seq<Shape>, e: nat, c: Gen, base: nat, parent: Parent)
    requires e < |sh| && sh[e].look.OtherLook? && (sh[e].look.tag != "Class" || parent == TreeTop)
    requires parent.Under? ==> parent.node < base
    requires LinksExact(sh, c, base + 1) && ParentsOk(c.nodes, base + 1, Under(base))
    ensures var r := Gen([RowOf(sh[e].look, parent)] + c.nodes, c.links, c.settings);
      LinksExact(sh, r, base) && ParentsOk(r.nodes, base, parent)
  {
    var r := Gen([RowOf(sh[e].look, parent)] + c.nodes, c.links, c.settings);
    assert r.nodes[0] == RowOf(sh[e].look, parent) && base !in c.links;
    forall j | 1 <= j < |r.nodes|
      ensures r.nodes[j] == c.nodes[j - 1] && (base + j in r.links <==> (base + 1) + (j - 1) in c.links)
      ensures base + j in r.links ==> LinkOk(sh, r, base, j)
    {
      if base + j in r.links {
        assert LinkOk(sh, c, base + 1, j - 1);
      }
    }
  }

  ghost predicate Exact(sh: seq<Shape>, g: Gen, base: nat, parent: Parent) {
    LinksExact(sh, g, base) && ParentsOk(g.nodes, base, parent)
  }

  lemma CatExact(sh: seq<Shape>, g: Gen, h: Gen, base: nat, parent: Parent)
    requires parent.Under? ==> parent.node < base
    requires Exact(sh, g, base, parent) && Exact(sh, h, base + |g.nodes|, parent)
    ensures Exact(sh, Cat(g, h), base, parent)
  {
    CatLinks(sh, g, h, base);
    CatParents(g.nodes, h.nodes, base, parent);
  }

  lemma {:induction false} GenElemExact(sh: seq<Shape>, e: nat, parent: Parent, base: nat)
    requires Acyclic(sh) && e < |sh| && (parent.Under? ==> parent.node < base)
    ensures Exact(sh, GenElem(sh, e, parent, base), base, parent)
    decreases |sh| - e, 1
  {
    var s := sh[e];
    if s.look.SettingLook? {
      GenChildrenExact(sh, e, s.children, parent, base + 1);
      SettingRows(sh, e, GenChildren(sh, e, s.children, parent, base + 1), base, parent);
    } else if s.look.tag != "Class" || parent == TreeTop {
      GenChildrenExact(sh, e, s.children, Under(base), base + 1);
      ContainerRows(sh, e, GenChildren(sh, e, s.children, Under(base), base + 1), base, parent);
    } else {
      GenChildrenExact(sh, e, s.children, parent, base);
    }
  }

  lemma {:induction false} GenChildrenExact(sh: seq<Shape>, owner: nat, cs: seq<nat>, parent: Parent, base: nat)
    requires Acyclic(sh) && owner < |sh| && ChildrenOf(sh, owner, cs) && (parent.Under? ==> parent.node < base)
    ensures Exact(sh, GenChildren(sh, owner, cs, parent, base), base, parent)
    decreases |sh| - owner, 0, |cs|
  {
    if cs != [] {
      GenChildrenUnfold(sh, owner, cs, parent, base);
      var init := cs[..|cs| - 1];
      var g := GenChildren(sh, owner, init, parent, base);
      GenChildrenExact(sh, owner, init, parent, base);
      var h := GenElem(sh, cs[|cs| - 1], parent, base + |g.nodes|);
      GenElemExact(sh, cs[|cs| - 1], parent, base + |g.nodes|);
      CatExact(sh, g, h, base, parent);
      assert GenChildren(sh, owner, cs, parent, base) == Cat(g, h);
    }
  }

  /** The user-settings view of a document. A row is linked iff it is a
      setting row (editable text or colour editor); each link points at a
      visited `Class` element with a `field` whose row shows that field and,
      for plain rows, its value, and the colour editor appears exactly as
      the classification says. No row ever hangs under a setting row
      (children of a setting are hoisted to its siblings), and a `Class`
      container row appears only at the top of the tree. */
  lemma SettingsTreeShape(d: Document)
    requires WellFormed(d)
    ensures var g := SettingsTree(d);
      && (forall k :: k in g.links <==> 0 <= k < |g.nodes| && IsSettingRow(g.nodes[k]))
      && (forall k :: k in g.links ==>
            && g.links[k] in g.settings && g.links[k] < |d.elems|
            && var el := d.elems[g.links[k]];
               IsSetting(el)
               && g.nodes[k].name == el.attrs["field"]
               && (g.nodes[k].colourEditor <==> Classify(el.attrs["field"], Get(el, "value", "")).colourEditor)
               && (g.nodes[k].editable <==> !g.nodes[k].colourEditor)
               && (g.nodes[k].editable ==> g.nodes[k].value == Get(el, "value", "")))
      && (forall s :: s in g.settings ==> s < |d.elems| && IsSetting(d.elems[s]))
      && (forall k :: 0 <= k < |g.nodes| && g.nodes[k].parent.Under? ==> g.nodes[k].parent.node < k)
      && (forall i, k :: 0 <= i < |g.nodes| && 0 <= k < |g.nodes| && g.nodes[k].parent == Under(i) ==>
            !IsSettingRow(g.nodes[i]))
      && (forall k :: 0 <= k < |g.nodes| && !IsSettingRow(g.nodes[k]) && g.nodes[k].name == "Class" ==>
            g.nodes[k].parent == TreeTop)
  {
    var sh := Shapes(d.elems);
    ShapesAcyclic(d.elems);
    ShapesPointwise(d.elems);
    GenElemExact(sh, d.root, TreeTop, 0);
    var g := SettingsTree(d);
    forall k | k in g.links ensures 0 <= k < |g.nodes| && LinkOk(sh, g, 0, k) {
      assert 0 + k in g.links;
    }
  }

  // ----- Which settings are visited -----

  /** The setting elements among `xs`. */
  ghost function SettingsIn(elems: seq<Element>, xs: set<nat>): set<nat> {
    set s | s in xs && s < |elems| && IsSetting(elems[s])
  }

  ghost predicate Injective(m: map<nat, nat>) {
    forall k1, k2 :: k1 in m && k2 in m && m[k1] == m[k2] ==> k1 == k2
  }

  /** The rows of `g` link to exactly the settings it visited, which are the
      settings among `xs`; in a tree, no two rows link to the same one. */
  ghost predicate Covers(elems: seq<Element>, g: Gen, xs: set<nat>) {
    && g.settings == SettingsIn(elems, xs)
    && g.links.Values == g.settings
    && (TreeArena(elems) ==> Injective(g.links))
  }

  /** What of the shape arena of `elems` the coverage proof uses: the
      children, and which elements are settings. */
  ghost predicate ShapedBy(elems: seq<Element>, sh: seq<Shape>) {
    && WellFormedArena(elems) && Acyclic(sh) && |sh| == |elems|
    && forall i :: 0 <= i < |elems| ==> ShapeAgrees(elems, sh, i)
  }

  ghost predicate ShapeAgrees(elems: seq<Element>, sh: seq<Shape>, i: nat) {
    && i < |elems| && i < |sh|
    && sh[i].children == elems[i].children
    && (sh[i].look.SettingLook? <==> IsSetting(elems[i]))
  }

  lemma ShapesShapedBy(elems: seq<Element>)
    requires WellFormedArena(elems)
    ensures ShapedBy(elems, Shapes(elems))
  {
    ShapesAcyclic(elems);
    ShapesPointwise(elems);
  }

  lemma SettingsInUnion(elems: seq<Element>, a: set<nat>, b: set<nat>)
    ensures SettingsIn(elems, a + b) == SettingsIn(elems, a) + SettingsIn(elems, b)
  {
  }

  lemma UnionValues(m1: map<nat, nat>, m2: map<nat, nat>)
    requires m1.Keys !! m2.Keys
    ensures (m1 + m2).Values == m1.Values + m2.Values
    ensures Injective(m1) && Injective(m2) && m1.Values !! m2.Values ==> Injective(m1 + m2)
  {
    var m := m1 + m2;
    forall v | v in m1.Values ensures v in m.Values {
      var k :| k in m1 && m1[k] == v;
      assert m[k] == v;
    }
    forall v | v in m2.Values ensures v in m.Values {
      var k :| k in m2 && m2[k] == v;
      assert m[k] == v;
    }
    forall v | v in m.Values ensures v in m1.Values + m2.Values {
      var k :| k in m && m[k] == v;
      if k in m2 {
        assert m2[k] == v;
      } else {
        assert m1[k] == v;
      }
    }
    if Injective(m1) && Injective(m2) && m1.Values !! m2.Values {
      forall k1, k2 | k1 in m && k2 in m && m[k1] == m[k2] ensures k1 == k2 {
        if k1 in m2 {
          assert m2[k1] in m2.Values;
        } else {
          assert m1[k1] in m1.Values;
        }
        if k2 in m2 {
          assert m2[k2] in m2.Values;
        } else {
          assert m1[k2] in m1.Values;
        }
      }
    }
  }

  /** A setting's own link joined with its (hoisted) children's links. */
  lemma SettingLinkValues(e: nat, c: Gen, base: nat)
    requires KeysIn(c.links, base + 1, base + 1 + |c.nodes|)
    requires c.links.Values == c.settings && e !in c.settings
    ensures (map[base := e] + c.links).Values == {e} + c.settings
    ensures Injective(c.links) ==> Injective(map[base := e] + c.links)
  {
    assert map[base := e].Values == {e} by {
      assert map[base := e][base] == e;
    }
    UnionValues(map[base := e], c.links);
  }

  lemma {:induction false} GenElemCovers(elems: seq<Element>, sh: seq<Shape>, e: nat, parent: Parent, base: nat, g: Gen)
    requires ShapedBy(elems, sh) && e < |sh| && (parent.Under? ==> parent.node < base)
    requires g == GenElem(sh, e, parent, base)
    ensures Covers(elems, g, Reach(elems, e))
    decreases |sh| - e, 1
  {
    var s := sh[e];
    assert ShapeAgrees(elems, sh, e);
    var ch := elems[e].children;
    SettingsInUnion(elems, {e}, ReachAll(elems, e, ch));
    var at := base + 1;
    if s.look.SettingLook? {
      var c := GenChildren(sh, e, ch, parent, at);
      GenChildrenCovers(elems, sh, e, ch, parent, at, c);
      GenChildrenKeys(sh, e, ch, parent, at, c);
      ReachAllAbove(elems, e, ch);
      SettingLinkValues(e, c, base);
    } else if s.look.tag != "Class" || parent == TreeTop {
      GenChildrenCovers(elems, sh, e, ch, Under(base), at, GenChildren(sh, e, ch, Under(base), at));
    } else {
      GenChildrenCovers(elems, sh, e, ch, parent, base, g);
    }
  }

  lemma {:induction false} GenChildrenCovers(elems: seq<Element>, sh: seq<Shape>, owner: nat, cs: seq<nat>, parent: Parent, base: nat, g: Gen)
    requires ShapedBy(elems, sh) && owner < |sh| && ChildrenOf(sh, owner, cs) && (parent.Under? ==> parent.node < base)
    requires |cs| <= |elems[owner].children| && cs == elems[owner].children[..|cs|]
    requires g == GenChildren(sh, owner, cs, parent, base)
    ensures Covers(elems, g, ReachAll(elems, owner, cs))
    decreases |sh| - owner, 0, |cs|
  {
    if cs != [] {
      GenChildrenUnfold(sh, owner, cs, parent, base);
      var n := |cs| - 1;
      var init := cs[..n];
      assert init == elems[owner].children[..n];
      var gi := GenChildren(sh, owner, init, parent, base);
      GenChildrenCovers(elems, sh, owner, init, parent, base, gi);
      GenChildrenKeys(sh, owner, init, parent, base, gi);
      var at := base + |gi.nodes|;
      var h := GenElem(sh, cs[n], parent, at);
      GenElemCovers(elems, sh, cs[n], parent, at, h);
      GenElemKeys(sh, cs[n], parent, at, h);
      ChildrenCoversStep(elems, owner, cs, base, gi, h, g);
    }
  }

  /** The step of `GenChildrenCovers`: the rows of the last child join
      those of the others. */
  lemma ChildrenCoversStep(elems: seq<Element>, owner: nat, cs: seq<nat>, base: nat, gi: Gen, h: Gen, g: Gen)
    requires WellFormedArena(elems) && owner < |elems| && cs != []
    requires forall k :: 0 <= k < |cs| ==> owner < cs[k] < |elems|
    requires |cs| <= |elems[owner].children| && cs == elems[owner].children[..|cs|]
    requires g == Cat(gi, h)
    requires KeysIn(gi.links, base, base + |gi.nodes|)
    requires KeysIn(h.links, base + |gi.nodes|, base + |gi.nodes| + |h.nodes|)
    requires Covers(elems, gi, ReachAll(elems, owner, cs[..|cs| - 1]))
    requires Covers(elems, h, Reach(elems, cs[|cs| - 1]))
    ensures Covers(elems, g, ReachAll(elems, owner, cs))
  {
    var n := |cs| - 1;
    assert cs[..n] == elems[owner].children[..n];
    assert cs[n] == elems[owner].children[n];
    if TreeArena(elems) {
      PrefixDisjoint(elems, owner, n);
    }
    ReachAllLast(elems, owner, cs);
    CatCovers(elems, gi, h, base, ReachAll(elems, owner, cs[..n]), Reach(elems, cs[n]));
  }

  lemma GenElemKeys(sh: seq<Shape>, e: nat, parent: Parent, base: nat, g: Gen)
    requires Acyclic(sh) && e < |sh| && (parent.Under? ==> parent.node < base)
    requires g == GenElem(sh, e, parent, base)
    ensures KeysIn(g.links, base, base + |g.nodes|)
  {
    GenElemExact(sh, e, parent, base);
  }

  lemma GenChildrenKeys(sh: seq<Shape>, owner: nat, cs: seq<nat>, parent: Parent, base: nat, g: Gen)
    requires Acyclic(sh) && owner < |sh| && ChildrenOf(sh, owner, cs) && (parent.Under? ==> parent.node < base)
    requires g == GenChildren(sh, owner, cs, parent, base)
    ensures KeysIn(g.links, base, base + |g.nodes|)
  {
    GenChildrenExact(sh, owner, cs, parent, base);
  }

  /** Every key of `m` lies in `[lo, hi)`. */
  ghost predicate KeysIn(m: map<nat, nat>, lo: int, hi: int) {
    forall k :: k in m ==> lo <= k < hi
  }

  /** Joining the output of consecutive transforms joins their visited
      settings and links; links stay one-to-one when both parts are and the
      parts cover disjoint elements. */
  lemma CatCovers(elems: seq<Element>, g: Gen, h: Gen, base: nat, a: set<nat>, b: set<nat>)
    requires KeysIn(g.links, base, base + |g.nodes|)
    requires KeysIn(h.links, base + |g.nodes|, base + |g.nodes| + |h.nodes|)
    requires g.settings == SettingsIn(elems, a) && g.links.Values == g.settings
    requires h.settings == SettingsIn(elems, b) && h.links.Values == h.settings
    ensures Cat(g, h).settings == SettingsIn(elems, a + b)
    ensures Cat(g, h).links.Values == Cat(g, h).settings
    ensures Injective(g.links) && Injective(h.links) && a !! b ==> Injective(Cat(g, h).links)
  {
    SettingsInUnion(elems, a, b);
    UnionValues(g.links, h.links);
  }

  /** Which settings the user-settings view visits and links. The rows link
      to exactly the visited settings, and the visited settings are exactly
      the `Class` elements with a `field` at or below the root. In a tree
      (no element shared between two parents) no two rows link to the same
      element. */
  lemma SettingsTreeCovers(d: Document)
    requires WellFormed(d)
    ensures var g := SettingsTree(d);
      && g.links.Values == g.settings
      && g.settings == set s | s in Reach(d.elems, d.root) && s < |d.elems| && IsSetting(d.elems[s])
      && (TreeArena(d.elems) ==>
            forall k1, k2 :: k1 in g.links && k2 in g.links && g.links[k1] == g.links[k2] ==> k1 == k2)
  {
    ShapesShapedBy(d.elems);
    GenElemCovers(d.elems, Shapes(d.elems), d.root, TreeTop, 0, SettingsTree(d));
  }

  // ----- Which elements are shown -----

  /** Some row of `nodes` shows look `l`. */
  ghost predicate HasRow(nodes: seq<Node>, l: Look) {
    exists j :: 0 <= j < |nodes| && nodes[j] == RowOf(l, nodes[j].parent)
  }

  lemma HasRowJoin(a: seq<Node>, b: seq<Node>, l: Look)
    requires HasRow(a, l) || HasRow(b, l)
    ensures HasRow(a + b, l)
  {
    if HasRow(a, l) {
      var j :| 0 <= j < |a| && a[j] == RowOf(l, a[j].parent);
      assert (a + b)[j] == a[j];
    } else {
      var j :| 0 <= j < |b| && b[j] == RowOf(l, b[j].parent);
      assert (a + b)[|a| + j] == b[j];
    }
  }

  /** An element that is neither a setting nor a `Class` container. */
  predicate Plain(l: Look) {
    l.OtherLook? && l.tag != "Class"
  }

  lemma {:induction false} GenElemRows(elems: seq<Element>, sh: seq<Shape>, e: nat, parent: Parent, base: nat, g: Gen)
    requires ShapedBy(elems, sh) && e < |sh|
    requires g == GenElem(sh, e, parent, base)
    ensures forall x :: x in Reach(elems, e) && x < |sh| && Plain(sh[x].look) ==> HasRow(g.nodes, sh[x].look)
    decreases |sh| - e, 1
  {
    var s := sh[e];
    assert ShapeAgrees(elems, sh, e);
    var ch := elems[e].children;
    var at := base + 1;
    var p := if s.look.SettingLook? then parent else Under(base);
    if s.look.SettingLook? || s.look.tag != "Class" || parent == TreeTop {
      var c := GenChildren(sh, e, ch, p, at);
      GenChildrenRows(elems, sh, e, ch, p, at, c);
      assert g.nodes == [RowOf(s.look, parent)] + c.nodes;
      forall x | x in Reach(elems, e) && x < |sh| && Plain(sh[x].look) ensures HasRow(g.nodes, sh[x].look) {
        if x == e {
          assert g.nodes[0] == RowOf(s.look, g.nodes[0].parent);
        } else {
          HasRowJoin([RowOf(s.look, parent)], c.nodes, sh[x].look);
        }
      }
    } else {
      GenChildrenRows(elems, sh, e, ch, parent, base, g);
    }
  }

  lemma {:induction false} GenChildrenRows(elems: seq<Element>, sh: seq<Shape>, owner: nat, cs: seq<nat>, parent: Parent, base: nat, g: Gen)
    requires ShapedBy(elems, sh) && owner < |sh| && ChildrenOf(sh, owner, cs)
    requires g == GenChildren(sh, owner, cs, parent, base)
    ensures forall x :: x in ReachAll(elems, owner, cs) && x < |sh| && Plain(sh[x].look) ==> HasRow(g.nodes, sh[x].look)
    decreases |sh| - owner, 0, |cs|
  {
    if cs != [] {
      GenChildrenUnfold(sh, owner, cs, parent, base);
      var n := |cs| - 1;
      var init := cs[..n];
      var gi := GenChildren(sh, owner, init, parent, base);
      GenChildrenRows(elems, sh, owner, init, parent, base, gi);
      var at := base + |gi.nodes|;
      var h := GenElem(sh, cs[n], parent, at);
      GenElemRows(elems, sh, cs[n], parent, at, h);
      ReachAllLast(elems, owner, cs);
      forall x | x in ReachAll(elems, owner, cs) && x < |sh| && Plain(sh[x].look) ensures HasRow(g.nodes, sh[x].look) {
        HasRowJoin(gi.nodes, h.nodes, sh[x].look);
      }
    }
  }

  /** Every element at or below the root that is neither a setting nor a
      `Class` element is shown as a row with its tag as the name and its
      stripped text as the value. */
  lemma SettingsTreeRows(d: Document)
    requires WellFormed(d)
    ensures var g := SettingsTree(d);
      forall x :: x in Reach(d.elems, d.root) && x < |d.elems| && d.elems[x].tag != "Class" ==>
        exists j :: 0 <= j < |g.nodes| && g.nodes[j].name == d.elems[x].tag
          && g.nodes[j].value == Strip(d.elems[x].text) && !IsSettingRow(g.nodes[j])
  {
    var sh := Shapes(d.elems);
    ShapesShapedBy(d.elems);
    ShapesPointwise(d.elems);
    var g := SettingsTree(d);
    GenElemRows(d.elems, sh, d.root, TreeTop, 0, g);
    forall x | x in Reach(d.elems, d.root) && x < |d.elems| && d.elems[x].tag != "Class"
      ensures exists j :: 0 <= j < |g.nodes| && g.nodes[j].name == d.elems[x].tag
                && g.nodes[j].value == Strip(d.elems[x].text) && !IsSettingRow(g.nodes[j])
    {
      assert sh[x].look == OtherLook(d.elems[x].tag, Strip(d.elems[x].text));
      var j :| 0 <= j < |g.nodes| && g.nodes[j] == RowOf(sh[x].look, g.nodes[j].parent);
    }
  }
}
