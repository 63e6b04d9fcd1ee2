/** The parsed configuration document: an arena of elements addressed by
    index, standing for the `xml.etree.ElementTree` tree the window holds.
    Element identity is the arena index. */
module XmlDoc {

  /** One element: its tag, its attribute dictionary, its text (`""` where
      ElementTree has `None`) and the indices of its children, in order. */
  datatype Element = Element(tag: string, attrs: map<string, string>, text: string, children: seq<nat>)

  datatype Document = Document(elems: seq<Element>, root: nat)

  /** Every child index names a later element of the arena, so the arena is
      acyclic and a walk from any element terminates. */
  predicate WellFormedArena(elems: seq<Element>) {
    forall i, k :: 0 <= i < |elems| && 0 <= k < |elems[i].children| ==> i < elems[i].children[k] < |elems|
  }

  predicate WellFormed(d: Document) {
    d.root < |d.elems| && WellFormedArena(d.elems)
  }

  /** `element.get(key, default)`. */
  function Get(el: Element, key: string, default: string): (v: string)
    ensures key in el.attrs ==> v == el.attrs[key]
    ensures key !in el.attrs ==> v == default
  {
    if key in el.attrs then el.attrs[key] else default
  }

  /** `element.set(key, value)` on element `i` of an arena: exactly one
      attribute of exactly one element changes; tags, texts, children, every
      other attribute and every other element stay as they were. */
  function SetAttrAt(elems: seq<Element>, i: nat, key: string, value: string): (r: seq<Element>)
    requires i < |elems|
    ensures |r| == |elems|
    ensures forall j :: 0 <= j < |elems| && j != i ==> r[j] == elems[j]
    ensures r[i].tag == elems[i].tag && r[i].text == elems[i].text
    ensures r[i].children == elems[i].children
    ensures Get(r[i], key, "") == value
    ensures r[i].attrs.Keys == elems[i].attrs.Keys + {key}
    ensures forall k :: k in elems[i].attrs && k != key ==> r[i].attrs[k] == elems[i].attrs[k]
  {
    var el := elems[i];
    elems[i := el.(attrs := el.attrs[key := value])]
  }

  /** `element.set(key, value)` on element `i` of a document: its arena
      changes as `SetAttrAt` says and its root stays. */
  function SetAttr(d: Document, i: nat, key: string, value: string): (r: Document)
    requires i < |d.elems|
    ensures r.root == d.root && |r.elems| == |d.elems|
    ensures forall j :: 0 <= j < |d.elems| && j != i ==> r.elems[j] == d.elems[j]
    ensures r.elems[i].tag == d.elems[i].tag && r.elems[i].text == d.elems[i].text
    ensures r.elems[i].children == d.elems[i].children
    ensures Get(r.elems[i], key, "") == value
    ensures r.elems[i].attrs.Keys == d.elems[i].attrs.Keys + {key}
    ensures forall k :: k in d.elems[i].attrs && k != key ==> r.elems[i].attrs[k] == d.elems[i].attrs[k]
  {
    Document(SetAttrAt(d.elems, i, key, value), d.root)
  }

  /** Setting an attribute never changes the shape of the arena. */
  lemma SetAttrKeepsWellFormed(d: Document, i: nat, key: string, value: string)
    requires WellFormed(d) && i < |d.elems|
    ensures WellFormed(SetAttr(d, i, key, value))
  {
    var r := SetAttr(d, i, key, value);
    assert forall j :: 0 <= j < |r.elems| ==> r.elems[j].children == d.elems[j].children;
  }

  /** Every index of `cs` names an element of the arena. */
  predicate AllIn(elems: seq<Element>, cs: seq<nat>) {
    forall k :: 0 <= k < |cs| ==> cs[k] < |elems|
  }

  /** `element.findall(tag)` over a list of child indices: the children
      with that tag, in document order. */
  function Tagged(elems: seq<Element>, cs: seq<nat>, tag: string): (r: seq<nat>)
    requires AllIn(elems, cs)
    ensures |r| <= |cs| && AllIn(elems, r)
    ensures forall k :: 0 <= k < |r| ==> r[k] in cs && elems[r[k]].tag == tag
    ensures forall c <- cs :: elems[c].tag == tag ==> c in r
  {
    if cs == [] then []
    else
      var rest := Tagged(elems, cs[1..], tag);
      if elems[cs[0]].tag == tag then [cs[0]] + rest else rest
  }

  /** `element.findall(tag)` on element `e`. */
  function FindAll(elems: seq<Element>, e: nat, tag: string): (r: seq<nat>)
    requires WellFormedArena(elems) && e < |elems|
    ensures AllIn(elems, r)
    ensures forall k :: 0 <= k < |r| ==> e < r[k] && r[k] in elems[e].children && elems[r[k]].tag == tag
    ensures forall c <- elems[e].children :: elems[c].tag == tag ==> c in r
  {
    assert forall k :: 0 <= k < |elems[e].children| ==> elems[e].children[k] in elems[e].children;
    Tagged(elems, elems[e].children, tag)
  }

  /** `pos` lists positions of `cs`, in increasing order, whose entries are
      those of `r`. */
  ghost predicate PicksInOrder(cs: seq<nat>, r: seq<nat>, pos: seq<nat>) {
    && |pos| == |r|
    && (forall k :: 0 <= k < |pos| ==> pos[k] < |cs| && cs[pos[k]] == r[k])
    && (forall k, l :: 0 <= k < l < |pos| ==> pos[k] < pos[l])
  }

  /** Every position of `cs` whose entry carries `tag` is in `pos`. */
  ghost predicate PicksAll(elems: seq<Element>, cs: seq<nat>, tag: string, pos: seq<nat>)
    requires AllIn(elems, cs)
  {
    forall p :: 0 <= p < |cs| && elems[cs[p]].tag == tag ==> p in pos
  }

  function Shift(pos: seq<nat>): (r: seq<nat>)
    ensures |r| == |pos| && forall k :: 0 <= k < |pos| ==> r[k] == pos[k] + 1
  {
    seq(|pos|, k requires 0 <= k < |pos| => pos[k] + 1)
  }

  lemma ShiftPicks(cs: seq<nat>, r: seq<nat>, pos: seq<nat>)
    requires cs != [] && PicksInOrder(cs[1..], r, pos)
    ensures PicksInOrder(cs, r, Shift(pos))
    ensures forall k :: 0 <= k < |Shift(pos)| ==> Shift(pos)[k] > 0
  {
    var s := Shift(pos);
    forall k | 0 <= k < |s| ensures s[k] < |cs| && cs[s[k]] == r[k] {
      assert cs[1..][pos[k]] == r[k];
    }
  }

  lemma ShiftPicksAll(elems: seq<Element>, cs: seq<nat>, tag: string, pos: seq<nat>)
    requires cs != [] && AllIn(elems, cs) && AllIn(elems, cs[1..]) && PicksAll(elems, cs[1..], tag, pos)
    ensures forall p :: 1 <= p < |cs| && elems[cs[p]].tag == tag ==> p in Shift(pos)
  {
    var s := Shift(pos);
    forall p | 1 <= p < |cs| && elems[cs[p]].tag == tag ensures p in s {
      assert cs[1..][p - 1] == cs[p];
      assert p - 1 in pos;
      var k :| 0 <= k < |pos| && pos[k] == p - 1;
      assert s[k] == p;
    }
  }

  lemma ConsPicks(cs: seq<nat>, r: seq<nat>, pos: seq<nat>)
    requires cs != [] && PicksInOrder(cs, r, pos)
    requires forall k :: 0 <= k < |pos| ==> pos[k] > 0
    ensures PicksInOrder(cs, [cs[0]] + r, [0] + pos)
  {
    var p := [0] + pos;
    var q := [cs[0]] + r;
    forall k | 0 <= k < |p| ensures p[k] < |cs| && cs[p[k]] == q[k] {
      if k > 0 {
        assert p[k] == pos[k - 1] && q[k] == r[k - 1];
      }
    }
  }

  /** `findall` keeps document order and multiplicity: the result is the
      entries at the matching positions of `cs`, each position once, in
      increasing order, and every matching position is among them. */
  lemma {:induction false} TaggedInOrder(elems: seq<Element>, cs: seq<nat>, tag: string)
    requires AllIn(elems, cs)
    ensures exists pos :: PicksInOrder(cs, Tagged(elems, cs, tag), pos) && PicksAll(elems, cs, tag, pos)
    decreases |cs|
  {
    if cs == [] {
      assert PicksInOrder(cs, Tagged(elems, cs, tag), []);
      assert PicksAll(elems, cs, tag, []);
    } else {
      var rest := Tagged(elems, cs[1..], tag);
      TaggedInOrder(elems, cs[1..], tag);
      var pos0 :| PicksInOrder(cs[1..], rest, pos0) && PicksAll(elems, cs[1..], tag, pos0);
      PicksCons(elems, cs, tag, rest, pos0);
      var s := Shift(pos0);
      if elems[cs[0]].tag == tag {
        assert Tagged(elems, cs, tag) == [cs[0]] + rest;
        assert PicksInOrder(cs, Tagged(elems, cs, tag), [0] + s) && PicksAll(elems, cs, tag, [0] + s);
      } else {
        assert Tagged(elems, cs, tag) == rest;
        assert PicksInOrder(cs, Tagged(elems, cs, tag), s) && PicksAll(elems, cs, tag, s);
      }
    }
  }

  /** The picks of `cs[1..]`, shifted by one, with position 0 in front when
      the first entry matches, are the picks of `cs`. */
  lemma PicksCons(elems: seq<Element>, cs: seq<nat>, tag: string, rest: seq<nat>, pos0: seq<nat>)
    requires cs != [] && AllIn(elems, cs)
    requires PicksInOrder(cs[1..], rest, pos0) && PicksAll(elems, cs[1..], tag, pos0)
    ensures elems[cs[0]].tag == tag ==>
      PicksInOrder(cs, [cs[0]] + rest, [0] + Shift(pos0)) && PicksAll(elems, cs, tag, [0] + Shift(pos0))
    ensures elems[cs[0]].tag != tag ==>
      PicksInOrder(cs, rest, Shift(pos0)) && PicksAll(elems, cs, tag, Shift(pos0))
  {
    var s := Shift(pos0);
    ShiftPicks(cs, rest, pos0);
    ShiftPicksAll(elems, cs, tag, pos0);
    if elems[cs[0]].tag == tag {
      ConsPicks(cs, rest, s);
      forall p | 0 <= p < |cs| && elems[cs[p]].tag == tag ensures p in [0] + s {
        if p > 0 {
          assert p in s;
        }
      }
    }
  }

  /** `element.findall(tag)` keeps document order and multiplicity. */
  lemma FindAllInOrder(elems: seq<Element>, e: nat, tag: string)
    requires WellFormedArena(elems) && e < |elems|
    ensures AllIn(elems, elems[e].children)
    ensures exists pos ::
      PicksInOrder(elems[e].children, FindAll(elems, e, tag), pos) && PicksAll(elems, elems[e].children, tag, pos)
  {
    var cs := elems[e].children;
    TaggedInOrder(elems, cs, tag);
    var pos :| PicksInOrder(cs, Tagged(elems, cs, tag), pos) && PicksAll(elems, cs, tag, pos);
    assert FindAll(elems, e, tag) == Tagged(elems, cs, tag);
    assert PicksInOrder(cs, FindAll(elems, e, tag), pos);
  }

  // ----- Descendants -----

  /** Element `e` and every element below it. */
  ghost function Reach(elems: seq<Element>, e: nat): set<nat>
    requires WellFormedArena(elems) && e < |elems|
    decreases |elems| - e, 1
  {
    {e} + ReachAll(elems, e, elems[e].children)
  }

  /** The elements at or below the children `cs` of `owner`. */
  ghost function ReachAll(elems: seq<Element>, owner: nat, cs: seq<nat>): set<nat>
    requires WellFormedArena(elems) && owner < |elems|
    requires forall k :: 0 <= k < |cs| ==> owner < cs[k] < |elems|
    decreases |elems| - owner, 0, |cs|
  {
    if cs == [] then {}
    else ReachAll(elems, owner, cs[..|cs| - 1]) + Reach(elems, cs[|cs| - 1])
  }

  /** An element is below some children exactly when it is at or below one
      of them; everything below `owner` comes after it. */
  lemma {:induction false} ReachAllIff(elems: seq<Element>, owner: nat, cs: seq<nat>)
    requires WellFormedArena(elems) && owner < |elems|
    requires forall k :: 0 <= k < |cs| ==> owner < cs[k] < |elems|
    ensures forall x :: x in ReachAll(elems, owner, cs) <==> exists k :: 0 <= k < |cs| && x in Reach(elems, cs[k])
    decreases |cs|
  {
    if cs != [] {
      var init := cs[..|cs| - 1];
      ReachAllIff(elems, owner, init);
      forall x ensures x in ReachAll(elems, owner, cs) <==> exists k :: 0 <= k < |cs| && x in Reach(elems, cs[k]) {
        if x in ReachAll(elems, owner, init) {
          var k :| 0 <= k < |init| && x in Reach(elems, init[k]);
          assert cs[k] == init[k];
        }
        if exists k :: 0 <= k < |cs| && x in Reach(elems, cs[k]) {
          var k :| 0 <= k < |cs| && x in Reach(elems, cs[k]);
          if k < |init| {
            assert init[k] == cs[k];
          }
        }
      }
    }
  }

  lemma {:induction false} ReachBounds(elems: seq<Element>, e: nat)
    requires WellFormedArena(elems) && e < |elems|
    ensures forall x :: x in Reach(elems, e) ==> e <= x < |elems|
    decreases |elems| - e
  {
    var cs := elems[e].children;
    ReachAllIff(elems, e, cs);
    forall x | x in Reach(elems, e) ensures e <= x < |elems| {
      if x != e {
        assert x in ReachAll(elems, e, cs);
        var k :| 0 <= k < |cs| && x in Reach(elems, cs[k]);
        ReachBounds(elems, cs[k]);
      }
    }
  }

  lemma ReachAllLast(elems: seq<Element>, owner: nat, cs: seq<nat>)
    requires WellFormedArena(elems) && owner < |elems| && cs != []
    requires forall k :: 0 <= k < |cs| ==> owner < cs[k] < |elems|
    ensures ReachAll(elems, owner, cs) == ReachAll(elems, owner, cs[..|cs| - 1]) + Reach(elems, cs[|cs| - 1])
  {
  }

  lemma ReachAllAbove(elems: seq<Element>, owner: nat, cs: seq<nat>)
    requires WellFormedArena(elems) && owner < |elems|
    requires forall k :: 0 <= k < |cs| ==> owner < cs[k] < |elems|
    ensures forall x :: x in ReachAll(elems, owner, cs) ==> owner < x < |elems|
  {
    ReachAllIff(elems, owner, cs);
    forall x | x in ReachAll(elems, owner, cs) ensures owner < x < |elems| {
      var k :| 0 <= k < |cs| && x in Reach(elems, cs[k]);
      ReachBounds(elems, cs[k]);
    }
  }

  /** The children of `b` and all below them are below `b`. */
  lemma ReachChild(elems: seq<Element>, b: nat, l: nat)
    requires WellFormedArena(elems) && b < |elems| && l < |elems[b].children|
    ensures Reach(elems, elems[b].children[l]) <= Reach(elems, b)
  {
    ReachAllIff(elems, b, elems[b].children);
  }

  /** No element is the child of two elements, or twice the child of one:
      the arena is a tree, as a parsed document is. */
  ghost predicate TreeArena(elems: seq<Element>) {
    forall i, k, j, l ::
      (0 <= i < |elems| && 0 <= k < |elems[i].children| && 0 <= j < |elems| && 0 <= l < |elems[j].children|
       && elems[i].children[k] == elems[j].children[l]) ==> i == j && k == l
  }

  /** In a tree, an element strictly below `a` has its parent at or below `a`. */
  lemma {:induction false} ParentReached(elems: seq<Element>, a: nat, b: nat, l: nat)
    requires WellFormedArena(elems) && TreeArena(elems) && a < |elems| && b < |elems| && l < |elems[b].children|
    requires elems[b].children[l] in Reach(elems, a) && elems[b].children[l] != a
    ensures b in Reach(elems, a)
    decreases |elems| - a
  {
    var d := elems[b].children[l];
    var cs := elems[a].children;
    ReachAllIff(elems, a, cs);
    var k :| 0 <= k < |cs| && d in Reach(elems, cs[k]);
    if d != cs[k] {
      ParentReached(elems, cs[k], b, l);
      ReachChild(elems, a, k);
    }
  }

  /** In a tree, two elements with a common descendant lie one below the other. */
  lemma {:induction false} CommonBelow(elems: seq<Element>, a: nat, b: nat, x: nat)
    requires WellFormedArena(elems) && TreeArena(elems) && a < |elems| && b < |elems|
    requires x in Reach(elems, a) && x in Reach(elems, b)
    ensures a in Reach(elems, b) || b in Reach(elems, a)
    decreases |elems| - b
  {
    if x != b {
      var cs := elems[b].children;
      ReachAllIff(elems, b, cs);
      var l :| 0 <= l < |cs| && x in Reach(elems, cs[l]);
      ReachBounds(elems, b);
      CommonBelow(elems, a, cs[l], x);
      ReachChild(elems, b, l);
      if cs[l] in Reach(elems, a) && cs[l] != a {
        ParentReached(elems, a, b, l);
      }
    }
  }

  /** In a tree, what lies below two different children of one element is
      disjoint. */
  lemma SiblingsDisjoint(elems: seq<Element>, owner: nat, k: nat, l: nat)
    requires WellFormedArena(elems) && TreeArena(elems) && owner < |elems|
    requires k < |elems[owner].children| && l < |elems[owner].children| && k != l
    ensures Reach(elems, elems[owner].children[k]) !! Reach(elems, elems[owner].children[l])
  {
    var a := elems[owner].children[k];
    var b := elems[owner].children[l];
    if x :| x in Reach(elems, a) && x in Reach(elems, b) {
      CommonBelow(elems, a, b, x);
      ReachBounds(elems, a);
      ReachBounds(elems, b);
      if a in Reach(elems, b) {
        ParentReached(elems, b, owner, k);
      } else {
        ParentReached(elems, a, owner, l);
      }
      assert false;
    }
  }

  /** In a tree, what lies below the first children of an element is
      disjoint from what lies below the next one. */
  lemma PrefixDisjoint(elems: seq<Element>, owner: nat, n: nat)
    requires WellFormedArena(elems) && TreeArena(elems) && owner < |elems| && n < |elems[owner].children|
    ensures ReachAll(elems, owner, elems[owner].children[..n]) !! Reach(elems, elems[owner].children[n])
  {
    var cs := elems[owner].children;
    var init := cs[..n];
    ReachAllIff(elems, owner, init);
    forall x | x in ReachAll(elems, owner, init) ensures x !in Reach(elems, cs[n]) {
      var k :| 0 <= k < |init| && x in Reach(elems, init[k]);
      SiblingsDisjoint(elems, owner, k, n);
    }
  }
}
