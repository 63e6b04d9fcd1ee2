/** How a user setting's value is presented: the colour classification of
    `_populate_generic_xml_tree` and the reticle-colour default it writes
    back when the stored value is unusable. */
module Colour {
  import opened Text

  const ReticleTargetColour: string := "m_reticletargetcolor"
  const ReticleColour: string := "m_reticlecolor"

  /** `map(str, (0.0, 1.0, 0.0, 1.0))`: the components of opaque green. */
  const DefaultRgbaParts: seq<string> := ["0.0", "1.0", "0.0", "1.0"]

  /** `" ".join(...)` of those components, "0.0 1.0 0.0 1.0": what the
      self-heal writes. */
  const DefaultRgba: string := Join(DefaultRgbaParts)

  /** One of the two reticle colour fields, compared after `lower()`. */
  predicate IsReticleField(field: string) {
    var l := Lower(field);
    l == ReticleTargetColour || l == ReticleColour
  }

  /** The field name, lower-cased, contains "color". */
  predicate IsColourCandidate(field: string) {
    Contains(Lower(field), "color")
  }

  /** The value passes the `" " in value` test and `value.split()` yields
      exactly four tokens that `float()` accepts. */
  predicate ParsesAsRgba(value: string) {
    var parts := Tokens(value);
    ' ' in value && |parts| == 4 && forall t <- parts :: IsFloatToken(t)
  }

  /** What population does with one setting: show the colour editor or the
      raw text, and whether it first overwrites the stored value with
      `DefaultRgba`. */
  datatype Decision = Decision(colourEditor: bool, heal: bool)

  /** The branch structure of the classification: a reticle field always
      gets the editor (healing an unparsable value); another field gets it
      only when it is a colour candidate whose value parses. */
  function Classify(field: string, value: string): (d: Decision)
    ensures d.colourEditor <==>
      IsReticleField(field) || (IsColourCandidate(field) && ParsesAsRgba(value))
    ensures d.heal <==> IsReticleField(field) && !ParsesAsRgba(value)
    ensures d.heal ==> d.colourEditor
  {
    var generic := IsColourCandidate(field);
    var specific := IsReticleField(field);
    var parsed := ParsesAsRgba(value);
    if specific then Decision(true, !parsed)
    else if generic && parsed then Decision(true, false)
    else Decision(false, false)
  }

  /** The value written by the self-heal parses as four numbers, so a field
      healed once is never healed again and keeps its colour editor. */
  lemma DefaultIsRgba(field: string)
    ensures ParsesAsRgba(DefaultRgba)
    ensures !Classify(field, DefaultRgba).heal
  {
    DefaultParses();
  }

  lemma DefaultParses()
    ensures ParsesAsRgba(DefaultRgba)
  {
    PointDecimal(DefaultRgbaParts[0]);
    PointDecimal(DefaultRgbaParts[1]);
    assert forall k :: 0 <= k < |DefaultRgbaParts| ==> IsRgbaPart(DefaultRgbaParts[k]);
    JoinedRgbaParses(DefaultRgbaParts);
  }

  /** A one-digit, point, one-digit literal is a float token. */
  lemma PointDecimal(t: string)
    requires |t| == 3 && IsDigit(t[0]) && t[1] == '.' && IsDigit(t[2])
    ensures IsRgbaPart(t)
  {
    var l := Lower(t);
    LowerSpec(t);
    assert l == t;
    assert l[0] != 'i' && l[0] != 'n';
    assert l != "inf" && l != "infinity" && l != "nan";
    assert IndexOf(l, 'e') == 3;
    assert IndexOf(t, '.') == 1;
    assert t[..1] == [t[0]] && t[2..] == [t[2]];
    assert IsMantissa(t);
  }

  /** One rendering of a float: a non-empty, whitespace-free float token. */
  predicate IsRgbaPart(t: string) {
    t != [] && NoSpace(t) && IsFloatToken(t)
  }

  /** Four float renderings joined with spaces parse as four numbers. */
  lemma JoinedRgbaParses(rgba: seq<string>)
    requires |rgba| == 4
    requires forall k :: 0 <= k < |rgba| ==> IsRgbaPart(rgba[k])
    ensures ParsesAsRgba(Join(rgba))
  {
    assert forall t <- rgba :: IsRgbaPart(t);
    TokensOfJoin(rgba);
    JoinHasSpace(rgba);
  }

  /** The string a colour edit writes back (four float renderings joined
      with spaces) is classified as a colour again for any field whose name
      contains "color": the editor survives a save and reload. */
  lemma ColourEditKeepsEditor(field: string, rgba: seq<string>)
    requires |rgba| == 4
    requires forall k :: 0 <= k < |rgba| ==> IsRgbaPart(rgba[k])
    requires IsColourCandidate(field) || IsReticleField(field)
    ensures Classify(field, Join(rgba)) == Decision(true, false)
  {
    JoinedRgbaParses(rgba);
  }

  /** A value that is not four space-separated numbers never reaches the
      colour editor unless the field is a reticle colour, and a value
      without a space never parses. */
  lemma PlainUnlessParsed(field: string, value: string)
    requires !IsReticleField(field)
    requires ' ' !in value
    ensures !Classify(field, value).colourEditor && !Classify(field, value).heal
  {
  }
}
