/** Python string primitives the settings view relies on: `str.isspace`,
    `str.strip`, `str.split()` (no separator), `str.lower`, the `in` test for
    substrings, `" ".join` and the syntax `float()` accepts. */
module Text {

  /** The characters Python's `str.isspace` (and so `split()` and `strip()`)
      treat as whitespace. */
  predicate IsSpace(c: char) {
    c == ' ' || ('\t' <= c <= '\r') || ('\U{1C}' <= c <= '\U{1F}')
    || c == '\U{85}' || c == '\U{A0}' || c == '\U{1680}'
    || ('\U{2000}' <= c <= '\U{200A}') || c == '\U{2028}' || c == '\U{2029}'
    || c == '\U{202F}' || c == '\U{205F}' || c == '\U{3000}'
  }

  predicate NoSpace(s: string) {
    forall k :: 0 <= k < |s| ==> !IsSpace(s[k])
  }

  /** `s.lstrip()`: the suffix of `s` left after dropping leading whitespace. */
  function StripLeft(s: string): (r: string)
    ensures |r| <= |s|
  {
    if s == [] || !IsSpace(s[0]) then s else StripLeft(s[1..])
  }

  /** `lstrip()` keeps a suffix, drops only whitespace and stops at the first
      character that is not whitespace. */
  lemma {:induction false} StripLeftSpec(s: string)
    ensures StripLeft(s) == s[|s| - |StripLeft(s)|..]
    ensures forall k :: 0 <= k < |s| - |StripLeft(s)| ==> IsSpace(s[k])
    ensures StripLeft(s) == [] || !IsSpace(StripLeft(s)[0])
  {
    if s != [] && IsSpace(s[0]) {
      StripLeftSpec(s[1..]);
    }
  }

  /** `s.rstrip()`: the prefix of `s` left after dropping trailing whitespace. */
  function StripRight(s: string): (r: string)
    ensures |r| <= |s|
  {
    if s == [] || !IsSpace(s[|s| - 1]) then s else StripRight(s[..|s| - 1])
  }

  /** `rstrip()` keeps a prefix, drops only whitespace and stops at the last
      character that is not whitespace. */
  lemma {:induction false} StripRightSpec(s: string)
    ensures StripRight(s) == s[..|StripRight(s)|]
    ensures forall k :: |StripRight(s)| <= k < |s| ==> IsSpace(s[k])
    ensures StripRight(s) == [] || !IsSpace(StripRight(s)[|StripRight(s)| - 1])
  {
    if s != [] && IsSpace(s[|s| - 1]) {
      StripRightSpec(s[..|s| - 1]);
    }
  }

  /** `s.strip()`. */
  function Strip(s: string): (r: string)
  {
    StripRight(StripLeft(s))
  }

  /** `strip()` yields a slice of its input that neither starts nor ends with
      whitespace, and everything it drops is whitespace; stripping twice is
      stripping once. */
  lemma StripTrims(s: string)
    ensures exists i, j ::
      && 0 <= i <= j <= |s| && Strip(s) == s[i..j]
      && (forall k :: 0 <= k < i || j <= k < |s| ==> IsSpace(s[k]))
    ensures Strip(s) == [] || (!IsSpace(Strip(s)[0]) && !IsSpace(Strip(s)[|Strip(s)| - 1]))
    ensures Strip(Strip(s)) == Strip(s)
  {
    var i, j := StripSlice(s);
    StripEnds(s);
    var r := Strip(s);
    StripLeftOfTrimmed(r);
    StripRightOfTrimmed(r);
  }

  /** Where the slice kept by `strip()` starts and ends. */
  lemma StripSlice(s: string) returns (i: nat, j: nat)
    ensures 0 <= i <= j <= |s| && Strip(s) == s[i..j]
    ensures forall k :: 0 <= k < i || j <= k < |s| ==> IsSpace(s[k])
  {
    var l := StripLeft(s);
    var r := StripRight(l);
    StripLeftSpec(s);
    StripRightSpec(l);
    i := |s| - |l|;
    j := i + |r|;
    assert l == s[i..];
    assert r == s[i..j] by {
      assert s[i..][..|r|] == s[i..j];
    }
    forall k | j <= k < |s| ensures IsSpace(s[k]) {
      assert s[k] == l[k - i];
    }
  }

  lemma StripEnds(s: string)
    ensures Strip(s) == [] || (!IsSpace(Strip(s)[0]) && !IsSpace(Strip(s)[|Strip(s)| - 1]))
  {
    var l := StripLeft(s);
    var r := StripRight(l);
    StripLeftSpec(s);
    StripRightSpec(l);
    if r != [] {
      assert r[0] == l[0];
    }
  }

  lemma StripLeftOfTrimmed(s: string)
    requires s == [] || !IsSpace(s[0])
    ensures StripLeft(s) == s
  {
  }

  lemma StripRightOfTrimmed(s: string)
    requires s == [] || !IsSpace(s[|s| - 1])
    ensures StripRight(s) == s
  {
  }

  /** The longest prefix of `s` free of whitespace: one word of `split()`. */
  function Word(s: string): (w: string)
    ensures |w| <= |s|
  {
    if s == [] || IsSpace(s[0]) then [] else [s[0]] + Word(s[1..])
  }

  /** A word is a whitespace-free prefix that stops at whitespace or at the
      end, and it is not empty when the text starts with a non-space. */
  lemma {:induction false} WordSpec(s: string)
    ensures Word(s) == s[..|Word(s)|] && NoSpace(Word(s))
    ensures |Word(s)| == |s| || IsSpace(s[|Word(s)|])
    ensures s != [] && !IsSpace(s[0]) ==> Word(s) != []
  {
    if s != [] && !IsSpace(s[0]) {
      WordSpec(s[1..]);
    }
  }

  /** `s.split()`: the maximal whitespace-free runs of `s`, in order. */
  function Tokens(s: string): (ts: seq<string>)
    ensures forall w <- ts :: w != [] && NoSpace(w)
    decreases |s|
  {
    StripLeftSpec(s);
    var t := StripLeft(s);
    if t == [] then []
    else
      WordSpec(t);
      var w := Word(t);
      [w] + Tokens(t[|w|..])
  }

  /** `" ".join(ts)`. */
  function Join(ts: seq<string>): (s: string)
    ensures ts == [] ==> s == []
  {
    if ts == [] then []
    else if |ts| == 1 then ts[0]
    else ts[0] + " " + Join(ts[1..])
  }

  lemma {:induction false} WordOfJoined(t: string, rest: string)
    requires t != [] && NoSpace(t)
    requires rest == [] || IsSpace(rest[0])
    ensures Word(t + rest) == t
    decreases |t|
  {
    var s := t + rest;
    assert s[0] == t[0] && !IsSpace(t[0]);
    if |t| > 1 {
      assert s[1..] == t[1..] + rest;
      WordOfJoined(t[1..], rest);
      assert [t[0]] + t[1..] == t;
    } else {
      assert s[1..] == rest;
      assert Word(rest) == [];
      assert [t[0]] == t;
    }
  }

  lemma JoinStartsWithWord(ts: seq<string>)
    requires ts != []
    requires forall w <- ts :: w != [] && NoSpace(w)
    ensures Join(ts) != [] && !IsSpace(Join(ts)[0])
  {
    assert ts[0] in ts;
    assert Join(ts)[0] == ts[0][0];
  }

  /** Splitting what `" ".join` built from whitespace-free words gives the
      words back: the round trip a colour write-back relies on. */
  lemma {:induction false} TokensOfJoin(ts: seq<string>)
    requires forall w <- ts :: w != [] && NoSpace(w)
    ensures Tokens(Join(ts)) == ts
  {
    if ts == [] {
    } else if |ts| == 1 {
      var s := ts[0];
      assert s in ts;
      StripLeftOfTrimmed(s);
      WordOfJoined(s, []);
      assert s + [] == s;
      assert s[|s|..] == [];
    } else {
      assert ts[0] in ts;
      assert forall w <- ts[1..] :: w in ts;
      var rest := Join(ts[1..]);
      var s := ts[0] + " " + rest;
      JoinStartsWithWord(ts);
      StripLeftOfTrimmed(s);
      assert s == ts[0] + (" " + rest);
      WordOfJoined(ts[0], " " + rest);
      assert s[|ts[0]|..] == " " + rest;
      JoinStartsWithWord(ts[1..]);
      assert (" " + rest)[1..] == rest;
      StripLeftOfTrimmed(rest);
      assert StripLeft(" " + rest) == rest;
      TokensOfJoin(ts[1..]);
    }
  }

  /** `split()` ignores leading whitespace. */
  lemma TokensIgnoreLeading(s: string)
    ensures Tokens(s) == Tokens(StripLeft(s))
  {
    StripLeftSpec(s);
    StripLeftOfTrimmed(StripLeft(s));
  }

  /** A single whitespace-free word splits into itself. */
  lemma TokensOfWord(w: string)
    requires w != [] && NoSpace(w)
    ensures Tokens(w) == [w]
  {
    StripLeftOfTrimmed(w);
    WordOfJoined(w, []);
    assert w + [] == w;
    assert w[|w|..] == [];
  }

  predicate AllSpace(s: string) {
    forall k :: 0 <= k < |s| ==> IsSpace(s[k])
  }

  /** Leading whitespace of any length is dropped by `lstrip`. */
  lemma {:induction false} StripLeftOfSpaces(ws: string, b: string)
    requires AllSpace(ws)
    ensures StripLeft(ws + b) == StripLeft(b)
    decreases |ws|
  {
    if ws != [] {
      assert (ws + b)[0] == ws[0];
      assert (ws + b)[1..] == ws[1..] + b;
      StripLeftOfSpaces(ws[1..], b);
    } else {
      assert ws + b == b;
    }
  }

  /** `split()` of a text that starts with whitespace skips it. */
  lemma TokensSkipSpace(s: string)
    requires s != [] && IsSpace(s[0])
    ensures Tokens(s) == Tokens(s[1..])
  {
    TokensIgnoreLeading(s);
    TokensIgnoreLeading(s[1..]);
  }

  /** `split()` of a text that starts with a word yields that word first. */
  lemma TokensFirstWord(s: string)
    requires s != [] && !IsSpace(s[0])
    ensures Tokens(s) == [Word(s)] + Tokens(s[|Word(s)|..])
  {
    StripLeftOfTrimmed(s);
  }

  /** A run of whitespace splits the text in two: `split()` of the whole is
      the tokens before the run followed by the tokens after it, however
      long the run and whatever whitespace it holds. */
  lemma {:induction false} TokensSplitAtSpaces(a: string, ws: string, b: string)
    requires ws != [] && AllSpace(ws)
    ensures Tokens(a + ws + b) == Tokens(a) + Tokens(b)
    decreases |a|
  {
    if a == [] {
      SplitAtStart(ws, b);
      assert a + ws + b == ws + b;
    } else if IsSpace(a[0]) {
      SplitSpaceStep(a, ws, b);
      TokensSplitAtSpaces(a[1..], ws, b);
    } else {
      SplitWordStep(a, ws, b);
      var rest := a[|Word(a)|..];
      TokensSplitAtSpaces(rest, ws, b);
      assert [Word(a)] + (Tokens(rest) + Tokens(b)) == ([Word(a)] + Tokens(rest)) + Tokens(b);
    }
  }

  lemma SplitAtStart(ws: string, b: string)
    requires AllSpace(ws)
    ensures Tokens(ws + b) == Tokens(b)
  {
    StripLeftOfSpaces(ws, b);
    TokensIgnoreLeading(ws + b);
    TokensIgnoreLeading(b);
  }

  lemma SplitSpaceStep(a: string, ws: string, b: string)
    requires a != [] && IsSpace(a[0])
    ensures Tokens(a + ws + b) == Tokens(a[1..] + ws + b)
    ensures Tokens(a) == Tokens(a[1..])
  {
    var s := a + ws + b;
    assert s[0] == a[0];
    assert s[1..] == a[1..] + ws + b;
    TokensSkipSpace(s);
    TokensSkipSpace(a);
  }

  lemma SplitWordStep(a: string, ws: string, b: string)
    requires a != [] && !IsSpace(a[0]) && ws != [] && AllSpace(ws)
    ensures 0 < |Word(a)|
    ensures Tokens(a + ws + b) == [Word(a)] + Tokens(a[|Word(a)|..] + ws + b)
    ensures Tokens(a) == [Word(a)] + Tokens(a[|Word(a)|..])
  {
    WordSpec(a);
    var w := Word(a);
    var rest := a[|w|..];
    var t := rest + ws + b;
    var s := a + ws + b;
    assert a == w + rest;
    assert s == w + t;
    assert t == [] || IsSpace(t[0]) by {
      if rest == [] {
        assert t[0] == ws[0];
      } else {
        assert t[0] == rest[0] == a[|w|];
      }
    }
    WordOfJoined(w, t);
    assert s[0] == a[0];
    assert s[|w|..] == t;
    TokensFirstWord(s);
    TokensFirstWord(a);
  }

  /** A joined list of two or more words contains a space. */
  lemma JoinHasSpace(ts: seq<string>)
    requires |ts| >= 2
    ensures ' ' in Join(ts)
  {
    assert Join(ts)[|ts[0]|] == ' ';
  }

  /** `s.lower()` restricted to ASCII letters. */
  function Lower(s: string): (r: string)
    ensures |r| == |s|
  {
    if s == [] then []
    else
      var c := s[0];
      [if 'A' <= c <= 'Z' then (c as int + 32) as char else c] + Lower(s[1..])
  }

  /** `lower()` maps each ASCII capital to its small letter and keeps every
      other character. */
  lemma {:induction false} LowerSpec(s: string)
    ensures forall k :: 0 <= k < |s| ==>
      Lower(s)[k] == if 'A' <= s[k] <= 'Z' then (s[k] as int + 32) as char else s[k]
  {
    if s != [] {
      LowerSpec(s[1..]);
    }
  }

  /** Python's `sub in s` for strings. */
  predicate Contains(s: string, sub: string)
    decreases |s|
  {
    (|sub| <= |s| && s[..|sub|] == sub) || (s != [] && Contains(s[1..], sub))
  }

  predicate IsDigit(c: char) {
    '0' <= c <= '9'
  }

  predicate AllDigits(s: string) {
    forall k :: 0 <= k < |s| ==> IsDigit(s[k])
  }

  /** Index of the first occurrence of `c` in `s`, or `|s|` when absent. */
  function IndexOf(s: string, c: char): (i: nat)
    ensures i <= |s|
    ensures i < |s| ==> s[i] == c
    ensures forall k :: 0 <= k < i ==> s[k] != c
  {
    if s == [] then 0 else if s[0] == c then 0 else 1 + IndexOf(s[1..], c)
  }

  /** `digits[.digits]` or `.digits`: a decimal mantissa with at least one digit. */
  predicate IsMantissa(m: string) {
    var p := IndexOf(m, '.');
    if p == |m| then m != [] && AllDigits(m)
    else AllDigits(m[..p]) && AllDigits(m[p + 1..]) && (p > 0 || p + 1 < |m|)
  }

  /** An exponent after `e`/`E`: an optional sign and at least one digit. */
  predicate IsExponent(x: string) {
    var d := if x != [] && (x[0] == '+' || x[0] == '-') then x[1..] else x;
    d != [] && AllDigits(d)
  }

  /** A token Python's `float()` accepts: an optional sign followed by a
      decimal literal with an optional exponent, or by `inf`, `infinity` or
      `nan` in any letter case. Digit-group underscores are not accepted here. */
  predicate IsFloatToken(t: string) {
    var u := if t != [] && (t[0] == '+' || t[0] == '-') then t[1..] else t;
    var l := Lower(u);
    if l == "inf" || l == "infinity" || l == "nan" then true
    else
      var e := IndexOf(l, 'e');
      if e == |l| then IsMantissa(u) else IsMantissa(u[..e]) && IsExponent(u[e + 1..])
  }
}
