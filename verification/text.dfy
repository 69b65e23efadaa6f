/** Character classes and string operations shared by the TypeScript
    component and the Python converter: whitespace trimming, case mapping and
    removal of a character's first occurrence. */
module Text {

  /** The characters `String.prototype.trim` removes in JavaScript: the
      WhiteSpace and LineTerminator productions of ECMAScript (section 12.2 and
      12.3 of ECMA-262), the space separators (Zs) included. */
  predicate IsJsWhitespace(c: char) {
    || c == '\t' || c == '\n' || c == '\U{B}' || c == '\U{C}' || c == '\r' || c == ' '
    || c == '\U{A0}' || c == '\U{1680}' || ('\U{2000}' <= c <= '\U{200A}')
    || c == '\U{2028}' || c == '\U{2029}' || c == '\U{202F}' || c == '\U{205F}'
    || c == '\U{3000}' || c == '\U{FEFF}'
  }

  /** The characters Python's `str.strip()` removes (those `str.isspace()`
      accepts). Unlike JavaScript it includes the information separators
      U+001C..U+001F and NEL (U+0085), and it does not include U+FEFF. */
  predicate IsPyWhitespace(c: char) {
    || ('\t' <= c <= '\r') || ('\U{1C}' <= c <= '\U{1F}') || c == ' '
    || c == '\U{85}' || c == '\U{A0}' || c == '\U{1680}' || ('\U{2000}' <= c <= '\U{200A}')
    || c == '\U{2028}' || c == '\U{2029}' || c == '\U{202F}' || c == '\U{205F}'
    || c == '\U{3000}'
  }

  /** Drops the leading characters that satisfy `ws`. */
  function TrimStart(s: string, ws: char -> bool): (r: string)
    ensures |r| <= |s| && r == s[|s| - |r|..]
    ensures r == [] || !ws(r[0])
    ensures forall i :: 0 <= i < |s| - |r| ==> ws(s[i])
  {
    if s != [] && ws(s[0]) then
      var r := TrimStart(s[1..], ws);
      assert s[1..][|s| - 1 - |r|..] == s[|s| - |r|..];
      assert forall i :: 1 <= i < |s| - |r| ==> s[i] == s[1..][i - 1];
      r
    else s
  }

  /** Drops the trailing characters that satisfy `ws`. */
  function TrimEnd(s: string, ws: char -> bool): (r: string)
    ensures |r| <= |s| && r == s[..|r|]
    ensures r == [] || !ws(r[|r| - 1])
    ensures forall i :: |r| <= i < |s| ==> ws(s[i])
  {
    if s != [] && ws(s[|s| - 1]) then TrimEnd(s[..|s| - 1], ws) else s
  }

  /** How many leading characters `TrimStart` drops. */
  function TrimOffset(s: string, ws: char -> bool): nat {
    |s| - |TrimStart(s, ws)|
  }

  /** Drops whitespace at both ends: the result is the piece of `s` that
      starts at `TrimOffset` and neither starts nor ends with whitespace. */
  function Trim(s: string, ws: char -> bool): (r: string)
    ensures TrimOffset(s, ws) + |r| <= |s|
    ensures r == s[TrimOffset(s, ws)..TrimOffset(s, ws) + |r|]
    ensures r == [] || (!ws(r[0]) && !ws(r[|r| - 1]))
  {
    var t := TrimStart(s, ws);
    var r := TrimEnd(t, ws);
    assert r == s[|s| - |t|..|s| - |t| + |r|];
    r
  }

  /** Everything `Trim` cuts away, on either side, is whitespace. */
  lemma TrimCutsWhitespace(s: string, ws: char -> bool)
    ensures var i, r := TrimOffset(s, ws), Trim(s, ws);
      && (forall k :: 0 <= k < i ==> ws(s[k]))
      && (forall k :: i + |r| <= k < |s| ==> ws(s[k]))
  {
    var t := TrimStart(s, ws);
    var i := |s| - |t|;
    var r := TrimEnd(t, ws);
    assert Trim(s, ws) == r;
    forall k | i + |r| <= k < |s|
      ensures ws(s[k])
    {
      TrimEndCut(t, ws, k - i);
      assert s[k] == t[k - i];
    }
  }

  lemma TrimEndCut(t: string, ws: char -> bool, j: int)
    requires |TrimEnd(t, ws)| <= j < |t|
    ensures ws(t[j])
  {
  }

  /** Trimming leaves nothing exactly when every character is whitespace. */
  lemma TrimEmptyIff(s: string, ws: char -> bool)
    ensures Trim(s, ws) == [] <==> forall i :: 0 <= i < |s| ==> ws(s[i])
  {
  }

  /** Trimming twice is the same as trimming once. */
  lemma TrimIdempotent(s: string, ws: char -> bool)
    ensures Trim(Trim(s, ws), ws) == Trim(s, ws)
  {
    var r := Trim(s, ws);
    assert TrimStart(r, ws) == r;
    assert TrimEnd(r, ws) == r;
  }

  /** The uppercase form of one character, following the full Unicode case
      mapping that JavaScript's `toUpperCase` and Python's `str.upper` apply,
      for ASCII letters and for the non-ASCII letters whose uppercase form is
      ASCII (sharp s, dotless i, long s and the Latin ligatures ff, fi, fl,
      ffi, ffl and st of U+FB00..U+FB06). */
  function UpperChar(c: char): (u: string)
    ensures 1 <= |u| <= 3
    ensures forall i :: 0 <= i < |u| ==> !('a' <= u[i] <= 'z')
  {
    if 'a' <= c <= 'z' then [(c as int - 32) as char]
    else if c == '\U{DF}' then "SS"
    else if c == '\U{FB00}' then "FF"
    else if c == '\U{FB01}' then "FI"
    else if c == '\U{FB02}' then "FL"
    else if c == '\U{FB03}' then "FFI"
    else if c == '\U{FB04}' then "FFL"
    else if c == '\U{131}' then "I"
    else if c == '\U{17F}' then "S"
    else if c == '\U{FB05}' || c == '\U{FB06}' then "ST"
    else [c]
  }

  /** A character the uppercase mapping leaves alone. */
  predicate IsUpperFixed(c: char) {
    UpperChar(c) == [c]
  }

  /** Uppercases a string character by character (`toUpperCase`, `upper`). */
  function Upper(s: string): (r: string)
    ensures |r| >= |s|
  {
    if s == [] then [] else UpperChar(s[0]) + Upper(s[1..])
  }

  /** Every character of an uppercased string is already uppercase. */
  lemma {:induction false} UpperIsFixed(s: string)
    ensures forall i :: 0 <= i < |Upper(s)| ==> IsUpperFixed(Upper(s)[i])
  {
    if s != [] {
      UpperIsFixed(s[1..]);
      var u, rest := UpperChar(s[0]), Upper(s[1..]);
      assert Upper(s) == u + rest;
      forall i | 0 <= i < |u|
        ensures IsUpperFixed(u[i])
      {
        var c := u[i];
        assert !('a' <= c <= 'z');
      }
    }
  }

  lemma {:induction false} UpperAppend(a: string, b: string)
    ensures Upper(a + b) == Upper(a) + Upper(b)
  {
    if a != [] {
      assert (a + b)[0] == a[0];
      assert (a + b)[1..] == a[1..] + b;
      UpperAppend(a[1..], b);
      calc {
        Upper(a + b);
        UpperChar(a[0]) + Upper(a[1..] + b);
        UpperChar(a[0]) + (Upper(a[1..]) + Upper(b));
        (UpperChar(a[0]) + Upper(a[1..])) + Upper(b);
      }
    } else {
      assert a + b == b;
    }
  }

  /** A string of uppercase-fixed characters is its own uppercase form. */
  lemma {:induction false} UpperOfFixed(s: string)
    requires forall i :: 0 <= i < |s| ==> IsUpperFixed(s[i])
    ensures Upper(s) == s
  {
    if s != [] {
      UpperOfFixed(s[1..]);
    }
  }

  /** A string of ASCII capitals is its own uppercase form. */
  lemma UpperOfAsciiCapitals(s: string)
    requires forall i :: 0 <= i < |s| ==> 'A' <= s[i] <= 'Z'
    ensures Upper(s) == s
  {
    forall i | 0 <= i < |s|
      ensures IsUpperFixed(s[i])
    {
      CapitalIsFixed(s[i]);
    }
    UpperOfFixed(s);
  }

  lemma CapitalIsFixed(c: char)
    requires 'A' <= c <= 'Z'
    ensures IsUpperFixed(c)
  {
    assert UpperChar(c) == [c];
  }

  /** Uppercasing is idempotent. */
  lemma UpperIdempotent(s: string)
    ensures Upper(Upper(s)) == Upper(s)
  {
    UpperIsFixed(s);
    UpperOfFixed(Upper(s));
  }

  /** ASCII lowercase of one character. */
  function LowerChar(c: char): (l: char)
    ensures !('A' <= l <= 'Z')
    ensures UpperChar(l) == UpperChar(c)
  {
    if 'A' <= c <= 'Z' then (c as int + 32) as char else c
  }

  /** ASCII lowercase of a string (`str.lower` on the words it is compared
      against). */
  function Lower(s: string): (r: string)
    ensures |r| == |s|
    ensures forall i :: 0 <= i < |s| ==> r[i] == LowerChar(s[i])
  {
    if s == [] then [] else [LowerChar(s[0])] + Lower(s[1..])
  }

  /** Lowercasing is idempotent. */
  lemma LowerIdempotent(s: string)
    ensures Lower(Lower(s)) == Lower(s)
  {
  }

  /** Lowercasing first does not change the uppercase form. */
  lemma {:induction false} UpperOfLower(s: string)
    ensures Upper(Lower(s)) == Upper(s)
  {
    if s != [] {
      UpperOfLower(s[1..]);
      assert Lower(s)[1..] == Lower(s[1..]);
    }
  }

  /** Removes the first occurrence of `c` (`s.replace(c, '')` with a string
      pattern, which replaces only the first match). */
  function RemoveFirst(s: string, c: char): (r: string)
    ensures c !in s ==> r == s
    ensures c in s ==> |r| == |s| - 1
  {
    if s == [] then []
    else if s[0] == c then s[1..]
    else [s[0]] + RemoveFirst(s[1..], c)
  }

  /** What `RemoveFirst` removes is exactly one `c`. */
  lemma {:induction false} RemoveFirstCount(s: string, c: char)
    requires c in s
    ensures multiset(RemoveFirst(s, c)) == multiset(s) - multiset{c}
  {
    assert s == [s[0]] + s[1..];
    if s[0] != c {
      RemoveFirstCount(s[1..], c);
    }
  }

  /** Removal happens at the first occurrence and keeps the rest intact. */
  lemma {:induction false} RemoveFirstAt(p: string, c: char, q: string)
    requires c !in p
    ensures RemoveFirst(p + [c] + q, c) == p + q
  {
    var s := p + [c] + q;
    if p == [] {
      assert s[0] == c && s[1..] == q;
    } else {
      var rest := p[1..];
      assert p == [p[0]] + rest;
      assert s[0] == p[0] && s[0] != c;
      assert s[1..] == rest + [c] + q;
      RemoveFirstAt(rest, c, q);
      assert p + q == [p[0]] + (rest + q);
    }
  }

  /** `parts.join(sep)`: the parts with `sep` between neighbours. */
  function Join(parts: seq<string>, sep: string): (r: string)
    ensures parts == [] ==> r == []
    ensures |parts| == 1 ==> r == parts[0]
    ensures |parts| == 2 ==> r == parts[0] + sep + parts[1]
  {
    if parts == [] then []
    else if |parts| == 1 then parts[0]
    else parts[0] + sep + Join(parts[1..], sep)
  }

  /** A joined string begins with the first part and ends with the last. */
  lemma {:induction false} JoinEnds(parts: seq<string>, sep: string)
    requires |parts| > 0
    ensures parts[0] <= Join(parts, sep)
    ensures var r, last := Join(parts, sep), parts[|parts| - 1];
      |last| <= |r| && r[|r| - |last|..] == last
  {
    if |parts| > 1 {
      JoinEnds(parts[1..], sep);
    }
  }
}
