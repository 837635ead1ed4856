/**
 * The two Python string operations the pipeline relies on: `str.strip()` with
 * no argument (drop leading and trailing whitespace) and `str.lower()`.
 * Python strings are sequences of code points; here they are `seq<char>`.
 */
module PyText {

  /** The characters for which Python's `str.isspace()` holds; `str.strip()`
      with no argument removes exactly these from both ends. */
  predicate IsSpace(c: char) {
    || ('\t' <= c <= '\r')            // tab, line feed, vertical tab, form feed, carriage return
    || ('\U{1C}' <= c <= ' ')         // file/group/record/unit separators and space
    || c == '\U{85}' || c == '\U{A0}' || c == '\U{1680}'
    || ('\U{2000}' <= c <= '\U{200A}')
    || c == '\U{2028}' || c == '\U{2029}' || c == '\U{202F}' || c == '\U{205F}' || c == '\U{3000}'
  }

  predicate AllSpace(s: string) {
    forall i :: 0 <= i < |s| ==> IsSpace(s[i])
  }

  /** A string that `strip` leaves alone: empty, or not starting or ending in whitespace. */
  predicate IsStripped(s: string) {
    s == [] || (!IsSpace(s[0]) && !IsSpace(s[|s| - 1]))
  }

  /** `s.lstrip()`: drop whitespace from the front. */
  function LStrip(s: string): string {
    if |s| > 0 && IsSpace(s[0]) then LStrip(s[1..]) else s
  }

  /** `s.rstrip()`: drop whitespace from the back. */
  function RStrip(s: string): string {
    if |s| > 0 && IsSpace(s[|s| - 1]) then RStrip(s[..|s| - 1]) else s
  }

  /** `lstrip` removes exactly a whitespace prefix, up to a non-whitespace character. */
  lemma {:induction false} LStripShape(s: string)
    ensures |LStrip(s)| <= |s| && LStrip(s) == s[|s| - |LStrip(s)|..]
    ensures AllSpace(s[..|s| - |LStrip(s)|])
    ensures LStrip(s) == [] || !IsSpace(LStrip(s)[0])
  {
    if |s| > 0 && IsSpace(s[0]) {
      LStripShape(s[1..]);
      assert s[1..][..|s[1..]| - |LStrip(s)|] == s[1..|s| - |LStrip(s)|];
    }
  }

  /** `rstrip` removes exactly a whitespace suffix, back to a non-whitespace character. */
  lemma {:induction false} RStripShape(s: string)
    ensures |RStrip(s)| <= |s| && RStrip(s) == s[..|RStrip(s)|]
    ensures AllSpace(s[|RStrip(s)|..])
    ensures RStrip(s) == [] || !IsSpace(RStrip(s)[|RStrip(s)| - 1])
  {
    if |s| > 0 && IsSpace(s[|s| - 1]) {
      RStripShape(s[..|s| - 1]);
      assert s[..|s| - 1][|RStrip(s)|..] + [s[|s| - 1]] == s[|RStrip(s)|..];
    }
  }

  /** `s.strip()`. */
  function Strip(s: string): (r: string)
    ensures |r| <= |s|
    ensures IsStripped(r)
  {
    LStripShape(s);
    RStripShape(LStrip(s));
    RStrip(LStrip(s))
  }

  /** Stripping removes exactly a whitespace prefix and a whitespace suffix:
      the input is `w1 + Strip(s) + w2` with `w1`, `w2` all whitespace. */
  lemma StripDecompose(s: string) returns (w1: string, w2: string)
    ensures AllSpace(w1) && AllSpace(w2)
    ensures s == w1 + Strip(s) + w2
  {
    var l := LStrip(s);
    var r := RStrip(l);
    LStripShape(s);
    RStripShape(l);
    var k := |s| - |l|;
    w1, w2 := s[..k], l[|r|..];
    assert r == Strip(s);
    assert s == w1 + l by { assert s == s[..k] + s[k..]; }
    assert l == r + w2 by { assert l == l[..|r|] + l[|r|..]; }
    assert w1 + (r + w2) == w1 + r + w2;
  }

  lemma {:induction false} LStripPadded(w: string, t: string)
    requires AllSpace(w)
    requires t == [] || !IsSpace(t[0])
    ensures LStrip(w + t) == t
  {
    if w == [] {
      assert w + t == t;
    } else {
      assert (w + t)[1..] == w[1..] + t;
      LStripPadded(w[1..], t);
    }
  }

  lemma {:induction false} RStripPadded(t: string, w: string)
    requires AllSpace(w)
    requires t == [] || !IsSpace(t[|t| - 1])
    ensures RStrip(t + w) == t
  {
    if w == [] {
      assert t + w == t;
    } else {
      assert (t + w)[..|t + w| - 1] == t + w[..|w| - 1];
      RStripPadded(t, w[..|w| - 1]);
    }
  }

  /** The converse of StripDecompose: padding a stripped string with whitespace on
      either side and stripping gives the string back. Together they say that
      `Strip(s)` is the unique stripped core of `s`. */
  lemma StripPadded(w1: string, u: string, w2: string)
    requires AllSpace(w1) && AllSpace(w2) && IsStripped(u)
    ensures Strip(w1 + u + w2) == u
  {
    if u == [] {
      assert w1 + u + w2 == w1 + w2;
      assert AllSpace(w1 + w2);
      LStripShape(w1 + w2);
      assert LStrip(w1 + w2) == [];
    } else {
      assert w1 + u + w2 == w1 + (u + w2);
      LStripPadded(w1, u + w2);
      RStripPadded(u, w2);
    }
  }

  /** Stripping twice is stripping once. */
  lemma StripIdempotent(s: string)
    ensures Strip(Strip(s)) == Strip(s)
  {
    var u := Strip(s);
    assert [] + u + [] == u;
    StripPadded([], u, []);
  }

  /** `c.lower()` for one character, on the ASCII range. */
  function LowerChar(c: char): char {
    if 'A' <= c <= 'Z' then (c as int - 'A' as int + 'a' as int) as char else c
  }

  /** `s.lower()`, character by character. */
  function Lower(s: string): string {
    if s == [] then [] else [LowerChar(s[0])] + Lower(s[1..])
  }

  /** Lower-casing keeps the length and maps every character on its own. */
  lemma {:induction false} LowerShape(s: string)
    ensures |Lower(s)| == |s|
    ensures forall i :: 0 <= i < |s| ==> Lower(s)[i] == LowerChar(s[i])
  {
    if s != [] {
      LowerShape(s[1..]);
    }
  }
}
