/**
 The string primitives the header normalization relies on: JavaScript's `trim()`,
 `toLowerCase()` (restricted to ASCII letters) and `replace(/\s+/g, '_')`.
 */
module Text {

  /** The ECMAScript WhiteSpace and LineTerminator code points: exactly what `trim()`
      removes and what the regular-expression class `\s` matches. */
  const Spaces: set<char> := {
    ' ', '\t', '\n', '\U{000B}', '\U{000C}', '\r', '\U{00A0}', '\U{1680}',
    '\U{2000}', '\U{2001}', '\U{2002}', '\U{2003}', '\U{2004}', '\U{2005}',
    '\U{2006}', '\U{2007}', '\U{2008}', '\U{2009}', '\U{200A}',
    '\U{2028}', '\U{2029}', '\U{202F}', '\U{205F}', '\U{3000}', '\U{FEFF}'
  }

  predicate IsSpace(c: char) {
    c in Spaces
  }

  predicate NoSpace(s: string) {
    forall i :: 0 <= i < |s| ==> !IsSpace(s[i])
  }

  predicate AllSpace(s: string) {
    forall i :: 0 <= i < |s| ==> IsSpace(s[i])
  }

  /** Every character of `s` from `lo` up to (not including) `hi` is white space. */
  predicate SpaceBetween(s: string, lo: nat, hi: nat)
    requires lo <= hi <= |s|
  {
    forall k :: lo <= k < hi ==> IsSpace(s[k])
  }

  // ---------------------------------------------------------------- trim

  /** Scans forward from `i` over white space: the position of the first
      character at or after `i` that is not white space, or the end. */
  function TrimStartAt(s: string, i: nat): (a: nat)
    requires i <= |s|
    ensures i <= a <= |s|
    ensures SpaceBetween(s, i, a)
    ensures a == |s| || !IsSpace(s[a])
    decreases |s| - i
  {
    if i < |s| && IsSpace(s[i]) then TrimStartAt(s, i + 1) else i
  }

  /** Scans backward from `j` over white space, not below `lo`: the position just
      after the last character before `j` that is not white space, or `lo`. */
  function TrimEndAt(s: string, lo: nat, j: nat): (b: nat)
    requires lo <= j <= |s|
    ensures lo <= b <= j
    ensures SpaceBetween(s, b, j)
    ensures b == lo || !IsSpace(s[b - 1])
    decreases j
  {
    if lo < j && IsSpace(s[j - 1]) then TrimEndAt(s, lo, j - 1) else j
  }

  /** `String.prototype.trim`: the part of `s` between its leading and its
      trailing white space. The result neither starts nor ends with white space. */
  function Trim(s: string): (r: string)
    ensures |r| <= |s|
    ensures r == [] || (!IsSpace(r[0]) && !IsSpace(r[|r| - 1]))
  {
    var a := TrimStartAt(s, 0);
    s[a..TrimEndAt(s, a, |s|)]
  }

  /** `Trim` cuts only white space: its result is a contiguous slice of `s` with
      nothing but white space on either side. */
  lemma TrimSlice(s: string)
    ensures exists i: nat :: i + |Trim(s)| <= |s| && Trim(s) == s[i..i + |Trim(s)|]
                        && SpaceBetween(s, 0, i) && SpaceBetween(s, i + |Trim(s)|, |s|)
  {
    var a := TrimStartAt(s, 0);
    var b := TrimEndAt(s, a, |s|);
    assert Trim(s) == s[a..b];
    assert SpaceBetween(s, 0, a) && SpaceBetween(s, a + |Trim(s)|, |s|);
  }

  /** Trimming leaves nothing exactly when `s` is all white space. */
  lemma TrimEmpty(s: string)
    ensures Trim(s) == [] <==> AllSpace(s)
  {
    var a := TrimStartAt(s, 0);
    var b := TrimEndAt(s, a, |s|);
    if a < |s| {
      assert !IsSpace(s[a]) && a < b;
    }
  }

  /** A string without white space is its own trim. */
  lemma TrimNoSpace(s: string)
    requires NoSpace(s)
    ensures Trim(s) == s
  {
    if s != [] {
      assert TrimStartAt(s, 0) == 0;
      assert TrimEndAt(s, 0, |s|) == |s|;
    }
    assert s[0..|s|] == s;
  }

  /** The three facts about `Trim` together. */
  lemma TrimShape(s: string)
    ensures exists i: nat :: i + |Trim(s)| <= |s| && Trim(s) == s[i..i + |Trim(s)|]
                        && SpaceBetween(s, 0, i) && SpaceBetween(s, i + |Trim(s)|, |s|)
    ensures Trim(s) == [] <==> AllSpace(s)
    ensures NoSpace(s) ==> Trim(s) == s
  {
    TrimSlice(s);
    TrimEmpty(s);
    if NoSpace(s) {
      TrimNoSpace(s);
    }
  }

  predicate IsUpper(c: char) {
    'A' <= c <= 'Z'
  }

  /** `toLowerCase` on one character; only the ASCII letters are mapped. */
  function LowerChar(c: char): (d: char)
    ensures !IsUpper(d)
    ensures IsUpper(c) ==> 'a' <= d <= 'z' && d as int - c as int == 'a' as int - 'A' as int
    ensures !IsUpper(c) ==> d == c
  {
    if IsUpper(c) then (c as int - 'A' as int + 'a' as int) as char else c
  }

  /** `String.prototype.toLowerCase` restricted to ASCII letters: the same length,
      each character mapped on its own, so every upper-case ASCII letter becomes its
      lower-case letter and white space and every other non-letter is kept. */
  function Lower(s: string): (r: string)
    ensures |r| == |s|
    ensures forall i :: 0 <= i < |r| ==> r[i] == LowerChar(s[i])
    ensures forall i :: 0 <= i < |r| ==> !IsUpper(r[i])
    ensures forall i :: 0 <= i < |r| ==> IsSpace(r[i]) == IsSpace(s[i])
    ensures forall i :: 0 <= i < |r| && !IsUpper(s[i]) ==> r[i] == s[i]
  {
    seq(|s|, i requires 0 <= i < |s| => LowerChar(s[i]))
  }

  lemma LowerIdempotent(s: string)
    ensures Lower(Lower(s)) == Lower(s)
  {
  }

  // ---------------------------------------------------------------- white-space runs

  /** `replace(/\s+/g, '_')`: every maximal run of white space becomes one `_`.
      The `_` is emitted at the last character of each run. */
  function CollapseSpaces(s: string): (r: string)
    ensures |r| <= |s|
  {
    if s == [] then [] else Mark(s) + CollapseSpaces(s[1..])
  }

  /** What the first character of `s` contributes to the collapse: itself when it
      is not white space, nothing when the white space run goes on, and `_` for
      the last white space of a run. */
  function Mark(s: string): (m: string)
    requires s != []
    ensures |m| <= 1
    ensures NoSpace(m)
    ensures forall i :: 0 <= i < |m| ==> m[i] == '_' || m[i] == s[0]
  {
    if !IsSpace(s[0]) then [s[0]]
    else if |s| > 1 && IsSpace(s[1]) then []
    else "_"
  }

  /** No white space survives the collapse. */
  lemma {:induction false} CollapseSpacesNoSpace(s: string)
    ensures NoSpace(CollapseSpaces(s))
  {
    if s != [] {
      CollapseSpacesNoSpace(s[1..]);
    }
  }

  /** Every character of the result is an `_` or a character of `s`. */
  lemma {:induction false} CollapseSpacesChars(s: string)
    ensures forall i :: 0 <= i < |CollapseSpaces(s)| ==> CollapseSpaces(s)[i] == '_' || CollapseSpaces(s)[i] in s
  {
    if s != [] {
      CollapseSpacesChars(s[1..]);
      var m, r' := Mark(s), CollapseSpaces(s[1..]);
      forall i | 0 <= i < |m + r'| ensures (m + r')[i] == '_' || (m + r')[i] in s {
        if i >= |m| {
          assert (m + r')[i] == r'[i - |m|];
          assert r'[i - |m|] == '_' || r'[i - |m|] in s[1..];
        }
      }
    }
  }

  /** A string is left unchanged exactly when it holds no white space. */
  lemma {:induction false} CollapseSpacesFixpoint(s: string)
    ensures CollapseSpaces(s) == s <==> NoSpace(s)
  {
    CollapseSpacesNoSpace(s);
    if s != [] && NoSpace(s) {
      CollapseSpacesFixpoint(s[1..]);
      assert NoSpace(s[1..]);
      assert s == [s[0]] + s[1..];
    }
  }

  /** Collapsing a string with one more character in front. */
  lemma CollapseCons(c: char, s: string)
    ensures CollapseSpaces([c] + s) == Mark([c] + s) + CollapseSpaces(s)
  {
    assert ([c] + s)[1..] == s;
  }

  /** What a character contributes depends only on it and the character after it. */
  lemma MarkFront(c: char, u: string, v: string)
    requires u != [] && v != [] && u[0] == v[0]
    ensures Mark([c] + u) == Mark([c] + v)
  {
    assert ([c] + u)[1] == u[0] && ([c] + v)[1] == v[0];
  }

  lemma ConcatAssoc(a: string, b: string, c: string)
    ensures a + (b + c) == (a + b) + c
  {
  }

  /** Putting the same character in front of two non-empty strings that start
      alike keeps a common tail of their collapsed forms. */
  lemma CollapsePrefix(c: char, u: string, v: string, t: string)
    requires u != [] && v != [] && u[0] == v[0]
    requires CollapseSpaces(v) == CollapseSpaces(u) + t
    ensures CollapseSpaces([c] + v) == CollapseSpaces([c] + u) + t
  {
    CollapseCons(c, u);
    CollapseCons(c, v);
    MarkFront(c, u, v);
    ConcatAssoc(Mark([c] + u), CollapseSpaces(u), t);
  }

  /** A non-empty run of white space between two parts that do not touch it with
      white space of their own is replaced by exactly one `_`, and each part is
      collapsed on its own. */
  lemma {:induction false} CollapseRun(a: string, w: string, b: string)
    requires a == [] || !IsSpace(a[|a| - 1])
    requires |w| > 0 && AllSpace(w)
    requires b == [] || !IsSpace(b[0])
    ensures CollapseSpaces(a + w + b) == CollapseSpaces(a) + "_" + CollapseSpaces(b)
  {
    if |a| == 0 {
      assert a + w + b == w + b;
      CollapseRunAlone(w, b);
    } else if |a| == 1 {
      assert a + w + b == [a[0]] + (w + b);
      CollapseRunAfter(a[0], w, b);
    } else {
      CollapseRun(a[1..], w, b);
      CollapseStep(a, w, b);
    }
  }

  /** The inductive step of `CollapseRun`: what holds for `a` without its first
      character holds for `a`. */
  lemma CollapseStep(a: string, w: string, b: string)
    requires |a| > 1
    requires CollapseSpaces(a[1..] + w + b) == CollapseSpaces(a[1..]) + "_" + CollapseSpaces(b)
    ensures CollapseSpaces(a + w + b) == CollapseSpaces(a) + "_" + CollapseSpaces(b)
  {
    var a', x, t := a[1..], a[1..] + w + b, "_" + CollapseSpaces(b);
    assert CollapseSpaces(x) == CollapseSpaces(a') + t;
    assert a + w + b == [a[0]] + x;
    assert a == [a[0]] + a';
    CollapsePrefix(a[0], a', x, t);
  }

  /** A run of white space right after a character that is not white space. */
  lemma CollapseRunAfter(c: char, w: string, b: string)
    requires !IsSpace(c)
    requires |w| > 0 && AllSpace(w)
    requires b == [] || !IsSpace(b[0])
    ensures CollapseSpaces([c] + (w + b)) == CollapseSpaces([c]) + "_" + CollapseSpaces(b)
  {
    CollapseRunAlone(w, b);
    CollapseCons(c, w + b);
    CollapseCons(c, []);
    assert [c] + [] == [c];
    ConcatAssoc([c], "_", CollapseSpaces(b));
  }

  /** A leading run of white space becomes a single `_`. */
  lemma {:induction false} CollapseRunAlone(w: string, b: string)
    requires |w| > 0 && AllSpace(w)
    requires b == [] || !IsSpace(b[0])
    ensures CollapseSpaces(w + b) == "_" + CollapseSpaces(b)
  {
    CollapseCons(w[0], w[1..] + b);
    assert w + b == [w[0]] + (w[1..] + b);
    if |w| == 1 {
      assert w[1..] + b == b;
    } else {
      assert (w[1..] + b)[0] == w[1];
      CollapseRunAlone(w[1..], b);
    }
  }
}
