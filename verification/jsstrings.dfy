/** The two string primitives of JavaScript that the admin dashboard relies on:
    the relational `<` on strings (which `Array.prototype.sort` uses when no
    comparator is given) and `String.prototype.trim`. */
module JsStrings {

  /** `a < b` on JavaScript strings: the first differing position decides,
      and a proper prefix sorts before the longer string. */
  predicate Less(a: string, b: string)
  {
    if |a| == 0 then |b| > 0
    else if |b| == 0 then false
    else if a[0] != b[0] then a[0] < b[0]
    else Less(a[1..], b[1..])
  }

  predicate LessEq(a: string, b: string)
  {
    a == b || Less(a, b)
  }

  lemma {:induction false} LessIrreflexive(a: string)
    ensures !Less(a, a)
  {
    if |a| > 0 {
      LessIrreflexive(a[1..]);
    }
  }

  lemma {:induction false} LessAsymmetric(a: string, b: string)
    ensures Less(a, b) ==> !Less(b, a)
  {
    if |a| > 0 && |b| > 0 && a[0] == b[0] {
      LessAsymmetric(a[1..], b[1..]);
    }
  }

  lemma {:induction false} LessTransitive(a: string, b: string, c: string)
    requires Less(a, b) && Less(b, c)
    ensures Less(a, c)
  {
    if |a| > 0 && a[0] == b[0] && b[0] == c[0] {
      LessTransitive(a[1..], b[1..], c[1..]);
    }
  }

  /** Any two strings are comparable: the order is total. */
  lemma {:induction false} LessTotal(a: string, b: string)
    ensures Less(a, b) || a == b || Less(b, a)
  {
    if |a| > 0 && |b| > 0 && a[0] == b[0] {
      LessTotal(a[1..], b[1..]);
      assert a == [a[0]] + a[1..];
      assert b == [b[0]] + b[1..];
    }
  }

  lemma LessEqTransitive(a: string, b: string, c: string)
    requires LessEq(a, b) && LessEq(b, c)
    ensures LessEq(a, c)
  {
    if a != b && b != c {
      LessTransitive(a, b, c);
    }
  }

  lemma LessEqAntisymmetric(a: string, b: string)
    requires LessEq(a, b) && LessEq(b, a)
    ensures a == b
  {
    LessAsymmetric(a, b);
  }

  /** Length of the longest common prefix of `a` and `b`. */
  function CommonPrefixLength(a: string, b: string): (k: nat)
    ensures k <= |a| && k <= |b|
    ensures a[..k] == b[..k]
    ensures k < |a| && k < |b| ==> a[k] != b[k]
  {
    if |a| == 0 || |b| == 0 || a[0] != b[0] then 0
    else
      var k' := CommonPrefixLength(a[1..], b[1..]);
      assert a[..k' + 1] == [a[0]] + a[1..][..k'];
      assert b[..k' + 1] == [b[0]] + b[1..][..k'];
      k' + 1
  }

  /** The recursive comparison agrees with the textbook definition of
      lexicographic order: past the common prefix, either `a` has ended while
      `b` has not, or `a` has the smaller element at the first difference. */
  lemma {:induction false} LessIsLexicographic(a: string, b: string)
    ensures Less(a, b) <==>
      var k := CommonPrefixLength(a, b);
      (k == |a| && k < |b|) || (k < |a| && k < |b| && a[k] < b[k])
  {
    if |a| > 0 && |b| > 0 && a[0] == b[0] {
      LessIsLexicographic(a[1..], b[1..]);
    }
  }

  /** The code points `String.prototype.trim` strips: ECMAScript's WhiteSpace
      (tab, vertical tab, form feed, the byte order mark and every Unicode
      space separator) and LineTerminator (line feed, carriage return, line
      and paragraph separator). */
  predicate IsJsWhiteSpace(c: char)
  {
    || c == '\U{9}' || c == '\U{B}' || c == '\U{C}' || c == '\U{FEFF}'
    || c == ' ' || c == '\U{A0}' || c == '\U{1680}'
    || ('\U{2000}' <= c <= '\U{200A}')
    || c == '\U{202F}' || c == '\U{205F}' || c == '\U{3000}'
    || c == '\n' || c == '\r' || c == '\U{2028}' || c == '\U{2029}'
  }

  /** Every character of `s` is white space (vacuously so for ""). */
  predicate Blank(s: string)
  {
    forall i | 0 <= i < |s| :: IsJsWhiteSpace(s[i])
  }

  /** Number of white-space characters at the start of `s`. */
  function LeadingSpace(s: string): (n: nat)
    ensures n <= |s|
    ensures Blank(s[..n])
    ensures n < |s| ==> !IsJsWhiteSpace(s[n])
  {
    if |s| > 0 && IsJsWhiteSpace(s[0]) then
      var n' := LeadingSpace(s[1..]);
      assert s[..n' + 1] == [s[0]] + s[1..][..n'];
      n' + 1
    else 0
  }

  /** Number of white-space characters at the end of `s`. */
  function TrailingSpace(s: string): (n: nat)
    ensures n <= |s|
    ensures Blank(s[|s| - n..])
    ensures n < |s| ==> !IsJsWhiteSpace(s[|s| - n - 1])
  {
    if |s| > 0 && IsJsWhiteSpace(s[|s| - 1]) then
      var n' := TrailingSpace(s[..|s| - 1]);
      var init := s[..|s| - 1];
      forall i | |s| - (n' + 1) <= i < |s| ensures IsJsWhiteSpace(s[i]) {
        if i < |s| - 1 {
          assert s[i] == init[|init| - n'..][i - (|init| - n')];
        }
      }
      n' + 1
    else 0
  }

  lemma BlankAppend(a: string, b: string)
    requires Blank(a) && Blank(b)
    ensures Blank(a + b)
  {
    forall i | 0 <= i < |a + b| ensures IsJsWhiteSpace((a + b)[i]) {
      if i >= |a| {
        assert (a + b)[i] == b[i - |a|];
      }
    }
  }

  /** Cutting from `s` a blank prefix of length `n` and a blank suffix of
      length `m`, each as long as it can be, leaves a string that is empty
      exactly when `s` is blank and otherwise has no white space at either
      end. */
  lemma TrimCut(s: string, n: nat, m: nat)
    requires n + m <= |s|
    requires Blank(s[..n]) && Blank(s[|s| - m..])
    requires n < |s| ==> !IsJsWhiteSpace(s[n])
    requires n + m < |s| ==> !IsJsWhiteSpace(s[|s| - m - 1])
    ensures s[n..|s| - m] == "" <==> Blank(s)
    ensures n + m < |s| ==>
      !IsJsWhiteSpace(s[n..|s| - m][0]) && !IsJsWhiteSpace(s[n..|s| - m][|s| - m - n - 1])
    ensures s == s[..n] + s[n..|s| - m] + s[|s| - m..]
  {
    assert s == s[..n] + s[n..|s| - m] + s[|s| - m..];
    if n + m == |s| {
      BlankAppend(s[..n], s[|s| - m..]);
    }
  }

  /** `s.trim()`: `s` without its leading and trailing white space. The
      result follows the blank prefix of `s`, is followed only by white
      space, and neither starts nor ends with white space. */
  function Trim(s: string): (r: string)
    ensures r == "" <==> Blank(s)
    ensures r != "" ==> !IsJsWhiteSpace(r[0]) && !IsJsWhiteSpace(r[|r| - 1])
    ensures LeadingSpace(s) + |r| <= |s|
    ensures s == s[..LeadingSpace(s)] + r + s[LeadingSpace(s) + |r|..]
    ensures Blank(s[LeadingSpace(s) + |r|..])
  {
    var n := LeadingSpace(s);
    var m := TrailingSpace(s[n..]);
    assert s[|s| - m..] == s[n..][|s| - n - m..];
    assert n + m < |s| ==> s[|s| - m - 1] == s[n..][|s| - n - m - 1];
    TrimCut(s, n, m);
    var r := s[n..|s| - m];
    assert n + |r| == |s| - m;
    r
  }

  /** Trimming twice is trimming once. */
  lemma TrimIdempotent(s: string)
    ensures Trim(Trim(s)) == Trim(s)
  {
    var r := Trim(s);
    if r != "" {
      assert LeadingSpace(r) == 0;
      assert TrailingSpace(r) == 0;
    }
  }
}
