/**
 * The string order that onegin's sorts rely on: C's `strcmp`
 * (section 7.24.4.2 of ISO C11). Bytes are compared as `unsigned char`
 * (section 7.24.4, paragraph 1), the scan stops at the first NUL, and only
 * the sign of the result carries meaning.
 */
module StrOrder {

  /** One `unsigned char`. */
  type Byte = b: int | 0 <= b < 256

  /** The bytes a `char *` points at; a C string reads up to its first NUL. */
  type Line = seq<Byte>

  const NUL: Byte := 0
  const NL: Byte := 10

  /** The byte a C string scan sees at index `i`: past the end it sees the terminator. */
  function At(s: Line, i: nat): Byte
  {
    if i < |s| then s[i] else NUL
  }

  /**
   * `strcmp(a, b)`: advance while the current bytes are equal and not NUL,
   * then answer the difference of the two current bytes. C11 fixes only the
   * sign of the answer; the difference is the usual choice and has the sign
   * C11 asks for.
   */
  function StrCmp(a: Line, b: Line): (r: int)
    ensures -255 <= r <= 255
    decreases |a|
  {
    var c := At(a, 0);
    if c != NUL && c == At(b, 0) then StrCmp(a[1..], b[1..]) else c - At(b, 0)
  }

  /** The contents of a C string hold no NUL byte. */
  predicate NoNul(s: Line)
  {
    forall i :: 0 <= i < |s| ==> s[i] != NUL
  }

  /**
   * Lexicographic order, the reference meaning of `strcmp(a, b) < 0`:
   * the first differing byte decides, and a proper prefix sorts first.
   */
  ghost predicate LexLess(a: Line, b: Line)
  {
    exists k :: 0 <= k <= |a| && k <= |b| && a[..k] == b[..k] &&
      ((k == |a| && k < |b|) || (k < |a| && k < |b| && a[k] < b[k]))
  }

  lemma {:induction false} StrCmpReflexive(a: Line)
    ensures StrCmp(a, a) == 0
    decreases |a|
  {
    if At(a, 0) != NUL {
      StrCmpReflexive(a[1..]);
    }
  }

  /**
   * Swapping the operands flips the sign of the answer, the only part of it
   * ISO C11 fixes: `a` sorts after `b` exactly when `b` sorts before `a`.
   */
  lemma {:induction false} StrCmpAntisymmetric(a: Line, b: Line)
    ensures StrCmp(b, a) < 0 <==> StrCmp(a, b) > 0
    ensures StrCmp(b, a) == 0 <==> StrCmp(a, b) == 0
    decreases |a|
  {
    if At(a, 0) != NUL && At(a, 0) == At(b, 0) {
      StrCmpAntisymmetric(a[1..], b[1..]);
    }
  }

  /** "Not greater" is transitive, so it is a total preorder on all byte strings. */
  lemma {:induction false} StrCmpTransitive(a: Line, b: Line, c: Line)
    requires StrCmp(a, b) <= 0 && StrCmp(b, c) <= 0
    ensures StrCmp(a, c) <= 0
    decreases |a|
  {
    var x, y, z := At(a, 0), At(b, 0), At(c, 0);
    if x != NUL && x == y && y == z {
      StrCmpTransitive(a[1..], b[1..], c[1..]);
    }
  }

  /** A shared first byte leaves lexicographic order to the rest of the two lines. */
  lemma LexLessTail(a: Line, b: Line)
    requires |a| > 0 && |b| > 0 && a[0] == b[0]
    ensures LexLess(a, b) <==> LexLess(a[1..], b[1..])
  {
    if LexLess(a, b) {
      var k :| 0 <= k <= |a| && k <= |b| && a[..k] == b[..k] &&
        ((k == |a| && k < |b|) || (k < |a| && k < |b| && a[k] < b[k]));
      assert k > 0;
      assert a[1..][..k - 1] == a[..k][1..];
      assert b[1..][..k - 1] == b[..k][1..];
    }
    if LexLess(a[1..], b[1..]) {
      var k :| 0 <= k <= |a[1..]| && k <= |b[1..]| && a[1..][..k] == b[1..][..k] &&
        ((k == |a[1..]| && k < |b[1..]|) || (k < |a[1..]| && k < |b[1..]| && a[1..][k] < b[1..][k]));
      assert a[..k + 1] == [a[0]] + a[1..][..k];
      assert b[..k + 1] == [b[0]] + b[1..][..k];
    }
  }

  /**
   * On NUL-free lines `strcmp` is exactly lexicographic order: negative
   * iff `a` sorts before `b`, zero iff the lines are equal, positive iff
   * `b` sorts before `a`.
   */
  lemma {:induction false} StrCmpIsLexicographic(a: Line, b: Line)
    requires NoNul(a) && NoNul(b)
    ensures StrCmp(a, b) < 0 <==> LexLess(a, b)
    ensures StrCmp(a, b) == 0 <==> a == b
    ensures StrCmp(a, b) > 0 <==> LexLess(b, a)
    decreases |a|
  {
    StrCmpAntisymmetric(a, b);
    if |a| == 0 || |b| == 0 {
      if |a| > 0 {
        assert !LexLess(a, b);
        assert a[..0] == b[..0];
      } else if |b| > 0 {
        assert !LexLess(b, a);
        assert a[..0] == b[..0];
      }
    } else if a[0] == b[0] {
      StrCmpIsLexicographic(a[1..], b[1..]);
      LexLessTail(a, b);
      LexLessTail(b, a);
      if a[1..] == b[1..] {
        assert a == [a[0]] + a[1..] && b == [b[0]] + b[1..];
      }
    } else {
      assert a[..0] == b[..0];
      forall k | 0 < k <= |a| && k <= |b|
        ensures a[..k] != b[..k]
      {
        assert a[..k][0] == a[0] && b[..k][0] == b[0];
      }
    }
  }
}
