/** C strings without their terminator, and `strcmp`. */
module CStrings {

  /** One byte of memory, read as an unsigned char. */
  type byte = b: int | 0 <= b < 256

  /** A character of a C string: any byte but the terminator. */
  type cchar = c: int | 0 < c < 256 witness 1

  /** A C string; the terminating NUL is not part of the value. */
  type CStr = seq<cchar>

  /** `strcmp`: the difference of the first two characters that differ, where the
      terminator counts as 0. */
  function StrCmp(a: CStr, b: CStr): int {
    if a == [] && b == [] then 0
    else if a == [] then 0 - b[0]
    else if b == [] then a[0]
    else if a[0] != b[0] then a[0] - b[0]
    else StrCmp(a[1..], b[1..])
  }

  lemma {:induction false} StrCmpZeroIffEqual(a: CStr, b: CStr)
    ensures StrCmp(a, b) == 0 <==> a == b
  {
    if a == [] || b == [] || a[0] != b[0] {
    } else {
      StrCmpZeroIffEqual(a[1..], b[1..]);
      assert a == [a[0]] + a[1..];
      assert b == [b[0]] + b[1..];
    }
  }

  /** What the order is: a string comes before those that go on after it, and else the first character in which two
      strings differ decides. */
  lemma {:induction false} StrCmpDecides(a: CStr, b: CStr, i: nat)
    requires i <= |a| && i <= |b| && a[..i] == b[..i] && (if i < |a| && i < |b| then a[i] != b[i] else i < |a| || i < |b|)
    ensures StrCmp(a, b) < 0 <==> i == |a| || (i < |b| && a[i] < b[i])
    ensures StrCmp(a, b) > 0 <==> i == |b| || (i < |a| && a[i] > b[i])
    decreases i
  {
    if i > 0 {
      assert a[0] == a[..i][0] == b[..i][0] == b[0];
      assert a[1..][..i - 1] == a[..i][1..] == b[..i][1..] == b[1..][..i - 1];
      StrCmpDecides(a[1..], b[1..], i - 1);
    }
  }

  lemma {:induction false} StrCmpAntisymmetric(a: CStr, b: CStr)
    ensures StrCmp(a, b) == 0 - StrCmp(b, a)
  {
    if a == [] || b == [] || a[0] != b[0] {
    } else {
      StrCmpAntisymmetric(a[1..], b[1..]);
    }
  }

  lemma {:induction false} StrCmpTransitive(a: CStr, b: CStr, c: CStr)
    requires StrCmp(a, b) < 0 && StrCmp(b, c) < 0
    ensures StrCmp(a, c) < 0
  {
    if a == [] || b == [] || c == [] || a[0] != b[0] || b[0] != c[0] {
    } else {
      StrCmpTransitive(a[1..], b[1..], c[1..]);
    }
  }
}
