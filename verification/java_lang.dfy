/**
 * The few pieces of the Java platform the library service leans on:
 * nullable references, the fixed-width `Long` and `Integer` boxes, and
 * `String.compareTo`.
 */
module JavaLang {

  /** A Java reference that may be null: `None` is null. */
  datatype Option<+T> = None | Some(value: T)

  /** `java.lang.Long`: a 64-bit two's-complement integer. */
  newtype int64 = x: int | -0x8000_0000_0000_0000 <= x < 0x8000_0000_0000_0000

  /** `java.lang.Integer`: a 32-bit two's-complement integer. */
  newtype int32 = x: int | -0x8000_0000 <= x < 0x8000_0000

  /**
   * Lexicographic order on strings, defined independently of `CompareStrings`:
   * after a common prefix of length k, either s ends there and t goes on,
   * or both go on and s has the smaller character at position k.
   */
  ghost predicate LexLess(s: string, t: string) {
    exists k :: 0 <= k <= |s| && k <= |t| && s[..k] == t[..k] &&
      (k == |s| ==> k < |t|) &&
      (k < |s| ==> k < |t| && s[k] < t[k])
  }

  /**
   * `String.compareTo`: the difference of the first differing characters,
   * or else the difference of the lengths.
   */
  function CompareStrings(s: string, t: string): (c: int)
    ensures c == 0 <==> s == t
    decreases |s|
  {
    if |s| == 0 || |t| == 0 then |s| - |t|
    else if s[0] != t[0] then s[0] as int - t[0] as int
    else
      var c := CompareStrings(s[1..], t[1..]);
      assert s == [s[0]] + s[1..] && t == [t[0]] + t[1..];
      c
  }

  /** Swapping the arguments of `compareTo` negates the result. */
  lemma {:induction false} CompareStringsAntisymmetric(s: string, t: string)
    ensures CompareStrings(s, t) == -CompareStrings(t, s)
    decreases |s|
  {
    if |s| > 0 && |t| > 0 && s[0] == t[0] {
      CompareStringsAntisymmetric(s[1..], t[1..]);
    }
  }

  /** Dropping an equal first character keeps `LexLess` in both directions. */
  lemma LexLessTail(s: string, t: string)
    requires |s| > 0 && |t| > 0 && s[0] == t[0]
    ensures LexLess(s, t) <==> LexLess(s[1..], t[1..])
  {
    if LexLess(s, t) {
      var k :| 0 <= k <= |s| && k <= |t| && s[..k] == t[..k] &&
        (k == |s| ==> k < |t|) && (k < |s| ==> k < |t| && s[k] < t[k]);
      assert s[1..][..k - 1] == s[..k][1..];
      assert t[1..][..k - 1] == t[..k][1..];
    }
    if LexLess(s[1..], t[1..]) {
      var k :| 0 <= k <= |s[1..]| && k <= |t[1..]| && s[1..][..k] == t[1..][..k] &&
        (k == |s[1..]| ==> k < |t[1..]|) && (k < |s[1..]| ==> k < |t[1..]| && s[1..][k] < t[1..][k]);
      assert s[..k + 1] == [s[0]] + s[1..][..k];
      assert t[..k + 1] == [t[0]] + t[1..][..k];
    }
  }

  /** A negative `compareTo` is exactly the lexicographic order. */
  lemma {:induction false} CompareStringsIsLexicographic(s: string, t: string)
    ensures CompareStrings(s, t) < 0 <==> LexLess(s, t)
    decreases |s|
  {
    if |s| == 0 || |t| == 0 {
      if |t| > 0 {
        assert s[..0] == t[..0];
      }
    } else if s[0] != t[0] {
      if s[0] < t[0] {
        assert s[..0] == t[..0];
      }
      if LexLess(s, t) {
        var k :| 0 <= k <= |s| && k <= |t| && s[..k] == t[..k] &&
          (k == |s| ==> k < |t|) && (k < |s| ==> k < |t| && s[k] < t[k]);
        if k > 0 {
          assert s[..k][0] == t[..k][0];
        }
      }
    } else {
      CompareStringsIsLexicographic(s[1..], t[1..]);
      LexLessTail(s, t);
    }
  }

  /** The order `compareTo` induces on strings is transitive. */
  lemma {:induction false} CompareStringsTransitive(s: string, t: string, u: string)
    requires CompareStrings(s, t) < 0 && CompareStrings(t, u) < 0
    ensures CompareStrings(s, u) < 0
    decreases |s|
  {
    if |s| > 0 && |t| > 0 && |u| > 0 && s[0] == t[0] && t[0] == u[0] {
      CompareStringsTransitive(s[1..], t[1..], u[1..]);
    }
  }
}
