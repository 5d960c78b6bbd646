/**
 * Go strings as the DTO layer uses them: immutable byte sequences, the
 * built-in `<` comparison on them, and `strings.ToLower` restricted to ASCII.
 */
module GoStrings {

  /** A Go `byte` (`uint8`). */
  newtype byte = x: int | 0 <= x < 256

  /** A Go `string`: a sequence of bytes, usually (not necessarily) UTF-8. */
  type GoString = seq<byte>

  // ---------------------------------------------------------------------------
  // Go's `a < b` on strings
  // ---------------------------------------------------------------------------

  /**
   * Go's built-in `a < b` on strings: byte-wise lexicographic order, in
   * which a proper prefix comes first.
   */
  predicate Below(a: GoString, b: GoString)
  {
    if a == [] then b != []
    else if b == [] then false
    else if a[0] != b[0] then a[0] < b[0]
    else Below(a[1..], b[1..])
  }

  /** `a` and `b` agree on their first `k` bytes and first differ at index `k`, in `a`'s favour. */
  ghost predicate FirstDifferenceAt(a: GoString, b: GoString, k: int)
  {
    && 0 <= k <= |a| && k <= |b|
    && a[..k] == b[..k]
    && ((k == |a| && k < |b|) || (k < |a| && k < |b| && a[k] < b[k]))
  }

  /** Reference definition of lexicographic order: there is a first difference and `a` wins it. */
  ghost predicate LexBefore(a: GoString, b: GoString)
  {
    exists k :: FirstDifferenceAt(a, b, k)
  }

  /** The recursive comparison agrees with the reference definition, in both directions. */
  lemma {:induction false} BelowIsLexBefore(a: GoString, b: GoString)
    ensures Below(a, b) <==> LexBefore(a, b)
  {
    if a == [] {
      if b != [] {
        assert FirstDifferenceAt(a, b, 0);
      }
    } else if b == [] {
    } else if a[0] != b[0] {
      if a[0] < b[0] {
        assert FirstDifferenceAt(a, b, 0);
      }
      if LexBefore(a, b) {
        var k :| FirstDifferenceAt(a, b, k);
      }
    } else {
      BelowIsLexBefore(a[1..], b[1..]);
      if Below(a, b) {
        var k :| FirstDifferenceAt(a[1..], b[1..], k);
        assert a[..k + 1] == [a[0]] + a[1..][..k];
        assert b[..k + 1] == [b[0]] + b[1..][..k];
        assert FirstDifferenceAt(a, b, k + 1);
      }
      if LexBefore(a, b) {
        var k :| FirstDifferenceAt(a, b, k);
        assert k > 0;
        assert a[1..][..k - 1] == a[..k][1..];
        assert b[1..][..k - 1] == b[..k][1..];
        assert FirstDifferenceAt(a[1..], b[1..], k - 1);
      }
    }
  }

  /** No string is below itself. */
  lemma {:induction false} BelowIrreflexive(a: GoString)
    ensures !Below(a, a)
  {
    if a != [] {
      BelowIrreflexive(a[1..]);
    }
  }

  /** `<` on strings is transitive. */
  lemma {:induction false} BelowTransitive(a: GoString, b: GoString, c: GoString)
    requires Below(a, b) && Below(b, c)
    ensures Below(a, c)
  {
    if a != [] && a[0] == b[0] && b[0] == c[0] {
      BelowTransitive(a[1..], b[1..], c[1..]);
    }
  }

  /** Any two different strings are ordered one way or the other. */
  lemma {:induction false} BelowTotal(a: GoString, b: GoString)
    ensures a == b || Below(a, b) || Below(b, a)
  {
    if a != [] && b != [] && a[0] == b[0] {
      BelowTotal(a[1..], b[1..]);
      if a[1..] == b[1..] {
        assert a == [a[0]] + a[1..] && b == [b[0]] + b[1..];
      }
    }
  }

  /** `<` on strings is asymmetric: at most one of `a < b` and `b < a` holds. */
  lemma BelowAsymmetric(a: GoString, b: GoString)
    requires Below(a, b)
    ensures !Below(b, a)
  {
    if Below(b, a) {
      BelowTransitive(a, b, a);
      BelowIrreflexive(a);
    }
  }

  // ---------------------------------------------------------------------------
  // strings.ToLower, ASCII part
  // ---------------------------------------------------------------------------

  /** An ASCII upper-case letter `A`..`Z`. */
  predicate IsAsciiUpper(c: byte)
  {
    65 <= c <= 90
  }

  /** One byte lower-cased: `A`..`Z` become `a`..`z`, every other byte is kept. */
  function LowerByte(c: byte): byte
  {
    if IsAsciiUpper(c) then c + 32 else c
  }

  /** `strings.ToLower` on the ASCII letters: lower-cases byte by byte and keeps the length. */
  function ToLower(s: GoString): (r: GoString)
    ensures |r| == |s|
    ensures forall k :: 0 <= k < |s| ==> r[k] == LowerByte(s[k])
  {
    if s == [] then [] else [LowerByte(s[0])] + ToLower(s[1..])
  }

  /** Lower-casing leaves no upper-case ASCII letter behind. */
  lemma ToLowerHasNoUpper(s: GoString)
    ensures forall k :: 0 <= k < |s| ==> !IsAsciiUpper(ToLower(s)[k])
  {
  }

  /** Lower-casing twice is lower-casing once. */
  lemma ToLowerIdempotent(s: GoString)
    ensures ToLower(ToLower(s)) == ToLower(s)
  {
  }

  /** The empty string is the only string that lower-cases to the empty string. */
  lemma ToLowerEmpty(s: GoString)
    ensures ToLower(s) == [] <==> s == []
  {
  }
}
