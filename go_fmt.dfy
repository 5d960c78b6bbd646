/**
 * The part of Go's `fmt` package that `GetGravatarUrl` relies on: the `%x`
 * verb applied to a byte slice, and `fmt.Sprintf` over formats whose only
 * directives are `%x`, `%%` and a lone trailing `%`.
 */
module GoFmt {
  import opened GoStrings

  const Percent: byte := 37  // '%'
  const VerbHex: byte := 120  // 'x'

  /** What `Sprintf` writes for a `%x` that has no operand left: "%!x(MISSING)". */
  const MissingHex: GoString := [37, 33, 120, 40, 77, 73, 83, 83, 73, 78, 71, 41]

  /** What `Sprintf` writes for a `%` at the very end of the format: "%!(NOVERB)". */
  const NoVerb: GoString := [37, 33, 40, 78, 79, 86, 69, 82, 66, 41]

  // ---------------------------------------------------------------------------
  // %x on a byte slice
  // ---------------------------------------------------------------------------

  /** `0`..`9` or `a`..`f`: the digits `%x` writes. */
  predicate IsLowerHexDigit(c: byte)
  {
    48 <= c <= 57 || 97 <= c <= 102
  }

  /** A string made only of lower-case hexadecimal digits. */
  predicate IsLowerHex(s: GoString)
  {
    forall k :: 0 <= k < |s| ==> IsLowerHexDigit(s[k])
  }

  /** The value of a lower-case hexadecimal digit. */
  function HexValue(c: byte): (n: int)
    requires IsLowerHexDigit(c)
    ensures 0 <= n < 16
  {
    if c <= 57 then c as int - 48 else c as int - 87
  }

  /** The lower-case hexadecimal digit for a nibble; `HexValue` reads it back. */
  function HexDigit(n: int): (c: byte)
    requires 0 <= n < 16
    ensures IsLowerHexDigit(c) && HexValue(c) == n
  {
    if n < 10 then (48 + n) as byte else (87 + n) as byte
  }

  /** `%x` applied to a byte slice: two lower-case digits per byte, high nibble first. */
  function EncodeHex(bs: seq<byte>): (r: GoString)
    ensures |r| == 2 * |bs|
    ensures IsLowerHex(r)
  {
    if bs == [] then []
    else [HexDigit(bs[0] as int / 16), HexDigit(bs[0] as int % 16)] + EncodeHex(bs[1..])
  }

  /** Reads a `%x` rendering back into bytes, two digits at a time. */
  function DecodeHex(s: GoString): (bs: seq<byte>)
    requires |s| % 2 == 0 && IsLowerHex(s)
    ensures |bs| == |s| / 2
  {
    if s == [] then []
    else [(HexValue(s[0]) * 16 + HexValue(s[1])) as byte] + DecodeHex(s[2..])
  }

  /** Byte `k` of the input is rendered at positions `2k` (high nibble) and `2k + 1` (low nibble). */
  lemma {:induction false} EncodeHexAt(bs: seq<byte>, k: int)
    requires 0 <= k < |bs|
    ensures EncodeHex(bs)[2 * k] == HexDigit(bs[k] as int / 16)
    ensures EncodeHex(bs)[2 * k + 1] == HexDigit(bs[k] as int % 16)
  {
    if k > 0 {
      EncodeHexAt(bs[1..], k - 1);
    }
  }

  /** Decoding undoes `%x`. */
  lemma {:induction false} DecodeEncodeHex(bs: seq<byte>)
    ensures DecodeHex(EncodeHex(bs)) == bs
  {
    if bs != [] {
      var r := EncodeHex(bs);
      assert r[2..] == EncodeHex(bs[1..]);
      DecodeEncodeHex(bs[1..]);
    }
  }

  /** `%x` is injective: different byte slices never render to the same text. */
  lemma EncodeHexInjective(a: seq<byte>, b: seq<byte>)
    ensures EncodeHex(a) == EncodeHex(b) <==> a == b
  {
    DecodeEncodeHex(a);
    DecodeEncodeHex(b);
  }

  // ---------------------------------------------------------------------------
  // fmt.Sprintf(format, arg) with one []byte operand
  // ---------------------------------------------------------------------------

  /**
   * The formats this model of `Sprintf` covers: every `%` opens `%%` or
   * `%x`, or is the last byte. Flags, widths, precisions and other verbs are
   * outside it.
   */
  predicate InModelledFormat(f: GoString)
  {
    if f == [] then true
    else if f[0] != Percent then InModelledFormat(f[1..])
    else if |f| == 1 then true
    else (f[1] == Percent || f[1] == VerbHex) && InModelledFormat(f[2..])
  }

  /** Scanning `f` from the left meets a `%x` directive. */
  predicate HasHexVerb(f: GoString)
  {
    if f == [] then false
    else if f[0] != Percent then HasHexVerb(f[1..])
    else if |f| == 1 then false
    else f[1] == VerbHex || HasHexVerb(f[2..])
  }

  /**
   * `fmt.Sprintf(format, arg)` for one `[]byte` operand, `consumed` telling
   * whether an earlier `%x` already used it. The operand is always used by
   * some `%x` (the second requires), so the "%!(EXTRA ...)" suffix Go adds
   * for an unused operand never arises.
   */
  function SprintfHex(format: GoString, arg: seq<byte>, consumed: bool): GoString
    requires InModelledFormat(format)
    requires consumed || HasHexVerb(format)
  {
    if format == [] then []
    else if format[0] != Percent then [format[0]] + SprintfHex(format[1..], arg, consumed)
    else if |format| == 1 then NoVerb
    else if format[1] == Percent then [Percent] + SprintfHex(format[2..], arg, consumed)
    else if consumed then MissingHex + SprintfHex(format[2..], arg, true)
    else EncodeHex(arg) + SprintfHex(format[2..], arg, true)
  }

  /** Text without a `%` is copied to the output verbatim, ahead of whatever the rest of the format yields. */
  lemma {:induction false} SprintfVerbatimPrefix(a: GoString, rest: GoString, arg: seq<byte>, consumed: bool)
    requires Percent !in a
    requires InModelledFormat(rest) && (consumed || HasHexVerb(rest))
    ensures InModelledFormat(a + rest) && (consumed || HasHexVerb(a + rest))
    ensures SprintfHex(a + rest, arg, consumed) == a + SprintfHex(rest, arg, consumed)
  {
    if a == [] {
      assert a + rest == rest;
    } else {
      assert a[0] != Percent && (a + rest)[0] == a[0];
      assert (a + rest)[1..] == a[1..] + rest;
      SprintfVerbatimPrefix(a[1..], rest, arg, consumed);
      assert a == [a[0]] + a[1..];
    }
  }

  /** A format that is exactly `%x` renders its operand with `%x`. */
  lemma SprintfHexVerb(arg: seq<byte>)
    ensures InModelledFormat([Percent, VerbHex]) && HasHexVerb([Percent, VerbHex])
    ensures SprintfHex([Percent, VerbHex], arg, false) == EncodeHex(arg)
  {
    assert [Percent, VerbHex][2..] == [];
  }
}
