/**
 * `GetGravatarUrl`: the avatar URL of a user, built from the MD5 digest of
 * the lower-cased e-mail address. The MD5 hasher and the configured
 * `AppSubUrl` are parameters, so the model stays a pure function.
 */
module Gravatar {
  import opened GoStrings
  import opened GoFmt

  /** An MD5 digest: `md5.Size` is 16 bytes. */
  type Digest = d: seq<byte> | |d| == 16 witness [0, 0, 0, 0, 0, 0, 0, 0, 0, 0, 0, 0, 0, 0, 0, 0]

  /** "/avatar/" */
  const AvatarPath: GoString := [47, 97, 118, 97, 116, 97, 114, 47]

  /** "/avatar/%x": the format that follows `AppSubUrl` in the call to `Sprintf`. */
  const AvatarFormat: GoString := AvatarPath + [Percent, VerbHex]

  /** The number of hexadecimal digits `%x` writes for an MD5 digest. */
  const TokenLength: nat := 32

  /**
   * The avatar URL for `text`, with `AppSubUrl` taken literally: empty for an
   * empty `text`; otherwise `appSubUrl`, then "/avatar/", then the 32
   * lower-case hexadecimal digits of the MD5 digest of the lower-cased text.
   */
  function GetGravatarUrl(appSubUrl: GoString, md5: GoString -> Digest, text: GoString): (url: GoString)
    ensures url == [] <==> text == []
    ensures text != [] ==>
      var p := |appSubUrl| + |AvatarPath|;
      && |url| == p + TokenLength
      && url[..p] == appSubUrl + AvatarPath
      && IsLowerHex(url[p..])
      && DecodeHex(url[p..]) == md5(ToLower(text))
  {
    if text == [] then []
    else
      var digest := md5(ToLower(text));
      var url := appSubUrl + AvatarPath + EncodeHex(digest);
      assert url[|appSubUrl| + |AvatarPath|..] == EncodeHex(digest);
      DecodeEncodeHex(digest);
      url
  }

  /** The empty text yields the empty URL whatever the hasher: no digest is taken. */
  lemma GravatarEmptyIgnoresHasher(appSubUrl: GoString, md5: GoString -> Digest, other: GoString -> Digest)
    ensures GetGravatarUrl(appSubUrl, md5, []) == GetGravatarUrl(appSubUrl, other, []) == []
  {
  }

  /** Only the lower-cased text matters: texts that lower-case alike share a URL. */
  lemma GravatarCaseInsensitive(appSubUrl: GoString, md5: GoString -> Digest, a: GoString, b: GoString)
    requires ToLower(a) == ToLower(b)
    ensures GetGravatarUrl(appSubUrl, md5, a) == GetGravatarUrl(appSubUrl, md5, b)
  {
  }

  /** Two non-empty texts get the same URL exactly when their lower-cased forms have the same digest. */
  lemma GravatarSameUrlIffSameDigest(appSubUrl: GoString, md5: GoString -> Digest, a: GoString, b: GoString)
    requires a != [] && b != []
    ensures GetGravatarUrl(appSubUrl, md5, a) == GetGravatarUrl(appSubUrl, md5, b)
        <==> md5(ToLower(a)) == md5(ToLower(b))
  {
    var p := |appSubUrl| + |AvatarPath|;
    var ua, ub := GetGravatarUrl(appSubUrl, md5, a), GetGravatarUrl(appSubUrl, md5, b);
    if ua == ub {
      assert ua[p..] == ub[p..];
    }
  }

  /** "A@B.com" and "a@b.com" have the same avatar URL. */
  lemma GravatarExample(appSubUrl: GoString, md5: GoString -> Digest)
    ensures GetGravatarUrl(appSubUrl, md5, [65, 64, 66, 46, 99, 111, 109])
         == GetGravatarUrl(appSubUrl, md5, [97, 64, 98, 46, 99, 111, 109])
  {
    var upper: GoString := [65, 64, 66, 46, 99, 111, 109];
    var lower: GoString := [97, 64, 98, 46, 99, 111, 109];
    assert ToLower(upper) == lower;
    assert ToLower(lower) == lower;
    GravatarCaseInsensitive(appSubUrl, md5, upper, lower);
  }

  // ---------------------------------------------------------------------------
  // The URL as the source builds it: AppSubUrl is part of the Sprintf format
  // ---------------------------------------------------------------------------

  /** Whenever `AppSubUrl` keeps the format within the model, the final `%x` consumes the digest. */
  lemma {:induction false} AvatarFormatHasVerb(appSubUrl: GoString)
    ensures InModelledFormat(appSubUrl + AvatarFormat) ==> HasHexVerb(appSubUrl + AvatarFormat)
  {
    var f := appSubUrl + AvatarFormat;
    if appSubUrl == [] {
      assert f == AvatarPath + [Percent, VerbHex];
      SprintfHexVerb([]);
      SprintfVerbatimPrefix(AvatarPath, [Percent, VerbHex], [], false);
    } else if appSubUrl[0] != Percent {
      assert f[1..] == appSubUrl[1..] + AvatarFormat;
      AvatarFormatHasVerb(appSubUrl[1..]);
    } else if |appSubUrl| == 1 {
      assert f[1] == AvatarFormat[0] == 47;
    } else {
      assert f[2..] == appSubUrl[2..] + AvatarFormat;
      AvatarFormatHasVerb(appSubUrl[2..]);
    }
  }

  /**
   * `GetGravatarUrl` as written: `AppSubUrl + "/avatar/%x"` is the format of
   * `Sprintf`, so any `%` in `AppSubUrl` is read as a directive.
   */
  function GetGravatarUrlAsWritten(appSubUrl: GoString, md5: GoString -> Digest, text: GoString): GoString
    requires InModelledFormat(appSubUrl + AvatarFormat)
  {
    if text == [] then []
    else
      AvatarFormatHasVerb(appSubUrl);
      SprintfHex(appSubUrl + AvatarFormat, md5(ToLower(text)), false)
  }

  /** The format "/avatar/%x" renders as "/avatar/" followed by the digest's hex digits. */
  lemma AvatarFormatRenders(digest: Digest)
    ensures InModelledFormat(AvatarFormat) && HasHexVerb(AvatarFormat)
    ensures SprintfHex(AvatarFormat, digest, false) == AvatarPath + EncodeHex(digest)
  {
    SprintfHexVerb(digest);
    SprintfVerbatimPrefix(AvatarPath, [Percent, VerbHex], digest, false);
  }

  /** Without a `%` in `AppSubUrl`, the code as written builds exactly the intended URL. */
  lemma AsWrittenAgreesWithoutPercent(appSubUrl: GoString, md5: GoString -> Digest, text: GoString)
    requires Percent !in appSubUrl
    ensures InModelledFormat(appSubUrl + AvatarFormat)
    ensures GetGravatarUrlAsWritten(appSubUrl, md5, text) == GetGravatarUrl(appSubUrl, md5, text)
  {
    var digest := md5(ToLower(text));
    AvatarFormatRenders(digest);
    SprintfVerbatimPrefix(appSubUrl, AvatarFormat, digest, false);
    assert appSubUrl + (AvatarPath + EncodeHex(digest)) == appSubUrl + AvatarPath + EncodeHex(digest);
  }

  /**
   * With `AppSubUrl` = "%%" the code as written drops one `%`: it yields
   * "%/avatar/<hex>" where "%%/avatar/<hex>" is meant.
   */
  lemma AsWrittenMangledPercent(md5: GoString -> Digest, text: GoString)
    requires text != []
    ensures InModelledFormat([Percent, Percent] + AvatarFormat)
    ensures GetGravatarUrlAsWritten([Percent, Percent], md5, text)
         == [Percent] + AvatarPath + EncodeHex(md5(ToLower(text)))
    ensures GetGravatarUrlAsWritten([Percent, Percent], md5, text)
         != GetGravatarUrl([Percent, Percent], md5, text)
  {
    var digest := md5(ToLower(text));
    var f := [Percent, Percent] + AvatarFormat;
    AvatarFormatRenders(digest);
    assert f[2..] == AvatarFormat;
    AvatarFormatHasVerb([Percent, Percent]);
    assert SprintfHex(f, digest, false) == [Percent] + SprintfHex(AvatarFormat, digest, false);
  }
}
