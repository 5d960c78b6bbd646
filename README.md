# Grafana API DTOs: data-source ordering and avatar URLs

This project models the behaviour in Grafana's API data-transfer objects
(`pkg/api/dtos/models.go`) and proves properties about it. The file is mostly passive records. Two pieces
of it carry logic:

- **`DataSourceList`** is a slice of `DataSource` view records. It implements Go's
  `sort.Interface`, so that lists of configured data sources can be ordered by name:
  - `Len` gives the number of records.
  - `Less(i, j)` compares the two names with Go's string `<`.
  - `Swap(i, j)` exchanges two slots of the slice in place.
- **`GetGravatarUrl`** builds a user's avatar URL from an e-mail address. The empty
  address gives the empty string. Any other address is lower-cased and hashed with MD5.
  The 16-byte digest is rendered with `%x`, and the result is
  `AppSubUrl + "/avatar/" + <32 hex digits>`.

Layout:

- `go_strings.dfy` (module `GoStrings`) models Go strings as byte sequences. It holds
  the built-in `<` on strings, proved to be a strict total order and equal to a
  reference lexicographic definition. It also holds an ASCII model of `strings.ToLower`.
- `go_fmt.dfy` (module `GoFmt`) models the `%x` rendering of a byte slice. A decoder is
  proved to invert it. The module also holds a model of `fmt.Sprintf` for formats made of
  `%x`, `%%` and a trailing `%`.
- `gravatar.dfy` (module `Gravatar`) holds `GetGravatarUrl`. MD5 and `AppSubUrl` are
  explicit parameters there. The module also models the code exactly as written, which
  passes `AppSubUrl` through the `Sprintf` format (see Findings).
- `data_sources.dfy` (module `DataSources`) holds the `DataSource` and `TLSAuth` records.
  It also holds the class `DataSourceList`, which wraps the slice's backing
  `array<DataSource>` and provides `Len`, `Less` and `Swap`.

MD5 is the parameter `md5: GoString -> Digest`, where `Digest` is a 16-byte sequence.
The process-wide `setting.AppSubUrl` is the parameter `appSubUrl`.

The file has no conversion that redacts secrets from a stored record into a view, and it
does not sort anything itself. It supplies `Len`/`Less`/`Swap` to whatever sort its
callers run. The model therefore asserts neither stability nor a sorted result.

## Model

| member | source | states |
|---|---|---|
| `GoStrings.BelowIsLexBefore` | pkg/api/dtos/models.go:102 | Go's string `<` holds exactly when the two strings first differ at some index in the first one's favour, or the first is a proper prefix of the second (both directions) |
| `GoStrings.BelowIrreflexive` | pkg/api/dtos/models.go:102 | no name is `<` itself |
| `GoStrings.BelowTransitive` | pkg/api/dtos/models.go:102 | `a < b` and `b < c` give `a < c` |
| `GoStrings.BelowTotal` | pkg/api/dtos/models.go:102 | two different names are ordered one way or the other |
| `GoStrings.BelowAsymmetric` | pkg/api/dtos/models.go:102 | `a < b` excludes `b < a` |
| `GoStrings.ToLower` | pkg/api/dtos/models.go:125 | lower-casing keeps the length and maps each byte through the ASCII `A`–`Z` to `a`–`z` mapping |
| `GoStrings.ToLowerHasNoUpper` | pkg/api/dtos/models.go:125 | the lower-cased text holds no ASCII capital |
| `GoStrings.ToLowerIdempotent` | pkg/api/dtos/models.go:125 | lower-casing twice equals lower-casing once |
| `GoStrings.ToLowerEmpty` | pkg/api/dtos/models.go:120-125 | only the empty text lower-cases to the empty text |
| `GoFmt.HexDigit` | pkg/api/dtos/models.go:126 | each nibble becomes one lower-case hex digit whose value is that nibble |
| `GoFmt.EncodeHex` | pkg/api/dtos/models.go:126 | `%x` on a byte slice writes exactly two lower-case hex digits per byte |
| `GoFmt.DecodeHex` | pkg/api/dtos/models.go:126 | the reader of a `%x` rendering yields one byte per two digits |
| `GoFmt.EncodeHexAt` | pkg/api/dtos/models.go:126 | byte `k` is rendered at positions `2k` (high nibble, `b / 16`) and `2k + 1` (low nibble, `b % 16`), in input order |
| `GoFmt.DecodeEncodeHex` | pkg/api/dtos/models.go:126 | decoding a `%x` rendering gives back the bytes |
| `GoFmt.EncodeHexInjective` | pkg/api/dtos/models.go:126 | two byte slices render alike exactly when they are equal |
| `GoFmt.SprintfVerbatimPrefix` | pkg/api/dtos/models.go:126 | format text without `%` is copied to the `Sprintf` output unchanged, ahead of the rest |
| `GoFmt.SprintfHexVerb` | pkg/api/dtos/models.go:126 | the directive `%x` with a byte-slice operand writes the operand's hex rendering |
| `Gravatar.GetGravatarUrl` | pkg/api/dtos/models.go:119-127 | the URL is empty exactly when the text is; otherwise it is `appSubUrl + "/avatar/"` followed by exactly 32 lower-case hex digits that decode to the MD5 digest of the lower-cased text |
| `Gravatar.GravatarEmptyIgnoresHasher` | pkg/api/dtos/models.go:120-122 | the empty text gives the empty URL whatever the hasher, so no digest is used |
| `Gravatar.GravatarCaseInsensitive` | pkg/api/dtos/models.go:125 | texts with the same lower-cased form get the same URL |
| `Gravatar.GravatarSameUrlIffSameDigest` | pkg/api/dtos/models.go:124-126 | two non-empty texts get the same URL exactly when their lower-cased forms have the same digest |
| `Gravatar.GravatarExample` | pkg/api/dtos/models.go:125 | "A@B.com" and "a@b.com" get the same URL |
| `Gravatar.AvatarFormatHasVerb` | pkg/api/dtos/models.go:126 | whenever `AppSubUrl + "/avatar/%x"` stays within the modelled directives, a `%x` consumes the digest |
| `Gravatar.AvatarFormatRenders` | pkg/api/dtos/models.go:126 | the format `"/avatar/%x"` renders as `"/avatar/"` followed by the digest's hex digits |
| `Gravatar.AsWrittenAgreesWithoutPercent` | pkg/api/dtos/models.go:126 | when `AppSubUrl` has no `%`, the URL as the code builds it equals `GetGravatarUrl` |
| `Gravatar.AsWrittenMangledPercent` | pkg/api/dtos/models.go:126 | with `AppSubUrl` = "%%", the code as written yields "%/avatar/<hex>", which differs from the intended URL |
| `DataSources.Swapped` | pkg/api/dtos/models.go:106 | exchanging positions `i` and `j` keeps the length, puts the old `s[j]` at `i` and the old `s[i]` at `j`, and keeps every other position |
| `DataSources.SwappedPermutes` | pkg/api/dtos/models.go:105-107 | an exchange keeps the multiset of elements |
| `DataSources.SwappedSameIndex` | pkg/api/dtos/models.go:105-107 | `Swap(i, i)` changes nothing |
| `DataSources.SwappedTwice` | pkg/api/dtos/models.go:105-107 | exchanging the same two positions twice restores the list |
| `DataSources.DataSourceList.constructor` | pkg/api/dtos/models.go:95 | a list is a view of an existing backing array |
| `DataSources.DataSourceList.Len` | pkg/api/dtos/models.go:97-99 | `Len` is the number of data sources in the list |
| `DataSources.DataSourceList.Less` | pkg/api/dtos/models.go:101-103 | `Less(i, j)` holds exactly when name `i` is lexicographically before name `j` (reference definition) |
| `DataSources.DataSourceList.LessIrreflexive` | pkg/api/dtos/models.go:101-103 | `Less(i, i)` is false |
| `DataSources.DataSourceList.LessTransitive` | pkg/api/dtos/models.go:101-103 | `Less(i, j)` and `Less(j, k)` give `Less(i, k)` |
| `DataSources.DataSourceList.LessAsymmetric` | pkg/api/dtos/models.go:101-103 | `Less(i, j)` excludes `Less(j, i)` |
| `DataSources.DataSourceList.LessIncomparableIffSameName` | pkg/api/dtos/models.go:101-103 | neither `Less(i, j)` nor `Less(j, i)` holds exactly when the two names are equal, so `Less` is a strict weak order |
| `DataSources.DataSourceList.Swap` | pkg/api/dtos/models.go:105-107 | after `Swap(i, j)` the list is the old list with `i` and `j` exchanged in place, with the same multiset of data sources |

## Left out

- The record-to-view conversion that redacts secrets does not exist in `models.go`. No
  code there fills `TLSAuth` or `EncryptedFields`. The records are modelled as plain
  datatypes, and no conversion is modelled.
- The passive records `AnyId`, `LoginCommand`, `CurrentUser`, `DashboardMeta`,
  `DashboardFullWithMeta`, `DashboardRedirect`, `MetricRequest` and `UserStars` carry no
  behaviour and are not modelled.
- JSON struct tags and `simplejson.Json` are JSON encoding concerns and are left out.
  `DataSource.jsonData` is kept as optional JSON text. `m.DsAccess` is kept as a string.
- MD5 (`crypto/md5`) is a foreign library. It is an arbitrary function from bytes to 16
  bytes, passed as a parameter.
- `setting.AppSubUrl` is process-wide configuration. It is a parameter.
- The sort algorithm that consumes `DataSourceList` (Go's `sort` package) is not part of
  this model. Nothing is claimed about stability or the final order.
- `DataSources.DataSourceList.Less`: Go panics when an index is out of range. The model
  makes in-range indices a precondition, which is what `sort.Interface` promises its
  implementations. The same holds for `DataSources.DataSourceList.Swap`.
- `DataSources.DataSourceList.constructor`: a Go slice may be a window into a larger
  backing array. The model's list always covers its whole array.
- `GoStrings.ToLower`: lower-cases only ASCII `A`–`Z`. Go's `strings.ToLower` also maps
  non-ASCII letters through Unicode case mapping, and it replaces invalid UTF-8 with
  U+FFFD. Such bytes are kept unchanged here.
- `Gravatar.GetGravatarUrlAsWritten`: its `Sprintf` model covers only the directives
  `%x`, `%%` and a trailing `%`. An `AppSubUrl` whose `%` opens any other directive is
  excluded by its precondition. That includes flags, widths such as `%20` and other
  verbs.

## Findings

| source | as written | input that shows it | evidently intended | confidence | as-written member | corrected member |
|---|---|---|---|---|---|---|
| pkg/api/dtos/models.go:126 | `AppSubUrl` is concatenated into the `fmt.Sprintf` format string, so each `%` in it is read as a directive | `AppSubUrl` = "%%" with any non-empty e-mail gives "%/avatar/<hex>" instead of "%%/avatar/<hex>" | `AppSubUrl` copied verbatim, followed by "/avatar/" and the digest | medium: it needs a sub-path that holds a literal `%`; not executed | `Gravatar.AsWrittenMangledPercent` | `Gravatar.GetGravatarUrl` |
