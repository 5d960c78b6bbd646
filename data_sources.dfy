/**
 * The data-source view records and `DataSourceList`, the `sort.Interface`
 * that orders a list of data sources by name.
 */
module DataSources {
  import opened GoStrings

  /** Go's `int64`. */
  newtype int64 = x: int | -0x8000_0000_0000_0000 <= x < 0x8000_0000_0000_0000

  datatype Option<T> = None | Some(value: T)

  /** Which TLS materials have been uploaded for a data source; the materials themselves are not carried. */
  datatype TLSAuth = TLSAuth(caCertSet: bool, clientCertSet: bool, clientKeySet: bool)

  /**
   * A data source as the API returns it. `jsonData` is the JSON document
   * as text (absent when the pointer is nil); `access` is the access mode.
   */
  datatype DataSource = DataSource(
    id: int64,
    orgId: int64,
    name: GoString,
    kind: GoString,
    typeLogoUrl: GoString,
    access: GoString,
    url: GoString,
    password: GoString,
    user: GoString,
    database: GoString,
    basicAuth: bool,
    basicAuthUser: GoString,
    basicAuthPassword: GoString,
    withCredentials: bool,
    isDefault: bool,
    jsonData: Option<GoString>,
    tlsAuth: TLSAuth,
    encryptedFields: seq<GoString>)

  /** `s` with the elements at `i` and `j` exchanged. */
  function Swapped<T>(s: seq<T>, i: int, j: int): (r: seq<T>)
    requires 0 <= i < |s| && 0 <= j < |s|
    ensures |r| == |s| && r[i] == s[j] && r[j] == s[i]
    ensures forall k :: 0 <= k < |s| && k != i && k != j ==> r[k] == s[k]
  {
    s[i := s[j]][j := s[i]]
  }

  /** Exchanging two elements keeps the same elements, each as often. */
  lemma SwappedPermutes<T>(s: seq<T>, i: int, j: int)
    requires 0 <= i < |s| && 0 <= j < |s|
    ensures multiset(Swapped(s, i, j)) == multiset(s)
  {
  }

  /** Exchanging an element with itself changes nothing. */
  lemma SwappedSameIndex<T>(s: seq<T>, i: int)
    requires 0 <= i < |s|
    ensures Swapped(s, i, i) == s
  {
  }

  /** Exchanging the same two elements twice restores the sequence. */
  lemma SwappedTwice<T>(s: seq<T>, i: int, j: int)
    requires 0 <= i < |s| && 0 <= j < |s|
    ensures Swapped(Swapped(s, i, j), i, j) == s
  {
  }

  /**
   * `DataSourceList`: a slice of data sources with the three methods of
   * `sort.Interface`. The receiver is a slice header, so `Swap` writes to the
   * shared backing array and the length never changes.
   */
  class DataSourceList {
    const items: array<DataSource>

    constructor (items: array<DataSource>)
      ensures this.items == items
    {
      this.items := items;
    }

    /** The data sources in the list, in order. */
    ghost function Elements(): seq<DataSource>
      reads items
    {
      items[..]
    }

    /** `Len`: the number of data sources in the list. */
    function Len(): (n: nat)
      reads items
      ensures n == |Elements()|
    {
      items.Length
    }

    /** `Less(i, j)`: the name at `i` comes before the name at `j` in byte-wise lexicographic order. */
    function Less(i: int, j: int): (b: bool)
      requires 0 <= i < Len() && 0 <= j < Len()
      reads items
      ensures b <==> LexBefore(Elements()[i].name, Elements()[j].name)
    {
      BelowIsLexBefore(items[i].name, items[j].name);
      Below(items[i].name, items[j].name)
    }

    /** No position is less than itself. */
    lemma LessIrreflexive(i: int)
      requires 0 <= i < Len()
      ensures !Less(i, i)
    {
      BelowIrreflexive(items[i].name);
    }

    /** `Less` is transitive over positions. */
    lemma LessTransitive(i: int, j: int, k: int)
      requires 0 <= i < Len() && 0 <= j < Len() && 0 <= k < Len()
      requires Less(i, j) && Less(j, k)
      ensures Less(i, k)
    {
      BelowTransitive(items[i].name, items[j].name, items[k].name);
    }

    /** At most one of `Less(i, j)` and `Less(j, i)` holds. */
    lemma LessAsymmetric(i: int, j: int)
      requires 0 <= i < Len() && 0 <= j < Len()
      requires Less(i, j)
      ensures !Less(j, i)
    {
      BelowAsymmetric(items[i].name, items[j].name);
    }

    /**
     * Two positions are incomparable exactly when they hold the same name,
     * so incomparability is an equivalence and `Less` is the strict weak
     * order that `sort.Interface` asks for.
     */
    lemma LessIncomparableIffSameName(i: int, j: int)
      requires 0 <= i < Len() && 0 <= j < Len()
      ensures !Less(i, j) && !Less(j, i) <==> Elements()[i].name == Elements()[j].name
    {
      BelowTotal(items[i].name, items[j].name);
      BelowIrreflexive(items[i].name);
    }

    /** `Swap(i, j)`: exchanges the data sources at `i` and `j` in place. */
    method Swap(i: int, j: int)
      requires 0 <= i < Len() && 0 <= j < Len()
      modifies items
      ensures Elements() == Swapped(old(Elements()), i, j)
      ensures multiset(Elements()) == multiset(old(Elements()))
    {
      items[i], items[j] := items[j], items[i];
      SwappedPermutes(old(items[..]), i, j);
    }
  }
}
