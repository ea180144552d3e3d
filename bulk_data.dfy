/** Choosing the bulk-data download link: the comprehension in
    `fetch_download_url` and the empty-link check in `download_cards`.
    The HTTP requests and JSON parsing around them are not modelled; the
    parsed `data` array is the input. */
module BulkData {
  import opened Wrappers

  /** One entry of the bulk-data index's `data` array. `downloadUri` is
      `None` when the JSON value is `null`. */
  datatype Descriptor = Descriptor(kind: string, downloadUri: Option<string>)

  /** The errors `download_cards` raises before any download. */
  datatype DownloadError = ScryfallDownloadError(message: string)

  /** The type tag of the bulk data set the bot uses. */
  const OracleCards: string := "oracle_cards"

  predicate HasOracleDescriptor(data: seq<Descriptor>) {
    exists i :: 0 <= i < |data| && data[i].kind == OracleCards
  }

  /** Position `i` holds the first "oracle_cards" descriptor. */
  ghost predicate IsFirstOracle(data: seq<Descriptor>, i: int) {
    && 0 <= i < |data|
    && data[i].kind == OracleCards
    && forall j :: 0 <= j < i ==> data[j].kind != OracleCards
  }

  /** `[i for i in data if i['type'] == 'oracle_cards']`. */
  function OracleDescriptors(data: seq<Descriptor>): (r: seq<Descriptor>)
    ensures |r| <= |data|
    ensures forall k :: 0 <= k < |r| ==> r[k].kind == OracleCards && r[k] in data
    ensures forall d :: d in r <==> d in data && d.kind == OracleCards
  {
    if data == [] then []
    else
      var rest := OracleDescriptors(data[1..]);
      assert data == [data[0]] + data[1..];
      if data[0].kind == OracleCards then [data[0]] + rest else rest
  }

  /** The comprehension distributes over concatenation: it keeps the
      descriptors in the order of the `data` array. */
  lemma {:induction false} OracleDescriptorsAppend(a: seq<Descriptor>, b: seq<Descriptor>)
    ensures OracleDescriptors(a + b) == OracleDescriptors(a) + OracleDescriptors(b)
  {
    if a != [] {
      assert (a + b)[1..] == a[1..] + b;
      OracleDescriptorsAppend(a[1..], b);
    } else {
      assert a + b == b;
    }
  }

  /** The filtered list is non-empty exactly when `data` has an
      "oracle_cards" entry, and it then starts with the first one. */
  lemma {:induction false} OracleDescriptorsHead(data: seq<Descriptor>)
    ensures OracleDescriptors(data) != [] <==> HasOracleDescriptor(data)
    ensures OracleDescriptors(data) != [] ==>
      exists i :: IsFirstOracle(data, i) && OracleDescriptors(data)[0] == data[i]
  {
    if data != [] {
      OracleDescriptorsHead(data[1..]);
      if data[0].kind == OracleCards {
        assert IsFirstOracle(data, 0);
      } else {
        if HasOracleDescriptor(data) {
          var i :| 0 <= i < |data| && data[i].kind == OracleCards;
          assert data[1..][i - 1].kind == OracleCards;
        }
        if OracleDescriptors(data) != [] {
          var j :| IsFirstOracle(data[1..], j) && OracleDescriptors(data[1..])[0] == data[1..][j];
          assert IsFirstOracle(data, j + 1);
        }
      }
    }
  }

  /** `fetch_download_url` after the index page is fetched: the
      `download_uri` of the first "oracle_cards" descriptor. Indexing `[0]`
      of an empty list raises, so such a descriptor must exist. */
  function FetchDownloadUrl(data: seq<Descriptor>): (uri: Option<string>)
    requires HasOracleDescriptor(data)
    ensures exists i :: IsFirstOracle(data, i) && uri == data[i].downloadUri
  {
    OracleDescriptorsHead(data);
    OracleDescriptors(data)[0].downloadUri
  }

  /** Lines 52-55 of `download_cards`: a `None` or empty link is rejected
      before the card data is requested. */
  function ResolveDownloadLink(data: seq<Descriptor>): (r: Result<string, DownloadError>)
    requires HasOracleDescriptor(data)
    ensures r.Success? <==> exists i :: IsFirstOracle(data, i) && data[i].downloadUri.Some? && data[i].downloadUri.value != ""
    ensures r.Success? ==> r.value != "" && exists i :: IsFirstOracle(data, i) && data[i].downloadUri == Some(r.value)
    ensures r.Failure? ==> r.error == ScryfallDownloadError("No download link available!")
  {
    FirstOracleUnique(data);
    var link := FetchDownloadUrl(data);
    if link.None? || link.value == "" then Failure(ScryfallDownloadError("No download link available!"))
    else Success(link.value)
  }

  /** There is only one first "oracle_cards" descriptor. */
  lemma FirstOracleUnique(data: seq<Descriptor>)
    ensures forall i, j :: IsFirstOracle(data, i) && IsFirstOracle(data, j) ==> i == j
  {
  }
}
