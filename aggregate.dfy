/**
 * The crawl: for listing tables 1, 2 and 3 in turn, walk the codes,
 * locations and links side by side, fetch each detail page and emit one row
 * per municipality; then the CSV header the writer takes from the first row.
 */
module Aggregate {
  import opened Wrappers
  import opened OrderedDict
  import opened Html
  import opened Listing
  import opened Detail

  /** One output row: `Code`, `Location`, then the detail record's keys. */
  type Row = Dict<Value>

  /** `get_parsed_page(url)`: the parsed page, or `None` when the download failed. */
  type Fetcher = string -> Option<Page>

  const CodeKey := "Code"
  const LocationKey := "Location"

  /** `{"Code": code, "Location": location, **detail_data}`. */
  function MakeRow(code: string, location: string, detail: Row): Row
  {
    PutAll([(CodeKey, Some(code)), (LocationKey, Some(location))], detail)
  }

  /** `extract_detail_page_data(detail_soup) if detail_soup else {}`. */
  function DetailOf(detailPage: Option<Page>, hm: HeadersMatch): Row
  {
    match detailPage
    case Some(p) => DetailRecord(p, hm)
    case None => []
  }

  function Min(a: nat, b: nat): nat
  {
    if a <= b then a else b
  }

  function Min3(a: nat, b: nat, c: nat): nat
  {
    Min(Min(a, b), c)
  }

  /** The number of rows `zip(codes, locations, links)` yields for table `t`. */
  function TableSize(listing: Page, t: int, hm: HeadersMatch): nat
  {
    Min3(|ExtractCodes(listing, t, hm)|, |Locations(listing, t, hm)|, |ExtractLinks(listing, t, hm)|)
  }

  /** The rows of table `t`: the `k`-th code, location and detail link taken together. */
  function TableRows(listing: Page, t: int, detailBaseUrl: string, fetch: Fetcher, hm: HeadersMatch): seq<Row>
  {
    var codes, locations, links := ExtractCodes(listing, t, hm), Locations(listing, t, hm), ExtractLinks(listing, t, hm);
    seq(TableSize(listing, t, hm), k requires 0 <= k < TableSize(listing, t, hm) =>
      MakeRow(codes[k], locations[k], DetailOf(fetch(detailBaseUrl + links[k]), hm)))
  }

  /** The rows emitted once tables `1..n` have been walked. */
  function RowsThrough(listing: Page, detailBaseUrl: string, fetch: Fetcher, hm: HeadersMatch, n: nat): seq<Row>
  {
    if n == 0 then [] else RowsThrough(listing, detailBaseUrl, fetch, hm, n - 1) + TableRows(listing, n, detailBaseUrl, fetch, hm)
  }

  /** Row `k` of table `t` is built from the `k`-th code, location and detail link. */
  lemma TableRowAt(listing: Page, t: int, detailBaseUrl: string, fetch: Fetcher, hm: HeadersMatch, k: nat)
    requires k < TableSize(listing, t, hm)
    ensures k < |TableRows(listing, t, detailBaseUrl, fetch, hm)|
    ensures TableRows(listing, t, detailBaseUrl, fetch, hm)[k]
         == MakeRow(ExtractCodes(listing, t, hm)[k], Locations(listing, t, hm)[k],
                    DetailOf(fetch(detailBaseUrl + ExtractLinks(listing, t, hm)[k]), hm))
  {
  }

  /** The inner loop of `extract_data`: one row per code, location and link of table `t`, in order. */
  method ExtractTableRows(listing: Page, t: int, detailBaseUrl: string, fetch: Fetcher, hm: HeadersMatch)
    returns (tableRows: seq<Row>)
    ensures tableRows == TableRows(listing, t, detailBaseUrl, fetch, hm)
  {
    var codes, locations, links := ExtractTableData(listing, t, hm);
    ghost var rows := TableRows(listing, t, detailBaseUrl, fetch, hm);
    var n := Min3(|codes|, |locations|, |links|);
    assert |rows| == n;
    tableRows := [];
    for k := 0 to n
      invariant tableRows == rows[..k]
    {
      var detailSoup := fetch(detailBaseUrl + links[k]);
      var detailData: Row := [];
      if detailSoup.Some? {
        detailData := ExtractDetailPageData(detailSoup.value, hm);
      }
      assert detailData == DetailOf(detailSoup, hm);
      TableRowAt(listing, t, detailBaseUrl, fetch, hm, k);
      assert rows[k] == MakeRow(codes[k], locations[k], detailData);
      assert rows[..k + 1] == rows[..k] + [rows[k]];
      tableRows := tableRows + [MakeRow(codes[k], locations[k], detailData)];
    }
    assert rows[..n] == rows;
  }

  /** `extract_data`: the rows of table 1, then table 2, then table 3. */
  method ExtractData(listing: Page, detailBaseUrl: string, fetch: Fetcher, hm: HeadersMatch)
    returns (extractedData: seq<Row>)
    ensures extractedData == TableRows(listing, 1, detailBaseUrl, fetch, hm)
                           + TableRows(listing, 2, detailBaseUrl, fetch, hm)
                           + TableRows(listing, 3, detailBaseUrl, fetch, hm)
  {
    extractedData := [];
    for tableIndex := 1 to 4
      invariant extractedData == RowsThrough(listing, detailBaseUrl, fetch, hm, tableIndex - 1)
    {
      var tableRows := ExtractTableRows(listing, tableIndex, detailBaseUrl, fetch, hm);
      extractedData := extractedData + tableRows;
    }
    assert RowsThrough(listing, detailBaseUrl, fetch, hm, 1) == TableRows(listing, 1, detailBaseUrl, fetch, hm);
  }

  /** Every row starts with `Code` then `Location`, holds each key once, and adds the detail keys in their order. */
  lemma RowKeys(code: string, location: string, detail: Row)
    ensures Valid(MakeRow(code, location, detail))
    ensures Keys(MakeRow(code, location, detail)) == AppendNew([CodeKey, LocationKey], Keys(detail))
    ensures |Keys(MakeRow(code, location, detail))| >= 2
    ensures Keys(MakeRow(code, location, detail))[..2] == [CodeKey, LocationKey]
  {
    var base := [(CodeKey, Some(code)), (LocationKey, Some(location))];
    assert Keys(base) == [CodeKey, LocationKey];
    PutAllKeys(base, detail);
  }

  /**
   * A row keeps its code and location unless the detail record has a key of
   * the same name, and every key of a well-formed detail record carries the
   * detail record's value into the row, `Code` and `Location` included.
   */
  lemma RowValues(code: string, location: string, detail: Row, key: string)
    ensures CodeKey !in Keys(detail) ==> Get(MakeRow(code, location, detail), CodeKey) == Some(Some(code))
    ensures LocationKey !in Keys(detail) ==> Get(MakeRow(code, location, detail), LocationKey) == Some(Some(location))
    ensures Valid(detail) && key in Keys(detail) ==> Get(MakeRow(code, location, detail), key) == Get(detail, key)
  {
    var base := [(CodeKey, Some(code)), (LocationKey, Some(location))];
    assert Keys(base) == [CodeKey, LocationKey];
    PutAllGet(base, detail, CodeKey);
    PutAllGet(base, detail, LocationKey);
    PutAllGet(base, detail, key);
    if Valid(detail) {
      LastValueOfValid(detail, key);
    }
  }

  /** The five fixed column names are pairwise different. */
  lemma ColumnNamesDistinct()
    ensures Distinct([CodeKey, LocationKey, RegisteredKey, EnvelopesKey, ValidKey])
  {
    var five := [CodeKey, LocationKey, RegisteredKey, EnvelopesKey, ValidKey];
    var lengths := [4, 8, 10, 9, 5];
    forall i | 0 <= i < 5 ensures |five[i]| == lengths[i] {
    }
    forall i, j | 0 <= i < j < 5 ensures five[i] != five[j] {
      assert |five[i]| == lengths[i] && |five[j]| == lengths[j];
    }
  }

  /** Collecting `Code`, `Location` and then keys that start with `Registered`, `Envelopes`, `Valid` keeps all five in front. */
  lemma FixedColumnsFirst(dk: seq<string>)
    requires |dk| >= 3 && dk[..3] == [RegisteredKey, EnvelopesKey, ValidKey]
    ensures var keys := AppendNew([CodeKey, LocationKey], dk);
      |keys| >= 5 && keys[..5] == [CodeKey, LocationKey, RegisteredKey, EnvelopesKey, ValidKey]
  {
    var two := [CodeKey, LocationKey];
    var head := [RegisteredKey, EnvelopesKey, ValidKey];
    assert dk == head + dk[3..];
    AppendNewConcat(two, head, dk[3..]);
    ColumnNamesDistinct();
    assert two + head == [CodeKey, LocationKey, RegisteredKey, EnvelopesKey, ValidKey];
    AppendNewFresh(two, head);
  }

  /** A row built from a detail record that starts with `Registered`, `Envelopes`, `Valid` has the keys `Code`, `Location`, `Registered`, `Envelopes`, `Valid` first. */
  lemma RowWithDetailKeys(code: string, location: string, detail: Row)
    requires |Keys(detail)| >= 3 && Keys(detail)[..3] == [RegisteredKey, EnvelopesKey, ValidKey]
    ensures var keys := Keys(MakeRow(code, location, detail));
      |keys| >= 5 && keys[..5] == [CodeKey, LocationKey, RegisteredKey, EnvelopesKey, ValidKey]
  {
    RowKeys(code, location, detail);
    FixedColumnsFirst(Keys(detail));
  }

  /**
   * Row `k` of table `t` carries the `k`-th code and location. When the
   * detail page could not be fetched it has exactly the keys `Code` and
   * `Location`; otherwise `Registered`, `Envelopes` and `Valid` follow them,
   * and every key of the detail record holds the detail record's value.
   */
  lemma TableRowShape(listing: Page, t: int, detailBaseUrl: string, fetch: Fetcher, hm: HeadersMatch, k: nat)
    requires k < TableSize(listing, t, hm)
    ensures var codes, locations, links := ExtractCodes(listing, t, hm), Locations(listing, t, hm), ExtractLinks(listing, t, hm);
      var row := TableRows(listing, t, detailBaseUrl, fetch, hm)[k];
      var detailPage := fetch(detailBaseUrl + links[k]);
      && Valid(row)
      && |Keys(row)| >= 2 && Keys(row)[..2] == [CodeKey, LocationKey]
      && (detailPage.None? ==> row == [(CodeKey, Some(codes[k])), (LocationKey, Some(locations[k]))])
      && (detailPage.Some? ==> |Keys(row)| >= 5 && Keys(row)[..5] == [CodeKey, LocationKey, RegisteredKey, EnvelopesKey, ValidKey])
      && (CodeKey !in Keys(DetailOf(detailPage, hm)) ==> Get(row, CodeKey) == Some(Some(codes[k])))
      && (LocationKey !in Keys(DetailOf(detailPage, hm)) ==> Get(row, LocationKey) == Some(Some(locations[k])))
      && (forall key :: key in Keys(DetailOf(detailPage, hm)) ==> Get(row, key) == Get(DetailOf(detailPage, hm), key))
  {
    var codes, locations, links := ExtractCodes(listing, t, hm), Locations(listing, t, hm), ExtractLinks(listing, t, hm);
    var detailPage := fetch(detailBaseUrl + links[k]);
    var detail := DetailOf(detailPage, hm);
    var row := TableRows(listing, t, detailBaseUrl, fetch, hm)[k];
    assert row == MakeRow(codes[k], locations[k], detail);
    RowKeys(codes[k], locations[k], detail);
    RowValues(codes[k], locations[k], detail, CodeKey);
    if detailPage.Some? {
      DetailRecordKeys(detailPage.value, hm);
      RowWithDetailKeys(codes[k], locations[k], detail);
    }
    assert Valid(detail);
    forall key | key in Keys(detail) ensures Get(row, key) == Get(detail, key) {
      RowValues(codes[k], locations[k], detail, key);
    }
  }

  /** A table whose code, location or link list is empty contributes no rows. */
  lemma EmptyTableContributesNothing(listing: Page, t: int, detailBaseUrl: string, fetch: Fetcher, hm: HeadersMatch)
    requires ExtractCodes(listing, t, hm) == [] || Locations(listing, t, hm) == [] || ExtractLinks(listing, t, hm) == []
    ensures TableRows(listing, t, detailBaseUrl, fetch, hm) == []
  {
  }

  /** `extracted_data[0].keys() if extracted_data else []`: the CSV header. */
  function FieldNames(extractedData: seq<Row>): (header: seq<string>)
    ensures extractedData == [] ==> header == []
    ensures extractedData != [] ==> header == Keys(extractedData[0])
  {
    if extractedData != [] then Keys(extractedData[0]) else []
  }

  /**
   * The header of the crawl's rows starts with `Code` and `Location`; it is
   * exactly those two when the first row's detail page could not be fetched.
   */
  lemma HeaderOfExtractedData(listing: Page, detailBaseUrl: string, fetch: Fetcher, hm: HeadersMatch, t: int)
    requires 1 <= t <= 3
    requires forall u :: 1 <= u < t ==> TableSize(listing, u, hm) == 0
    requires TableSize(listing, t, hm) > 0
    ensures var rows := TableRows(listing, 1, detailBaseUrl, fetch, hm)
                      + TableRows(listing, 2, detailBaseUrl, fetch, hm)
                      + TableRows(listing, 3, detailBaseUrl, fetch, hm);
      var first := fetch(detailBaseUrl + ExtractLinks(listing, t, hm)[0]);
      && rows != []
      && FieldNames(rows) == Keys(TableRows(listing, t, detailBaseUrl, fetch, hm)[0])
      && |FieldNames(rows)| >= 2 && FieldNames(rows)[..2] == [CodeKey, LocationKey]
      && (first.None? ==> FieldNames(rows) == [CodeKey, LocationKey])
  {
    var r1, r2, r3 := TableRows(listing, 1, detailBaseUrl, fetch, hm),
                      TableRows(listing, 2, detailBaseUrl, fetch, hm),
                      TableRows(listing, 3, detailBaseUrl, fetch, hm);
    var rt := TableRows(listing, t, detailBaseUrl, fetch, hm);
    if t == 1 {
      assert (r1 + r2 + r3)[0] == rt[0];
    } else if t == 2 {
      assert r1 == [];
      assert (r1 + r2 + r3)[0] == rt[0];
    } else {
      assert r1 == [] && r2 == [];
      assert (r1 + r2 + r3)[0] == rt[0];
    }
    TableRowShape(listing, t, detailBaseUrl, fetch, hm, 0);
  }

  /**
   * `csv.DictWriter` with its default `extrasaction='raise'`: it refuses a
   * row holding a key the header does not list.
   */
  predicate WriterAccepts(header: seq<string>, rows: seq<Row>)
  {
    forall i, key :: 0 <= i < |rows| && key in Keys(rows[i]) ==> key in header
  }

  /**
   * When the first municipality's detail page could not be fetched and that
   * of any later one `j` could, the header is just `Code` and `Location`, and
   * the writer refuses row `j` because of its `Registered` column.
   */
  lemma FailedFirstFetchBreaksWriter(rows: seq<Row>, j: nat, code1: string, location1: string, code2: string, location2: string, detail: Row)
    requires 0 < j < |rows|
    requires rows[0] == MakeRow(code1, location1, []) && rows[j] == MakeRow(code2, location2, detail)
    requires |Keys(detail)| >= 3 && Keys(detail)[..3] == [RegisteredKey, EnvelopesKey, ValidKey]
    ensures FieldNames(rows) == [CodeKey, LocationKey]
    ensures RegisteredKey in Keys(rows[j])
    ensures !WriterAccepts(FieldNames(rows), rows)
  {
    RowKeys(code1, location1, []);
    assert Keys(rows[0]) == [CodeKey, LocationKey];
    RowWithDetailKeys(code2, location2, detail);
    assert Keys(rows[j])[2] == RegisteredKey;
    ColumnNamesDistinct();
    assert RegisteredKey !in [CodeKey, LocationKey];
  }
}
