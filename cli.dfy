/**
 * The entry point: the argument check, the base URL the detail links are
 * resolved against, and the run that crawls a listing page and hands the
 * header and the rows to the CSV writer.
 */
module CommandLine {
  import opened Wrappers
  import opened Text
  import opened Html
  import opened Aggregate

  /** Why the arguments were refused; the program prints a message and exits with status 1. */
  datatype ArgumentError = WrongArgumentCount | InvalidUrl

  /** The URL schemes the argument check accepts. */
  predicate HasWebScheme(url: string)
  {
    StartsWith(url, "http://") || StartsWith(url, "https://")
  }

  /**
   * `get_command_line_arguments`: `argv` is the whole argument vector, the
   * program name first. Exactly two arguments are accepted, the first of
   * which must be an `http://` or `https://` URL.
   */
  function GetCommandLineArguments(argv: seq<string>): (r: Result<(string, string), ArgumentError>)
    ensures r.Success? <==> |argv| == 3 && HasWebScheme(argv[1])
    ensures r.Success? ==> r.value == (argv[1], argv[2])
    ensures |argv| != 3 ==> r == Failure(WrongArgumentCount)
    ensures |argv| == 3 && !HasWebScheme(argv[1]) ==> r == Failure(InvalidUrl)
  {
    if |argv| != 3 then Failure(WrongArgumentCount)
    else if !HasWebScheme(argv[1]) then Failure(InvalidUrl)
    else Success((argv[1], argv[2]))
  }

  /** `"/".join(page_url.split("/")[:5]) + "/"`: the base URL, which always ends in `/`. */
  function BaseUrl(pageUrl: string): (base: string)
    ensures |base| >= 1 && base[|base| - 1] == '/'
  {
    var parts := Split(pageUrl, '/');
    Join(parts[..Min(5, |parts|)], '/') + "/"
  }

  /** The base URL splits into the first five segments of the page URL, or all of them when there are fewer, and one empty segment after the final `/`. */
  lemma BaseUrlSegments(pageUrl: string)
    ensures var parts := Split(pageUrl, '/');
      Split(BaseUrl(pageUrl), '/') == parts[..Min(5, |parts|)] + [""]
  {
    var parts := Split(pageUrl, '/');
    var kept := parts[..Min(5, |parts|)];
    JoinConcat(kept, [""], '/');
    assert Join(kept + [""], '/') == BaseUrl(pageUrl);
    SplitOfJoin(kept + [""], '/');
  }

  /** The base URL is a prefix of the page URL with a `/` appended: it never invents characters. */
  lemma BaseUrlIsPrefix(pageUrl: string)
    ensures StartsWith(pageUrl + "/", BaseUrl(pageUrl))
  {
    var parts := Split(pageUrl, '/');
    var m := Min(5, |parts|);
    var kept := parts[..m];
    if m < |parts| {
      JoinConcat(kept, parts[m..], '/');
      assert kept + parts[m..] == parts;
      assert pageUrl == Join(kept, '/') + "/" + Join(parts[m..], '/');
      assert (pageUrl + "/")[..|BaseUrl(pageUrl)|] == BaseUrl(pageUrl);
    } else {
      assert kept == parts;
    }
  }

  /** A URL of the form `scheme//...` keeps `scheme//` at the head of its base URL. */
  lemma BaseUrlKeepsScheme(pageUrl: string, scheme: string)
    requires '/' !in scheme
    requires StartsWith(pageUrl, scheme + "//")
    ensures StartsWith(BaseUrl(pageUrl), scheme + "//")
  {
    var rest := pageUrl[|scheme| + 2..];
    assert pageUrl == scheme + ['/'] + ("" + ['/'] + rest);
    SplitAfterPiece(scheme, "" + ['/'] + rest, '/');
    SplitAfterPiece("", rest, '/');
    var tail := Split(rest, '/');
    var parts := Split(pageUrl, '/');
    assert parts == [scheme, ""] + tail;
    var m := Min(5, |parts|);
    assert parts[..m] == [scheme, ""] + tail[..m - 2];
    JoinConcat([scheme, ""], tail[..m - 2], '/');
    JoinConcat([scheme], [""], '/');
    assert Join([scheme, ""], '/') == scheme + "/";
  }

  /** Arguments the check accepts yield a base URL that is still an `http://` or `https://` URL. */
  lemma AcceptedUrlKeepsScheme(argv: seq<string>)
    requires GetCommandLineArguments(argv).Success?
    ensures HasWebScheme(BaseUrl(GetCommandLineArguments(argv).value.0))
  {
    var url := argv[1];
    if StartsWith(url, "http://") {
      assert "http:" + "//" == "http://";
      BaseUrlKeepsScheme(url, "http:");
    } else {
      assert "https:" + "//" == "https://";
      BaseUrlKeepsScheme(url, "https:");
    }
  }

  /**
   * `process_election_data`: nothing is written when the listing page cannot
   * be fetched; otherwise the rows of the crawl, resolved against the base
   * URL, together with the header the CSV writer takes from the first row.
   */
  method ProcessElectionData(pageUrl: string, fetch: Fetcher, hm: HeadersMatch)
    returns (output: Option<(seq<string>, seq<Row>)>)
    ensures output.None? <==> fetch(pageUrl).None?
    ensures output.Some? ==>
      var listing, base := fetch(pageUrl).value, BaseUrl(pageUrl);
      && output.value.1 == TableRows(listing, 1, base, fetch, hm) + TableRows(listing, 2, base, fetch, hm) + TableRows(listing, 3, base, fetch, hm)
      && output.value.0 == FieldNames(output.value.1)
  {
    var soup := fetch(pageUrl);
    if soup.Some? {
      var baseUrl := BaseUrl(pageUrl);
      var data := ExtractData(soup.value, baseUrl, fetch, hm);
      output := Some((FieldNames(data), data));
    } else {
      output := None;
    }
  }
}
