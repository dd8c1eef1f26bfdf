# Czech election results scraper — a Dafny model

The scraper (`main.py`) reads a listing page of the Czech election results
site. The page has up to three tables of municipalities. For each
municipality it reads a code, a location name and a link to the detail
page. It fetches every detail page and reads three figures from it: registered
voters, envelopes issued and valid votes. It also reads the votes of every
party from the detail page's two party tables. Each municipality becomes one
record: `Code`, `Location`, `Registered`, `Envelopes`, `Valid`, then one
column per party. The records are written to a CSV file, and the header is
taken from the first record.

This project models that pipeline once the network and the HTML library
are taken away, and proves what each step promises.

- **Pages.** A parsed page is its table cells in document order (`Html`).
  Each cell has its classes, its `headers` attribute, its text and its first
  link. A CSS selector or `find`/`find_all` call becomes a filter over the
  cells. Whether a cell's `headers` attribute matches a key is decided by the
  HTML library, so it is a parameter `hm` of every extraction.
- **Text.** `str.strip` is modelled with Python's whitespace set (`Text`).
  So are the substring test, `str.split` and `str.join` for a one-character
  separator, and `str.startswith`.
- **Dictionaries.** Python's insertion-ordered `dict` is a sequence of
  key/value pairs (`OrderedDict`). Setting a present key replaces its value
  where it stands; setting a new key appends it. `dict(pairs)`,
  `d.update(e)` and `{..., **e}` all insert pairs one after another.
- **Listing page** (`Listing`): the codes, locations and detail links of
  one table.
- **Detail page** (`Detail`): the three figures, the party results of both
  party tables, and the merged record.
- **Crawl** (`Aggregate`): the rows of tables 1, 2 and 3, and the CSV header.
  Downloading a page is a function `fetch` from URL to an optional page.
- **Entry point** (`CommandLine`): the argument check, the base URL, and the
  run that hands header and rows to the writer.

The loops of the source are methods proved against specification functions:
the location loop, the party-table loop and the nested crawl loop. The steps
that call one of these loops are methods too (`ExtractTableData`,
`ExtractDetailPageData`, `ProcessElectionData`), each proved
equal to a specification function. Every other step is a function.

The three figures are read with `find`, which stops at the first matching
cell, so a detail page with several matching cells yields the first one's
text.

## Model

| member | source | states |
|---|---|---|
| Text.TrimSpec | main.py:47 | `strip` leaves no whitespace at either end, never lengthens, gives the empty string exactly when the text is all whitespace, and returns a run of the original with only whitespace around it |
| Text.TrimStartDropsLeadingSpace | main.py:47 | `strip` removes only a leading run of whitespace and stops at the first other character |
| Text.TrimEndDropsTrailingSpace | main.py:47 | `strip` removes only a trailing run of whitespace and stops at the last other character |
| Text.Contains | main.py:103 | `"ps311" in href` holds exactly when the marker occurs at some position of the `href` |
| Text.Split | main.py:342 | `split("/")` gives at least one part, no part holds `/`, and joining the parts with `/` gives the string back |
| Text.SplitOfJoin | main.py:342 | splitting a `/`-join of `/`-free parts gives the parts back |
| Text.JoinConcat | main.py:342 | joining two non-empty runs of parts puts exactly one separator between their joins |
| OrderedDict.Get | main.py:212 | a lookup finds nothing exactly when the key is absent |
| OrderedDict.PutSpec | main.py:212 | setting a key keeps a present key in place and appends a new one, keeps keys distinct, stores the value, and leaves every other key's value alone |
| OrderedDict.AppendNew | main.py:234-239 | the key order a dict ends with: the old keys first, then the new keys in order of first occurrence, each once |
| OrderedDict.PutAllKeys | main.py:234-239 | inserting pairs keeps the old keys where they are and appends new keys in order of first occurrence |
| OrderedDict.PutAllGet | main.py:234-239 | after inserting pairs a key holds the value of its last pair, or its old value when no pair names it |
| OrderedDict.PutAllConcat | main.py:212 | inserting `a` and then `b` is inserting `a + b` |
| OrderedDict.UpdateWithDictOfPairs | main.py:212 | `d.update(dict(pairs))` equals inserting the pairs into `d` one by one |
| Html.SelectSpec | main.py:48-50 | `select` returns only cells the selector matches, every matching cell, and never more cells than the page has |
| Html.TrimmedTextsAppend | main.py:46-51 | trimming works cell by cell: the texts of two runs of cells concatenate |
| Html.SelectAppend | main.py:48-50 | selection keeps document order: selecting from two pieces of a page and concatenating equals selecting from the whole |
| Html.FindFirst | main.py:139-140 | `find` gives nothing exactly when no cell matches, and otherwise the first matching cell |
| Html.FindFirstHeadsSelect | main.py:139-140 | `find` returns the cell `select` would list first, and fails exactly when `select` lists nothing |
| Listing.ExtractCodes | main.py:35-52 | one code per matching `cislo` cell of the first column, in order, each its trimmed text |
| Listing.ExtractLocations | main.py:55-83 | one location per location cell, in document order: the link's trimmed text when the cell has a link, else the cell's trimmed text |
| Listing.DetailLinks | main.py:98-104 | never more links than cells, and every link contains `ps311` |
| Listing.ExtractLinks | main.py:86-105 | every link contains `ps311`, and there are never more links than codes |
| Listing.ExtractTableData | main.py:108-125 | the codes, locations and links of one table, as the three extractors give them |
| Listing.ListingInDocumentOrder | main.py:46-104 | codes, locations and links are read cell by cell in document order: extraction distributes over concatenated pages |
| Listing.LinksComeFromCodeCells | main.py:98-104 | every link is the `href` of a code cell whose link contains `ps311` |
| Listing.LinksAlignWithCodes | main.py:98-104 | when every code cell has a detail link, there are as many links as code cells and link `k` comes from code cell `k` |
| Listing.MissingLinkDropsOut | main.py:98-104 | a code cell without a detail link contributes no link: the links of the cells before and after it join up, and there are fewer links than cells |
| Listing.LinkSource | main.py:98-104 | link `i` is the `href` of a code cell `j >= i` that holds a detail link, with exactly `i` links among the cells before it |
| Listing.LinkAfterMissing | main.py:98-104 | after a code cell `m` without a detail link, every link `i >= m` is the `href` of a code cell after position `i` |
| Listing.MissingLinkShiftsLinks | main.py:86-105 | on any page, a code cell `m` of the table without a detail link leaves fewer links than codes, and every link `i >= m` belongs to a later code cell than code `i` |
| Detail.FirstMatchText | main.py:138-142 | the trimmed text of the first matching cell, or `None` exactly when no cell matches |
| Detail.ExtractRegisteredVoters | main.py:128-143 | the trimmed text of the first `cislo` cell headed `sa2`, or `None` when there is none |
| Detail.ExtractEnvelopes | main.py:146-161 | the trimmed text of the first `cislo` cell headed `sa3`, or `None` when there is none |
| Detail.ExtractValidVotes | main.py:164-179 | the trimmed text of the first `cislo` cell headed `sa6`, or `None` when there is none |
| Detail.Zip | main.py:212 | `zip` is as long as the shorter list and pairs element `j` with element `j` |
| Detail.ExtractPartyResults | main.py:182-213 | the loop over party tables 1 and 2 ends with the results of merging table 1 and then table 2 |
| Detail.PartyResultsAreInsertedPairs | main.py:192-212 | the party results equal inserting the name/vote pairs of table 1 and then of table 2, one by one |
| Detail.PartyResultsKeysAndVotes | main.py:192-212 | each party appears once, in order of first appearance across both tables, with the vote of its last pair (a duplicate keeps its last vote and its first position) |
| Detail.PartyKeysComeFromTables | main.py:196-212 | every party key is a name from table 1 or 2 that has a vote beside it |
| Detail.LastValueConcat | main.py:212 | the last pair for a key in `a + b` is its last pair in `b` when `b` names it, else in `a` |
| Detail.SecondTableWins | main.py:194-212 | a party listed with a vote in table 2 ends with table 2's vote, whatever table 1 said |
| Detail.AsValues | main.py:238 | merging the party results keeps their keys and order |
| Detail.ExtractDetailPageData | main.py:216-239 | the record: the three figures, then the party results merged in |
| Detail.DetailRecordKeys | main.py:234-239 | the record holds each key once; `Registered`, `Envelopes`, `Valid` come first and in that order, then the new party keys in order |
| Detail.GetAsValues | main.py:238 | a party's entry in the record holds its votes |
| Detail.GetAfterParties | main.py:234-239 | merging the party results overwrites the value of any key a party shares and leaves the other keys alone |
| Detail.DetailRecordValues | main.py:234-239 | each figure keeps its extracted value unless a party has the same name, in which case that party's votes replace it |
| Aggregate.ExtractTableRows | main.py:260-278 | the inner loop over one table produces exactly its rows, `min(#codes, #locations, #links)` of them, in order |
| Aggregate.ExtractData | main.py:242-281 | the crawl returns the rows of table 1, then table 2, then table 3 |
| Aggregate.RowKeys | main.py:272-278 | a row holds each key once, starts with `Code` and `Location`, and then has the detail keys in their order |
| Aggregate.RowValues | main.py:272-278 | a row carries its code and location unless the detail record has a key with the same name, and every key of a well-formed detail record holds the detail record's value |
| Aggregate.FixedColumnsFirst | main.py:272-278 | `Code`, `Location`, `Registered`, `Envelopes`, `Valid` keep that order at the head of a row's keys |
| Aggregate.RowWithDetailKeys | main.py:269-278 | a row built from a detail record starts with `Code`, `Location`, `Registered`, `Envelopes`, `Valid` |
| Aggregate.TableRowShape | main.py:263-278 | row `k` of a table carries code `k` and location `k`; it is exactly `Code` and `Location` when the detail fetch failed, and otherwise has the three figures next and holds every value of the detail record |
| Aggregate.EmptyTableContributesNothing | main.py:263 | a table with no codes, no locations or no links adds no rows |
| Aggregate.FieldNames | main.py:294 | the header is the first record's keys, or empty when there are no records |
| Aggregate.HeaderOfExtractedData | main.py:294 | the header comes from the first row of the first non-empty table; it starts with `Code`, `Location`, and is just those two when that row's detail fetch failed |
| Aggregate.FailedFirstFetchBreaksWriter | main.py:294-297 | for any list of rows whose first row's detail fetch failed and whose row `j > 0` was built from a detail record, the header is just `Code`, `Location` and the writer refuses row `j` for its `Registered` column |
| CommandLine.GetCommandLineArguments | main.py:301-328 | accepted exactly when there are two arguments and the URL starts with `http://` or `https://`; then the URL and file name, otherwise the reason for refusal |
| CommandLine.BaseUrl | main.py:342 | the base URL always ends in `/` |
| CommandLine.BaseUrlSegments | main.py:342 | the base URL splits into the first five `/`-segments of the page URL, or all of them when there are fewer, plus one empty segment after the final `/` |
| CommandLine.BaseUrlIsPrefix | main.py:342 | the base URL is a prefix of the page URL with a `/` appended |
| CommandLine.BaseUrlKeepsScheme | main.py:342 | a URL starting with `scheme//` keeps `scheme//` at the head of its base URL |
| CommandLine.AcceptedUrlKeepsScheme | main.py:318-328 | a URL the argument check accepts gives a base URL that still starts with `http://` or `https://` |
| CommandLine.ProcessElectionData | main.py:331-347 | nothing is written when the listing page cannot be fetched; otherwise the writer gets the crawl's rows, resolved against the base URL, and the header from the first row |

## Left out

- `get_parsed_page` (main.py:15-32) is not modelled. The model takes its result as the parameter `fetch`, a function from URL to an optional page. A failed download, with its timeout, status check and exception path, is `None`.
- A BeautifulSoup object is always truthy, so `if soup` and `if detail_soup` become tests on `fetch`'s result.
- HTML parsing, the exact CSS-selector and `headers` matching, and how `.text` concatenates nested text are not modelled. They belong to the HTML library: the matching is the parameter `hm`, and a cell's text and first link are given.
- A link without an `href` attribute makes the source raise `KeyError`. The model's links always carry an `href`.
- CSV serialisation through `csv.DictWriter` (main.py:292-298) is not modelled, nor is opening the file. Only the header choice at main.py:294 and the writer's acceptance test (`Aggregate.WriterAccepts`) are modelled.
- The writer keeps its default `extrasaction='raise'`, so `writerows` raises `ValueError` on any row with a key outside the header: a run whose first detail fetch failed while a later one succeeded, or one where a later municipality lists a party the first does not. "Data saved successfully." is then never printed. The model states this case (`Aggregate.FailedFirstFetchBreaksWriter`) but does not model the exception or the partly written file.
- `print` progress and error messages, reading `sys.argv` and `sys.exit` are not modelled. The argument vector is a parameter, and a refusal is a `Failure` value that names the reason.
- The `page_url` parameter of `extract_data` only feeds a progress message, so the model leaves it out.
- The `if __name__ == "__main__"` glue (main.py:350-352) is not modelled.
- CommandLine.ProcessElectionData returns the header and rows instead of writing them. Writing them is the CSV serialisation left out above.
