/**
 * The listing page: for one table region `t` (1, 2 or 3) the municipality
 * codes, their location names and the relative links of their detail pages.
 */
module Listing {
  import opened Wrappers
  import opened Text
  import opened Html

  /** The path marker every detail-page link carries. */
  const DetailMarker := "ps311"

  /** `f"t{t}sa1 t{t}sb{column}"`: the `headers` key of a column of listing table `t`. */
  function ColumnKey(t: int, column: int): string
  {
    "t" + Decimal(t) + "sa1 t" + Decimal(t) + "sb" + Decimal(column)
  }

  /** `td.cislo[headers='t{t}sa1 t{t}sb1']`: the code cells, which also hold the detail links. */
  function CodeSelector(t: int): Selector
  {
    Selector(Some("cislo"), ColumnKey(t, 1))
  }

  /** `find_all("td", headers=["t{t}sa1 t{t}sb2"])`: the location cells. */
  function LocationSelector(t: int): Selector
  {
    Selector(None, ColumnKey(t, 2))
  }

  /** `_extract_codes`: one code per code cell, its trimmed text, in document order. */
  function ExtractCodes(page: Page, t: int, hm: HeadersMatch): (codes: seq<string>)
    ensures |codes| == |Select(page, CodeSelector(t), hm)|
    ensures forall i :: 0 <= i < |codes| ==> codes[i] == Trim(Select(page, CodeSelector(t), hm)[i].text)
  {
    TrimmedTexts(Select(page, CodeSelector(t), hm))
  }

  /** The location a cell names: its link's trimmed text when it holds a link, else its own trimmed text. */
  function LocationText(c: Cell): string
  {
    match c.anchor
    case Some(a) => Trim(a.text)
    case None => Trim(c.text)
  }

  /** The location of each cell, in order. */
  function LocationTexts(cells: seq<Cell>): seq<string>
  {
    seq(|cells|, i requires 0 <= i < |cells| => LocationText(cells[i]))
  }

  /** The locations of table `t`: one per location cell, in document order. */
  function Locations(page: Page, t: int, hm: HeadersMatch): seq<string>
  {
    LocationTexts(Select(page, LocationSelector(t), hm))
  }

  /** `_extract_locations`: appends one location per location cell. */
  method ExtractLocations(page: Page, t: int, hm: HeadersMatch) returns (locations: seq<string>)
    ensures |locations| == |Select(page, LocationSelector(t), hm)|
    ensures forall i :: 0 <= i < |locations| ==> locations[i] == LocationText(Select(page, LocationSelector(t), hm)[i])
    ensures locations == Locations(page, t, hm)
  {
    locations := [];
    var locationTags := Select(page, LocationSelector(t), hm);
    for n := 0 to |locationTags|
      invariant |locations| == n
      invariant forall i :: 0 <= i < n ==> locations[i] == LocationText(locationTags[i])
    {
      var tag := locationTags[n];
      if tag.anchor.Some? {
        locations := locations + [Trim(tag.anchor.value.text)];
      } else {
        locations := locations + [Trim(tag.text)];
      }
    }
  }

  /** A cell whose link points at a detail page: it holds a link whose `href` contains the marker. */
  predicate IsDetailLink(c: Cell)
  {
    c.anchor.Some? && Contains(c.anchor.value.href, DetailMarker)
  }

  /** The `href`s of the cells that hold a detail-page link, in order; the other cells contribute nothing. */
  function DetailLinks(cells: seq<Cell>): (links: seq<string>)
    ensures |links| <= |cells|
    ensures forall i :: 0 <= i < |links| ==> Contains(links[i], DetailMarker)
  {
    if cells == [] then []
    else (if IsDetailLink(cells[0]) then [cells[0].anchor.value.href] else []) + DetailLinks(cells[1..])
  }

  /** `_extract_links`: the detail links of the code cells; never more than there are codes. */
  function ExtractLinks(page: Page, t: int, hm: HeadersMatch): (links: seq<string>)
    ensures |links| <= |ExtractCodes(page, t, hm)|
    ensures forall i :: 0 <= i < |links| ==> Contains(links[i], DetailMarker)
  {
    DetailLinks(Select(page, CodeSelector(t), hm))
  }

  /** `extract_table_data`: the codes, locations and links of table `t`; a method only because `ExtractLocations` is one. */
  method ExtractTableData(page: Page, t: int, hm: HeadersMatch)
    returns (codes: seq<string>, locations: seq<string>, links: seq<string>)
    ensures codes == ExtractCodes(page, t, hm)
    ensures locations == Locations(page, t, hm)
    ensures links == ExtractLinks(page, t, hm)
  {
    codes := ExtractCodes(page, t, hm);
    locations := ExtractLocations(page, t, hm);
    links := ExtractLinks(page, t, hm);
  }

  lemma {:induction false} DetailLinksAppend(a: seq<Cell>, b: seq<Cell>)
    ensures DetailLinks(a + b) == DetailLinks(a) + DetailLinks(b)
  {
    if a != [] {
      DetailLinksAppend(a[1..], b);
      assert (a + b)[1..] == a[1..] + b;
    } else {
      assert a + b == b;
    }
  }

  /** Locations are read cell by cell. */
  lemma LocationTextsAppend(a: seq<Cell>, b: seq<Cell>)
    ensures LocationTexts(a + b) == LocationTexts(a) + LocationTexts(b)
  {
    var l := LocationTexts(a + b);
    forall i | 0 <= i < |l| ensures l[i] == (LocationTexts(a) + LocationTexts(b))[i] {
      assert (a + b)[i] == if i < |a| then a[i] else b[i - |a|];
    }
  }

  /**
   * Each cell contributes on its own and in place: extracting from two pieces
   * of a page and concatenating gives what extracting from the whole page gives.
   */
  lemma ListingInDocumentOrder(a: Page, b: Page, t: int, hm: HeadersMatch)
    ensures ExtractCodes(a + b, t, hm) == ExtractCodes(a, t, hm) + ExtractCodes(b, t, hm)
    ensures Locations(a + b, t, hm) == Locations(a, t, hm) + Locations(b, t, hm)
    ensures ExtractLinks(a + b, t, hm) == ExtractLinks(a, t, hm) + ExtractLinks(b, t, hm)
  {
    var ca, cb := Select(a, CodeSelector(t), hm), Select(b, CodeSelector(t), hm);
    SelectAppend(a, b, CodeSelector(t), hm);
    TrimmedTextsAppend(ca, cb);
    var la, lb := Select(a, LocationSelector(t), hm), Select(b, LocationSelector(t), hm);
    SelectAppend(a, b, LocationSelector(t), hm);
    LocationTextsAppend(la, lb);
    DetailLinksAppend(ca, cb);
  }

  /** Every link is the `href` of a code cell that holds a detail link. */
  lemma {:induction false} LinksComeFromCodeCells(cells: seq<Cell>, i: nat)
    requires i < |DetailLinks(cells)|
    ensures exists j :: 0 <= j < |cells| && IsDetailLink(cells[j]) && cells[j].anchor.value.href == DetailLinks(cells)[i]
  {
    if IsDetailLink(cells[0]) && i == 0 {
      assert IsDetailLink(cells[0]);
    } else {
      var i' := if IsDetailLink(cells[0]) then i - 1 else i;
      LinksComeFromCodeCells(cells[1..], i');
      var j :| 0 <= j < |cells[1..]| && IsDetailLink(cells[1..][j]) && cells[1..][j].anchor.value.href == DetailLinks(cells[1..])[i'];
      assert cells[j + 1] == cells[1..][j];
    }
  }

  /**
   * When every code cell holds a detail link, the links line up with the
   * codes: as many of them, the `k`-th from the `k`-th code cell.
   */
  lemma {:induction false} LinksAlignWithCodes(cells: seq<Cell>)
    requires forall i :: 0 <= i < |cells| ==> IsDetailLink(cells[i])
    ensures |DetailLinks(cells)| == |cells|
    ensures forall i :: 0 <= i < |cells| ==> cells[i].anchor.Some? && DetailLinks(cells)[i] == cells[i].anchor.value.href
  {
    if cells != [] {
      LinksAlignWithCodes(cells[1..]);
    }
  }

  /**
   * A code cell without a detail link contributes no link: the links before
   * and after it join up, so there are fewer links than cells.
   */
  lemma MissingLinkDropsOut(cells: seq<Cell>, m: nat)
    requires m < |cells| && !IsDetailLink(cells[m])
    ensures DetailLinks(cells) == DetailLinks(cells[..m]) + DetailLinks(cells[m + 1..])
    ensures |DetailLinks(cells)| < |cells|
  {
    var rest := [cells[m]] + cells[m + 1..];
    assert cells == cells[..m] + rest;
    DetailLinksAppend(cells[..m], rest);
    assert rest[1..] == cells[m + 1..];
    assert DetailLinks(rest) == DetailLinks(cells[m + 1..]);
  }

  /**
   * Where link `i` comes from: a code cell `j` at or after position `i` that
   * holds a detail link, with exactly `i` links among the cells before it.
   */
  lemma {:induction false} LinkSource(cells: seq<Cell>, i: nat) returns (j: nat)
    requires i < |DetailLinks(cells)|
    ensures i <= j < |cells| && IsDetailLink(cells[j])
    ensures DetailLinks(cells)[i] == cells[j].anchor.value.href
    ensures |DetailLinks(cells[..j])| == i
  {
    if IsDetailLink(cells[0]) && i == 0 {
      j := 0;
      assert cells[..0] == [];
    } else {
      var i' := if IsDetailLink(cells[0]) then i - 1 else i;
      var j' := LinkSource(cells[1..], i');
      j := j' + 1;
      assert cells[..j] == [cells[0]] + cells[1..][..j'];
      DetailLinksAppend([cells[0]], cells[1..][..j']);
      assert [cells[0]][1..] == [];
    }
  }

  /** `link` is the detail link of a code cell after position `i`. */
  predicate FromLaterCell(cells: seq<Cell>, link: string, i: nat)
  {
    exists j :: i < j < |cells| && IsDetailLink(cells[j]) && link == cells[j].anchor.value.href
  }

  /** Once a code cell without a detail link has passed, every later link comes from a code cell further on than its own position. */
  lemma LinkAfterMissing(cells: seq<Cell>, m: nat, i: nat)
    requires m < |cells| && !IsDetailLink(cells[m])
    requires m <= i < |DetailLinks(cells)|
    ensures FromLaterCell(cells, DetailLinks(cells)[i], i)
  {
    var j := LinkSource(cells, i);
    if m < j {
      MissingLinkDropsOut(cells[..j], m);
    }
  }

  /**
   * A code cell `m` of table `t` without a detail link leaves fewer links
   * than codes, and every link from position `m` on comes from a later code
   * cell than its position: link `i` is paired with code `i` but belongs to
   * a different municipality.
   */
  lemma MissingLinkShiftsLinks(page: Page, t: int, hm: HeadersMatch, m: nat)
    requires var cells := Select(page, CodeSelector(t), hm);
      m < |cells| && !IsDetailLink(cells[m])
    ensures |ExtractLinks(page, t, hm)| < |ExtractCodes(page, t, hm)|
    ensures var cells, links := Select(page, CodeSelector(t), hm), ExtractLinks(page, t, hm);
      forall i :: m <= i < |links| ==> FromLaterCell(cells, links[i], i)
  {
    var cells, links := Select(page, CodeSelector(t), hm), ExtractLinks(page, t, hm);
    assert links == DetailLinks(cells);
    MissingLinkDropsOut(cells, m);
    forall i | m <= i < |links|
      ensures FromLaterCell(cells, links[i], i)
    {
      LinkAfterMissing(cells, m, i);
    }
  }
}
