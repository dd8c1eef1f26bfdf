/**
 * A parsed page as the scraper sees it: its table cells in document order.
 * Whether a cell's `headers` attribute matches a selector key is decided by
 * the HTML library, and is a parameter `hm` here.
 */
module Html {
  import opened Wrappers
  import opened Text

  /** The first `<a>` inside a cell: its text and its `href`. */
  datatype Anchor = Anchor(text: string, href: string)

  /** A `<td>`: its classes, its `headers` attribute, its `.text`, and its first `<a>`, if any. */
  datatype Cell = Cell(classes: set<string>, headers: string, text: string, anchor: Option<Anchor>)

  type Page = seq<Cell>

  /** `hm(headers, key)`: the library matches a cell whose `headers` attribute is `headers` against `key`. */
  type HeadersMatch = (string, string) -> bool

  /** `td.cls[headers='key']` when `cls` is given, `td[headers='key']` otherwise. */
  datatype Selector = Selector(cls: Option<string>, key: string)

  predicate Selects(sel: Selector, hm: HeadersMatch, c: Cell)
  {
    (sel.cls.Some? ==> sel.cls.value in c.classes) && hm(c.headers, sel.key)
  }

  /** `select(...)` / `find_all(...)`: the matching cells of the page, in document order. */
  function Select(page: Page, sel: Selector, hm: HeadersMatch): seq<Cell>
  {
    if page == [] then []
    else (if Selects(sel, hm, page[0]) then [page[0]] else []) + Select(page[1..], sel, hm)
  }

  /** Selection keeps only cells the selector matches, keeps every one of them, and never lengthens the page. */
  lemma {:induction false} SelectSpec(page: Page, sel: Selector, hm: HeadersMatch)
    ensures |Select(page, sel, hm)| <= |page|
    ensures forall c :: c in Select(page, sel, hm) ==> c in page && Selects(sel, hm, c)
    ensures forall i :: 0 <= i < |page| && Selects(sel, hm, page[i]) ==> page[i] in Select(page, sel, hm)
  {
    if page != [] {
      SelectSpec(page[1..], sel, hm);
      assert forall i :: 1 <= i < |page| ==> page[i] == page[1..][i - 1];
    }
  }

  /** Selection works cell by cell: selecting from two pieces of a page and concatenating keeps document order. */
  lemma {:induction false} SelectAppend(a: Page, b: Page, sel: Selector, hm: HeadersMatch)
    ensures Select(a + b, sel, hm) == Select(a, sel, hm) + Select(b, sel, hm)
  {
    if a != [] {
      SelectAppend(a[1..], b, sel, hm);
      assert (a + b)[0] == a[0];
      assert (a + b)[1..] == a[1..] + b;
    } else {
      assert a + b == b;
    }
  }

  /** `i` is the first position of the page whose cell `sel` matches. */
  predicate FirstSelected(page: Page, sel: Selector, hm: HeadersMatch, i: int)
  {
    0 <= i < |page| && Selects(sel, hm, page[i]) && forall j :: 0 <= j < i ==> !Selects(sel, hm, page[j])
  }

  /** `find(...)`: the position of the first matching cell, or `None` when no cell matches. */
  function FindFirst(page: Page, sel: Selector, hm: HeadersMatch): (r: Option<nat>)
    ensures r.None? <==> forall i :: 0 <= i < |page| ==> !Selects(sel, hm, page[i])
    ensures r.Some? ==> FirstSelected(page, sel, hm, r.value)
  {
    if page == [] then None
    else if Selects(sel, hm, page[0]) then Some(0)
    else
      assert forall i :: 1 <= i < |page| ==> page[i] == page[1..][i - 1];
      match FindFirst(page[1..], sel, hm)
      case None => None
      case Some(i) => Some(i + 1)
  }

  /** `find` returns the cell `select` would list first, and finds nothing exactly when `select` lists nothing. */
  lemma {:induction false} FindFirstHeadsSelect(page: Page, sel: Selector, hm: HeadersMatch)
    ensures FindFirst(page, sel, hm).None? <==> Select(page, sel, hm) == []
    ensures FindFirst(page, sel, hm).Some? ==> Select(page, sel, hm)[0] == page[FindFirst(page, sel, hm).value]
  {
    if page != [] && !Selects(sel, hm, page[0]) {
      FindFirstHeadsSelect(page[1..], sel, hm);
    }
  }

  /** `[tag.text.strip() for tag in cells]`. */
  function TrimmedTexts(cells: seq<Cell>): seq<string>
  {
    seq(|cells|, i requires 0 <= i < |cells| => Trim(cells[i].text))
  }

  /** Trimming works cell by cell. */
  lemma TrimmedTextsAppend(a: seq<Cell>, b: seq<Cell>)
    ensures TrimmedTexts(a + b) == TrimmedTexts(a) + TrimmedTexts(b)
  {
    var l := TrimmedTexts(a + b);
    forall i | 0 <= i < |l| ensures l[i] == (TrimmedTexts(a) + TrimmedTexts(b))[i] {
      assert (a + b)[i] == if i < |a| then a[i] else b[i - |a|];
    }
  }
}
