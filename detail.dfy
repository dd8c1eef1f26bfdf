/**
 * A municipality's detail page: registered voters, envelopes and valid votes,
 * and the votes per party read from the two party tables, merged into one
 * record whose values are text or `None`.
 */
module Detail {
  import opened Wrappers
  import opened Text
  import opened OrderedDict
  import opened Html

  /** A value of the record: Python text, or `None` for a figure the page does not have. */
  type Value = Option<string>

  const RegisteredKey := "Registered"
  const EnvelopesKey := "Envelopes"
  const ValidKey := "Valid"

  /** `find("td", {"class": "cislo"}, headers=key)`. */
  function NumericSelector(key: string): Selector
  {
    Selector(Some("cislo"), key)
  }

  /** `r` is the trimmed text of the first cell `sel` matches, or `None` when no cell matches. */
  ghost predicate IsFirstMatchText(page: Page, sel: Selector, hm: HeadersMatch, r: Value)
  {
    && (r.None? <==> forall i :: 0 <= i < |page| ==> !Selects(sel, hm, page[i]))
    && (r.Some? ==> exists i :: 0 <= i < |page| && FirstSelected(page, sel, hm, i) && r.value == Trim(page[i].text))
  }

  /** `tag.text.strip() if tag else None` for the first cell `sel` matches. */
  function FirstMatchText(page: Page, sel: Selector, hm: HeadersMatch): (r: Value)
    ensures IsFirstMatchText(page, sel, hm, r)
  {
    match FindFirst(page, sel, hm)
    case None => None
    case Some(i) => Some(Trim(page[i].text))
  }

  /** `_extract_registered_voters`: the first numeric cell headed `sa2`. */
  function ExtractRegisteredVoters(page: Page, hm: HeadersMatch): (r: Value)
    ensures IsFirstMatchText(page, NumericSelector("sa2"), hm, r)
  {
    FirstMatchText(page, NumericSelector("sa2"), hm)
  }

  /** `_extract_envelopes`: the first numeric cell headed `sa3`. */
  function ExtractEnvelopes(page: Page, hm: HeadersMatch): (r: Value)
    ensures IsFirstMatchText(page, NumericSelector("sa3"), hm, r)
  {
    FirstMatchText(page, NumericSelector("sa3"), hm)
  }

  /** `_extract_valid_votes`: the first numeric cell headed `sa6`. */
  function ExtractValidVotes(page: Page, hm: HeadersMatch): (r: Value)
    ensures IsFirstMatchText(page, NumericSelector("sa6"), hm, r)
  {
    FirstMatchText(page, NumericSelector("sa6"), hm)
  }

  /** `f"t{i}sa{a} t{i}sb{b}"`: a `headers` key of party table `i`. */
  function PartyTableKey(i: int, a: int, b: int): string
  {
    "t" + Decimal(i) + "sa" + Decimal(a) + " t" + Decimal(i) + "sb" + Decimal(b)
  }

  /** `td.overflow_name[headers='t{i}sa1 t{i}sb2']`: the party-name cells of table `i`. */
  function PartyNameSelector(i: int): Selector
  {
    Selector(Some("overflow_name"), PartyTableKey(i, 1, 2))
  }

  /** `td.cislo[headers='t{i}sa2 t{i}sb3']`: the vote cells of table `i`. */
  function PartyVoteSelector(i: int): Selector
  {
    Selector(Some("cislo"), PartyTableKey(i, 2, 3))
  }

  function PartyNames(page: Page, i: int, hm: HeadersMatch): seq<string>
  {
    TrimmedTexts(Select(page, PartyNameSelector(i), hm))
  }

  function PartyVotes(page: Page, i: int, hm: HeadersMatch): seq<string>
  {
    TrimmedTexts(Select(page, PartyVoteSelector(i), hm))
  }

  /** `zip(a, b)`: pairs `a[j]` with `b[j]`, stopping at the end of the shorter sequence. */
  function Zip<A, B>(a: seq<A>, b: seq<B>): (r: seq<(A, B)>)
    ensures |r| == if |a| < |b| then |a| else |b|
    ensures forall j :: 0 <= j < |r| ==> r[j] == (a[j], b[j])
  {
    if a == [] || b == [] then []
    else [(a[0], b[0])] + Zip(a[1..], b[1..])
  }

  /** `zip(party_names, party_votes)` for table `i`. */
  function PartyPairs(page: Page, i: int, hm: HeadersMatch): seq<(string, string)>
  {
    Zip(PartyNames(page, i, hm), PartyVotes(page, i, hm))
  }

  /** `party_results` once tables `1..n` have been merged in, one after another. */
  function PartyResultsThrough(page: Page, hm: HeadersMatch, n: nat): Dict<string>
  {
    if n == 0 then []
    else PutAll(PartyResultsThrough(page, hm, n - 1), FromPairs(PartyPairs(page, n, hm)))
  }

  /** `_extract_party_results`: `party_results.update(dict(zip(names, votes)))` for tables 1 and 2. */
  method ExtractPartyResults(page: Page, hm: HeadersMatch) returns (partyResults: Dict<string>)
    ensures partyResults == PartyResultsThrough(page, hm, 2)
  {
    partyResults := [];
    for partyTableIndex := 1 to 3
      invariant partyResults == PartyResultsThrough(page, hm, partyTableIndex - 1)
    {
      var partyNames := TrimmedTexts(Select(page, PartyNameSelector(partyTableIndex), hm));
      var partyVotes := TrimmedTexts(Select(page, PartyVoteSelector(partyTableIndex), hm));
      partyResults := PutAll(partyResults, FromPairs(Zip(partyNames, partyVotes)));
    }
  }

  /**
   * The party results are what inserting the pairs of table 1 and then those
   * of table 2 into an empty dict, one by one, gives.
   */
  lemma PartyResultsAreInsertedPairs(page: Page, hm: HeadersMatch)
    ensures PartyResultsThrough(page, hm, 2) == FromPairs(PartyPairs(page, 1, hm) + PartyPairs(page, 2, hm))
  {
    var p1, p2 := PartyPairs(page, 1, hm), PartyPairs(page, 2, hm);
    assert PartyResultsThrough(page, hm, 1) == PutAll([], FromPairs(p1));
    assert PartyResultsThrough(page, hm, 2) == PutAll(PartyResultsThrough(page, hm, 1), FromPairs(p2));
    UpdateWithDictOfPairs([], p1);
    PutAllKeys([], p1);
    UpdateWithDictOfPairs(FromPairs(p1), p2);
    PutAllConcat([], p1, p2);
  }

  /**
   * The keys of the party results are the party names that have a vote, each
   * once, in order of first appearance over table 1 then table 2; a name's
   * vote is the last one paired with it, so table 2 wins over table 1 and a
   * later row over an earlier one.
   */
  lemma PartyResultsKeysAndVotes(page: Page, hm: HeadersMatch, name: string)
    ensures Valid(PartyResultsThrough(page, hm, 2))
    ensures Keys(PartyResultsThrough(page, hm, 2)) == AppendNew([], Keys(PartyPairs(page, 1, hm) + PartyPairs(page, 2, hm)))
    ensures Get(PartyResultsThrough(page, hm, 2), name) == LastValue(PartyPairs(page, 1, hm) + PartyPairs(page, 2, hm), name)
  {
    var ps := PartyPairs(page, 1, hm) + PartyPairs(page, 2, hm);
    PartyResultsAreInsertedPairs(page, hm);
    PutAllKeys([], ps);
    PutAllGet([], ps, name);
  }

  /** The key of pair `k` of two zipped tables is a name of one of them that has a vote beside it. */
  lemma ZippedKeyIsPairedName(names1: seq<string>, votes1: seq<string>, names2: seq<string>, votes2: seq<string>, k: nat)
    requires k < |Zip(names1, votes1) + Zip(names2, votes2)|
    ensures var name := (Zip(names1, votes1) + Zip(names2, votes2))[k].0;
      || (exists j :: 0 <= j < |votes1| && j < |names1| && names1[j] == name)
      || (exists j :: 0 <= j < |votes2| && j < |names2| && names2[j] == name)
  {
    var p1, p2 := Zip(names1, votes1), Zip(names2, votes2);
    if k < |p1| {
      assert (p1 + p2)[k] == p1[k] == (names1[k], votes1[k]);
    } else {
      var j := k - |p1|;
      assert (p1 + p2)[k] == p2[j] == (names2[j], votes2[j]);
    }
  }

  /** Every party key is a name read from table 1 or table 2, within the part of that table that has votes. */
  lemma PartyKeysComeFromTables(page: Page, hm: HeadersMatch, name: string)
    requires name in Keys(PartyResultsThrough(page, hm, 2))
    ensures exists i, j :: 1 <= i <= 2 && 0 <= j < |PartyVotes(page, i, hm)| && j < |PartyNames(page, i, hm)| && PartyNames(page, i, hm)[j] == name
  {
    var ps := PartyPairs(page, 1, hm) + PartyPairs(page, 2, hm);
    PartyResultsAreInsertedPairs(page, hm);
    PutAllKeys([], ps);
    var k := IndexOf(Keys(ps), name).value;
    ZippedKeyIsPairedName(PartyNames(page, 1, hm), PartyVotes(page, 1, hm), PartyNames(page, 2, hm), PartyVotes(page, 2, hm), k);
  }

  lemma {:induction false} LastValueConcat(a: seq<(string, string)>, b: seq<(string, string)>, k: string)
    ensures LastValue(a + b, k) == if k in Keys(b) then LastValue(b, k) else LastValue(a, k)
  {
    if b == [] {
      assert a + b == a;
    } else {
      var n := |b| - 1;
      LastValueConcat(a, b[..n], k);
      assert (a + b)[..|a + b| - 1] == a + b[..n];
      assert Keys(b) == Keys(b[..n]) + [b[n].0];
    }
  }

  /** A party paired with a vote in table 2 ends with table 2's vote, whatever table 1 said. */
  lemma SecondTableWins(page: Page, hm: HeadersMatch, name: string)
    requires name in Keys(PartyPairs(page, 2, hm))
    ensures Get(PartyResultsThrough(page, hm, 2), name) == LastValue(PartyPairs(page, 2, hm), name)
  {
    PartyResultsKeysAndVotes(page, hm, name);
    LastValueConcat(PartyPairs(page, 1, hm), PartyPairs(page, 2, hm), name);
  }

  /** The party results with their values as record values. */
  function AsValues(d: Dict<string>): (r: Dict<Value>)
    ensures Keys(r) == Keys(d)
  {
    seq(|d|, i requires 0 <= i < |d| => (d[i].0, Some(d[i].1)))
  }

  /** `{"Registered": ..., "Envelopes": ..., "Valid": ..., **party_results}`. */
  function DetailRecord(page: Page, hm: HeadersMatch): Dict<Value>
  {
    var scalars := [(RegisteredKey, ExtractRegisteredVoters(page, hm)),
                    (EnvelopesKey, ExtractEnvelopes(page, hm)),
                    (ValidKey, ExtractValidVotes(page, hm))];
    PutAll(scalars, AsValues(PartyResultsThrough(page, hm, 2)))
  }

  /** `extract_detail_page_data`; a method only because `ExtractPartyResults` is one. */
  method ExtractDetailPageData(page: Page, hm: HeadersMatch) returns (record: Dict<Value>)
    ensures record == DetailRecord(page, hm)
  {
    var registered := ExtractRegisteredVoters(page, hm);
    var envelopes := ExtractEnvelopes(page, hm);
    var valid := ExtractValidVotes(page, hm);
    var partyResults := ExtractPartyResults(page, hm);
    record := PutAll([(RegisteredKey, registered), (EnvelopesKey, envelopes), (ValidKey, valid)], AsValues(partyResults));
  }

  /**
   * The record's keys are `Registered`, `Envelopes`, `Valid`, in that order,
   * then the party names not among them; each key once.
   */
  lemma DetailRecordKeys(page: Page, hm: HeadersMatch)
    ensures Valid(DetailRecord(page, hm))
    ensures Keys(DetailRecord(page, hm)) == AppendNew([RegisteredKey, EnvelopesKey, ValidKey], Keys(PartyResultsThrough(page, hm, 2)))
    ensures |Keys(DetailRecord(page, hm))| >= 3
    ensures Keys(DetailRecord(page, hm))[..3] == [RegisteredKey, EnvelopesKey, ValidKey]
  {
    var scalars := [(RegisteredKey, ExtractRegisteredVoters(page, hm)),
                    (EnvelopesKey, ExtractEnvelopes(page, hm)),
                    (ValidKey, ExtractValidVotes(page, hm))];
    assert Keys(scalars) == [RegisteredKey, EnvelopesKey, ValidKey];
    PutAllKeys(scalars, AsValues(PartyResultsThrough(page, hm, 2)));
  }

  /** Lookups in the party results seen as record values. */
  lemma GetAsValues(d: Dict<string>, k: string)
    ensures Get(AsValues(d), k) == if k in Keys(d) then Some(Get(d, k)) else None
  {
  }

  /** Merging the party results into a record: a party's votes replace the value of a key it shares. */
  lemma {:induction false} GetAfterParties(scalars: Dict<Value>, parties: Dict<string>, k: string)
    requires Valid(parties)
    ensures Get(PutAll(scalars, AsValues(parties)), k) == if k in Keys(parties) then Some(Get(parties, k)) else Get(scalars, k)
  {
    var lifted := AsValues(parties);
    PutAllGet(scalars, lifted, k);
    if k in Keys(parties) {
      LastValueOfValid(lifted, k);
      GetAsValues(parties, k);
    }
  }

  /**
   * A scalar field keeps the extracted figure unless a party bears the same
   * name, in which case that party's votes overwrite it (its position stays first).
   */
  lemma DetailRecordValues(page: Page, hm: HeadersMatch)
    ensures var parties := PartyResultsThrough(page, hm, 2);
      Get(DetailRecord(page, hm), RegisteredKey) ==
        if RegisteredKey in Keys(parties) then Some(Get(parties, RegisteredKey)) else Some(ExtractRegisteredVoters(page, hm))
    ensures var parties := PartyResultsThrough(page, hm, 2);
      Get(DetailRecord(page, hm), EnvelopesKey) ==
        if EnvelopesKey in Keys(parties) then Some(Get(parties, EnvelopesKey)) else Some(ExtractEnvelopes(page, hm))
    ensures var parties := PartyResultsThrough(page, hm, 2);
      Get(DetailRecord(page, hm), ValidKey) ==
        if ValidKey in Keys(parties) then Some(Get(parties, ValidKey)) else Some(ExtractValidVotes(page, hm))
  {
    var parties := PartyResultsThrough(page, hm, 2);
    var scalars := [(RegisteredKey, ExtractRegisteredVoters(page, hm)),
                    (EnvelopesKey, ExtractEnvelopes(page, hm)),
                    (ValidKey, ExtractValidVotes(page, hm))];
    assert Keys(scalars) == [RegisteredKey, EnvelopesKey, ValidKey];
    assert Get(scalars, RegisteredKey) == Some(ExtractRegisteredVoters(page, hm));
    assert Get(scalars, EnvelopesKey) == Some(ExtractEnvelopes(page, hm));
    assert Get(scalars, ValidKey) == Some(ExtractValidVotes(page, hm));
    PartyResultsKeysAndVotes(page, hm, RegisteredKey);
    GetAfterParties(scalars, parties, RegisteredKey);
    GetAfterParties(scalars, parties, EnvelopesKey);
    GetAfterParties(scalars, parties, ValidKey);
  }
}
