/**
 * The Wiktionary lookup tables: the fold of OntoWiktionary Lexicalization
 * records into a headword -> part of speech -> sense -> definition map, and the
 * keyword search that picks the most likely sense among senses "1".."9".
 */
module WiktionaryDict {
  import opened Outcomes
  import opened Strings

  /** One Lexicalization element of the dump: its XML attributes and its text. */
  datatype Lexicalization = Lexicalization(attributes: map<string, string>, text: string)

  /** sense key -> definition text */
  type Senses = map<string, string>

  /** headword -> part of speech -> sense key -> definition text */
  type Ontology = map<string, map<string, Senses>>

  /** The KeyError of reading an attribute the element does not carry. */
  datatype LoadError = MissingAttribute(name: string)

  // ----------------------------------------------------------------------
  // load_ontology
  // ----------------------------------------------------------------------

  /** id.split(":")[-1] */
  function SenseKey(id: string): string {
    var parts := SplitOn(id, ':');
    parts[|parts| - 1]
  }

  /** The sense key is the longest suffix of the id without a colon: all of the id when it has none. */
  lemma SenseKeyIsLastField(id: string)
    ensures |SenseKey(id)| <= |id| && SenseKey(id) == id[|id| - |SenseKey(id)|..]
    ensures ':' !in SenseKey(id)
    ensures |SenseKey(id)| < |id| ==> id[|id| - |SenseKey(id)| - 1] == ':'
    ensures ':' !in id ==> SenseKey(id) == id
  {
    SplitOnLast(id, ':');
    var parts := SplitOn(id, ':');
    assert |parts| > 1 ==> id[|id| - |SenseKey(id)| - 1] in id;
  }

  /** The record carries the three attributes load_ontology reads. */
  predicate Complete(record: Lexicalization) {
    "lemma" in record.attributes && "pos" in record.attributes && "id" in record.attributes
  }

  /** The first of headword, pos and id, in reading order, that the record lacks. */
  function MissingOf(record: Lexicalization): LoadError
    requires !Complete(record)
  {
    if "lemma" !in record.attributes then MissingAttribute("lemma")
    else if "pos" !in record.attributes then MissingAttribute("pos")
    else MissingAttribute("id")
  }

  /** The record defines the entry (headword, pos, sense). */
  predicate Names(record: Lexicalization, headword: string, pos: string, sense: string) {
    && Complete(record)
    && record.attributes["lemma"] == headword && record.attributes["pos"] == pos
    && SenseKey(record.attributes["id"]) == sense
  }

  /** wiki_dict[headword][pos][sense] = text, creating the inner maps on first sight. */
  function Insert(d: Ontology, headword: string, pos: string, sense: string, text: string): Ontology {
    var byPos := if headword in d then d[headword] else map[];
    var senses := if pos in byPos then byPos[pos] else map[];
    d[headword := byPos[pos := senses[sense := text]]]
  }

  /** The entry at (headword, pos, sense), if there is one. */
  function Lookup(d: Ontology, headword: string, pos: string, sense: string): Option<string> {
    if headword in d && pos in d[headword] && sense in d[headword][pos] then Some(d[headword][pos][sense]) else None
  }

  /** The records folded in order into the empty map; the first incomplete record raises. */
  function Fold(records: seq<Lexicalization>): Result<Ontology, LoadError>
    decreases |records|
  {
    if |records| == 0 then Ok(map[])
    else
      match Fold(records[..|records| - 1])
      case Err(e) => Err(e)
      case Ok(d) =>
        var r := records[|records| - 1];
        if !Complete(r) then Err(MissingOf(r))
        else Ok(Insert(d, r.attributes["lemma"], r.attributes["pos"], SenseKey(r.attributes["id"]), r.text))
  }

  /** Once a prefix of the records has raised, the whole fold raises the same error. */
  lemma {:induction false} FoldErrorStays(records: seq<Lexicalization>, k: int)
    requires 0 <= k <= |records|
    requires Fold(records[..k]).Err?
    ensures Fold(records) == Fold(records[..k])
    decreases |records| - k
  {
    if k < |records| {
      var init := records[..|records| - 1];
      assert init[..k] == records[..k];
      FoldErrorStays(init, k);
    } else {
      assert records[..k] == records;
    }
  }

  /** load_ontology over the Lexicalization records, with the nested maps updated in place. */
  method LoadOntology(records: seq<Lexicalization>) returns (r: Result<Ontology, LoadError>)
    ensures r == Fold(records)
  {
    var wiki: Ontology := map[];
    for k := 0 to |records|
      invariant Fold(records[..k]) == Ok(wiki)
    {
      var record := records[k];
      assert records[..k + 1][..k] == records[..k];
      if "lemma" !in record.attributes || "pos" !in record.attributes || "id" !in record.attributes {
        FoldErrorStays(records, k + 1);
        return Err(MissingOf(record));
      }
      var headword := record.attributes["lemma"];
      var pos := record.attributes["pos"];
      var sense := SenseKey(record.attributes["id"]);
      ghost var before := wiki;
      ghost var byPos := if headword in before then before[headword] else map[];
      ghost var senses := if pos in byPos then byPos[pos] else map[];
      if headword !in wiki {
        wiki := wiki[headword := map[]];
      }
      assert wiki[headword] == byPos;
      if pos !in wiki[headword] {
        wiki := wiki[headword := wiki[headword][pos := map[]]];
      }
      assert wiki[headword][pos] == senses;
      assert wiki[headword][pos := senses[sense := record.text]] == byPos[pos := senses[sense := record.text]];
      assert wiki[headword := byPos[pos := senses[sense := record.text]]]
          == before[headword := byPos[pos := senses[sense := record.text]]];
      wiki := wiki[headword := wiki[headword][pos := wiki[headword][pos][sense := record.text]]];
      assert wiki == Insert(before, headword, pos, sense, record.text);
    }
    assert records[..|records|] == records;
    return Ok(wiki);
  }

  /** Loading fails exactly when some record is incomplete, and then with the first one's missing attribute. */
  lemma {:induction false} FoldFails(records: seq<Lexicalization>)
    ensures Fold(records).Ok? <==> forall k :: 0 <= k < |records| ==> Complete(records[k])
    ensures Fold(records).Err? ==>
      exists k :: 0 <= k < |records| && !Complete(records[k]) && Fold(records).error == MissingOf(records[k])
        && forall t :: 0 <= t < k ==> Complete(records[t])
    decreases |records|
  {
    if |records| > 0 {
      var init := records[..|records| - 1];
      FoldFails(init);
      if Fold(init).Err? {
        var k :| 0 <= k < |init| && !Complete(init[k]) && Fold(init).error == MissingOf(init[k])
          && forall t :: 0 <= t < k ==> Complete(init[t]);
        assert records[k] == init[k];
        assert forall t :: 0 <= t < k ==> records[t] == init[t];
      } else {
        assert forall t :: 0 <= t < |init| ==> records[t] == init[t];
      }
    }
  }

  /** Inserting sets one entry and leaves every other entry as it was. */
  lemma InsertLookup(d: Ontology, headword: string, pos: string, sense: string, text: string,
                     headword': string, pos': string, sense': string)
    ensures Lookup(Insert(d, headword, pos, sense, text), headword', pos', sense') ==
      if headword' == headword && pos' == pos && sense' == sense then Some(text) else Lookup(d, headword', pos', sense')
  {
  }

  /** After loading, an entry is absent exactly when no record names it. */
  lemma {:induction false} LastRecordWins(records: seq<Lexicalization>, headword: string, pos: string, sense: string)
    requires Fold(records).Ok?
    ensures Lookup(Fold(records).value, headword, pos, sense).None? <==>
      forall k :: 0 <= k < |records| ==> !Names(records[k], headword, pos, sense)
    decreases |records|
  {
    if |records| > 0 {
      var init := records[..|records| - 1];
      var before := FoldStep(records, headword, pos, sense);
      LastRecordWins(init, headword, pos, sense);
      assert forall k :: 0 <= k < |init| ==> records[k] == init[k];
    }
  }

  /** A present entry holds the text of the last record that names it; k is that record. */
  lemma {:induction false} LastNamingRecord(records: seq<Lexicalization>, headword: string, pos: string, sense: string)
    returns (k: int)
    requires Fold(records).Ok? && Lookup(Fold(records).value, headword, pos, sense).Some?
    ensures 0 <= k < |records| && Names(records[k], headword, pos, sense)
    ensures Lookup(Fold(records).value, headword, pos, sense) == Some(records[k].text)
    ensures forall later :: k < later < |records| ==> !Names(records[later], headword, pos, sense)
    decreases |records|
  {
    var init := records[..|records| - 1];
    var before := FoldStep(records, headword, pos, sense);
    if Names(records[|records| - 1], headword, pos, sense) {
      k := |records| - 1;
    } else {
      k := LastNamingRecord(init, headword, pos, sense);
      assert records[k] == init[k];
      assert forall later :: k < later < |init| ==> records[later] == init[later];
    }
  }

  /** One step of the fold: the entry after the last record, from the entry before it. */
  lemma FoldStep(records: seq<Lexicalization>, headword: string, pos: string, sense: string) returns (before: Option<string>)
    requires |records| > 0 && Fold(records).Ok?
    ensures Fold(records[..|records| - 1]).Ok?
    ensures before == Lookup(Fold(records[..|records| - 1]).value, headword, pos, sense)
    ensures Lookup(Fold(records).value, headword, pos, sense) ==
      if Names(records[|records| - 1], headword, pos, sense) then Some(records[|records| - 1].text) else before
  {
    var last := records[|records| - 1];
    var d := Fold(records[..|records| - 1]).value;
    var key := SenseKey(last.attributes["id"]);
    InsertLookup(d, last.attributes["lemma"], last.attributes["pos"], key, last.text, headword, pos, sense);
    before := Lookup(d, headword, pos, sense);
  }

  /** Every headword and every (headword, pos) key of the loaded map comes from some record, and every record's keys are there. */
  lemma {:induction false} KeysFromRecords(records: seq<Lexicalization>, headword: string, pos: string)
    requires Fold(records).Ok?
    ensures headword in Fold(records).value <==>
      exists k :: 0 <= k < |records| && Complete(records[k]) && records[k].attributes["lemma"] == headword
    ensures headword in Fold(records).value && pos in Fold(records).value[headword] <==>
      exists k :: 0 <= k < |records| && Complete(records[k]) && records[k].attributes["lemma"] == headword && records[k].attributes["pos"] == pos
    decreases |records|
  {
    if |records| > 0 {
      var init := records[..|records| - 1];
      FoldFails(records);
      FoldFails(init);
      KeysFromRecords(init, headword, pos);
      assert forall k :: 0 <= k < |init| ==> records[k] == init[k];
      assert records == init + [records[|records| - 1]];
    }
  }

  // ----------------------------------------------------------------------
  // getMostLikelyDefinition
  // ----------------------------------------------------------------------

  /** The KeyError of reading a sense the definitions do not have. */
  datatype LookupError = MissingSense(key: string)

  /** str(i) for a one-digit i. */
  function SenseName(i: int): (name: string)
    requires 1 <= i <= 9
    ensures |name| == 1 && '1' <= name[0] <= '9'
  {
    [('0' as int + i) as char]
  }

  /** Some keyword is a substring of the text. */
  predicate AnyKeywordIn(keywords: seq<string>, text: string) {
    exists k :: 0 <= k < |keywords| && IsSubstring(keywords[k], text)
  }

  /**
   * The inner loop over the keywords for sense i: the sense is read once per keyword, so it
   * raises only when there is a keyword to test.
   */
  function SenseMatches(definitions: Senses, keywords: seq<string>, i: int): Result<bool, LookupError>
    requires 1 <= i <= 9
  {
    if |keywords| == 0 then Ok(false)
    else if SenseName(i) !in definitions then Err(MissingSense(SenseName(i)))
    else Ok(AnyKeywordIn(keywords, definitions[SenseName(i)]))
  }

  /** The outer loop from sense i to sense 9: the first matching sense, or None. */
  function SearchFrom(definitions: Senses, keywords: seq<string>, i: int): Result<Option<string>, LookupError>
    requires 1 <= i <= 10
    decreases 10 - i
  {
    if i == 10 then Ok(None)
    else
      match SenseMatches(definitions, keywords, i)
      case Err(e) => Err(e)
      case Ok(found) =>
        if found then Ok(Some(definitions[SenseName(i)])) else SearchFrom(definitions, keywords, i + 1)
  }

  /** getMostLikelyDefinition: the first of senses 1..9 containing a keyword, else sense "1". */
  function MostLikelyDefinition(definitions: Senses, keywords: seq<string>): Result<string, LookupError> {
    match SearchFrom(definitions, keywords, 1)
    case Err(e) => Err(e)
    case Ok(Some(definition)) => Ok(definition)
    case Ok(None) => if "1" in definitions then Ok(definitions["1"]) else Err(MissingSense("1"))
  }

  /** Sense i exists and contains a keyword. */
  predicate Matches(definitions: Senses, keywords: seq<string>, i: int)
    requires 1 <= i <= 9
  {
    SenseName(i) in definitions && AnyKeywordIn(keywords, definitions[SenseName(i)])
  }

  /** Senses i up to m - 1 all exist and none contains a keyword. */
  predicate Clear(definitions: Senses, keywords: seq<string>, i: int, m: int)
    requires 1 <= i <= m <= 10
  {
    forall j :: i <= j < m ==> SenseName(j) in definitions && !Matches(definitions, keywords, j)
  }

  /** With senses i..m-1 present and unmatched, the search from i is decided at sense m. */
  lemma {:induction false} SearchDecidedAt(definitions: Senses, keywords: seq<string>, i: int, m: int)
    requires |keywords| > 0
    requires 1 <= i <= m <= 10
    requires Clear(definitions, keywords, i, m)
    ensures m == 10 ==> SearchFrom(definitions, keywords, i) == Ok(None)
    ensures m < 10 && Matches(definitions, keywords, m) ==>
      SearchFrom(definitions, keywords, i) == Ok(Some(definitions[SenseName(m)]))
    ensures m < 10 && SenseName(m) !in definitions ==>
      SearchFrom(definitions, keywords, i) == Err(MissingSense(SenseName(m)))
    decreases m - i
  {
    if i < m {
      assert SenseName(i) in definitions && !Matches(definitions, keywords, i);
      SearchDecidedAt(definitions, keywords, i + 1, m);
    }
  }

  /** The first sense among 1..9 that contains a keyword is returned. */
  lemma FirstMatchingSense(definitions: Senses, keywords: seq<string>, m: int)
    requires 1 <= m <= 9
    requires Clear(definitions, keywords, 1, m) && Matches(definitions, keywords, m)
    ensures MostLikelyDefinition(definitions, keywords) == Ok(definitions[SenseName(m)])
  {
    assert |keywords| > 0;
    SearchDecidedAt(definitions, keywords, 1, m);
  }

  /** When senses 1..9 all exist and none contains a keyword, sense "1" is returned. */
  lemma NoMatchFallsBack(definitions: Senses, keywords: seq<string>)
    requires |keywords| > 0
    requires Clear(definitions, keywords, 1, 10)
    ensures "1" in definitions
    ensures MostLikelyDefinition(definitions, keywords) == Ok(definitions["1"])
  {
    SearchDecidedAt(definitions, keywords, 1, 10);
    assert SenseName(1) == "1";
  }

  /** A sense missing before any match is reached raises a KeyError for it. */
  lemma MissingSenseRaises(definitions: Senses, keywords: seq<string>, m: int)
    requires |keywords| > 0
    requires 1 <= m <= 9
    requires Clear(definitions, keywords, 1, m) && SenseName(m) !in definitions
    ensures MostLikelyDefinition(definitions, keywords) == Err(MissingSense(SenseName(m)))
  {
    SearchDecidedAt(definitions, keywords, 1, m);
  }

  /** With no keywords, sense "1" is read and nothing else. */
  lemma {:induction false} NoKeywordsReadsSenseOne(definitions: Senses)
    ensures MostLikelyDefinition(definitions, []) ==
      if "1" in definitions then Ok(definitions["1"]) else Err(MissingSense("1"))
  {
    NoKeywordsSearch(definitions, 1);
  }

  /** Without keywords no sense is read by the loop, and it finds nothing. */
  lemma {:induction false} NoKeywordsSearch(definitions: Senses, i: int)
    requires 1 <= i <= 10
    ensures SearchFrom(definitions, [], i) == Ok(None)
    decreases 10 - i
  {
    if i < 10 {
      NoKeywordsSearch(definitions, i + 1);
    }
  }

  /** Senses agreeing on keys "1".."9" give the same search from sense i on. */
  lemma {:induction false} SearchAgrees(d1: Senses, d2: Senses, keywords: seq<string>, i: int)
    requires 1 <= i <= 10
    requires forall j :: 1 <= j <= 9 ==>
      (SenseName(j) in d1 <==> SenseName(j) in d2) && (SenseName(j) in d1 ==> d1[SenseName(j)] == d2[SenseName(j)])
    ensures SearchFrom(d1, keywords, i) == SearchFrom(d2, keywords, i)
    decreases 10 - i
  {
    if i < 10 {
      SearchAgrees(d1, d2, keywords, i + 1);
    }
  }

  /** Only senses "1".."9" are examined: definitions agreeing on them give the same answer. */
  lemma OnlyFirstNineSenses(d1: Senses, d2: Senses, keywords: seq<string>)
    requires forall j :: 1 <= j <= 9 ==>
      (SenseName(j) in d1 <==> SenseName(j) in d2) && (SenseName(j) in d1 ==> d1[SenseName(j)] == d2[SenseName(j)])
    ensures MostLikelyDefinition(d1, keywords) == MostLikelyDefinition(d2, keywords)
  {
    SearchAgrees(d1, d2, keywords, 1);
    assert SenseName(1) == "1";
  }
}
