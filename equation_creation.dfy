/**
 * Building the equation table from dictionary definitions: the distinct
 * values of a CSV column, the "not quite" token rewriter, the stem-based link
 * finder and the row emission of create_equations, which writes for every
 * extracted score a forward row followed by its deduced mirror row.
 */
module EquationCreation {
  import opened Outcomes
  import opened Strings

  /** The anchor pseudo-word that stands for the highest intensity of the property. */
  const HighProp: string := "high_prop"

  // ----------------------------------------------------------------------
  // get_csv_column
  // ----------------------------------------------------------------------

  /** A CSV record as csv.DictReader yields it: field name -> text. */
  type Row = map<string, string>

  datatype CsvError = MissingColumn(name: string)

  /** Every row has the given field. */
  predicate HasColumn(column: string, rows: seq<Row>) {
    forall k :: 0 <= k < |rows| ==> column in rows[k]
  }

  /** The column's values, one per row, in file order. */
  function ColumnValues(column: string, rows: seq<Row>): (vs: seq<string>)
    requires HasColumn(column, rows)
    ensures |vs| == |rows|
    ensures forall k :: 0 <= k < |rows| ==> vs[k] == rows[k][column]
  {
    seq(|rows|, k requires 0 <= k < |rows| => rows[k][column])
  }

  /** The distinct elements of xs, in order of first appearance (the keys of an OrderedDict fed with xs). */
  function Distinct(xs: seq<string>): seq<string>
    decreases |xs|
  {
    if |xs| == 0 then []
    else
      var d := Distinct(xs[..|xs| - 1]);
      if xs[|xs| - 1] in d then d else d + [xs[|xs| - 1]]
  }

  /** The index of the first occurrence of v in xs. */
  function FirstIndex(xs: seq<string>, v: string): (k: nat)
    requires v in xs
    ensures k < |xs| && xs[k] == v && v !in xs[..k]
    decreases |xs|
  {
    if v in xs[..|xs| - 1] then FirstIndex(xs[..|xs| - 1], v) else |xs| - 1
  }

  /** Distinct keeps exactly the values of xs, each once, ordered by where each first appears. */
  lemma {:induction false} DistinctSpec(xs: seq<string>)
    ensures forall v :: v in Distinct(xs) <==> v in xs
    ensures forall p, q :: 0 <= p < q < |Distinct(xs)| ==> Distinct(xs)[p] != Distinct(xs)[q]
    ensures forall p, q :: 0 <= p < q < |Distinct(xs)| ==>
      FirstIndex(xs, Distinct(xs)[p]) < FirstIndex(xs, Distinct(xs)[q])
    decreases |xs|
  {
    if |xs| > 0 {
      var init := xs[..|xs| - 1];
      DistinctSpec(init);
      assert xs == init + [xs[|xs| - 1]];
      var d := Distinct(xs);
      forall p | 0 <= p < |d| ensures d[p] in init ==> FirstIndex(xs, d[p]) == FirstIndex(init, d[p]) {
      }
    }
  }

  /** get_csv_column: the distinct values of a column in first-appearance order; a row without the field is a KeyError. */
  method GetCsvColumn(column: string, rows: seq<Row>) returns (r: Result<seq<string>, CsvError>)
    ensures !HasColumn(column, rows) ==> r == Err(MissingColumn(column))
    ensures HasColumn(column, rows) ==> r == Ok(Distinct(ColumnValues(column, rows)))
  {
    var keys: seq<string> := [];
    for k := 0 to |rows|
      invariant HasColumn(column, rows[..k])
      invariant keys == Distinct(ColumnValues(column, rows[..k]))
    {
      if column !in rows[k] {
        return Err(MissingColumn(column));
      }
      var v := rows[k][column];
      assert ColumnValues(column, rows[..k + 1])[..k] == ColumnValues(column, rows[..k]);
      if v !in keys {
        keys := keys + [v];
      }
    }
    assert rows[..|rows|] == rows;
    return Ok(keys);
  }

  /** The words create_equations links against: the Word column, then the anchor unless already present. */
  function WordSet(rows: seq<Row>): seq<string>
    requires HasColumn("Word", rows)
  {
    Distinct(ColumnValues("Word", rows) + [HighProp])
  }

  /** The linking words are the distinct Word values and the anchor, each once, in first-appearance order. */
  lemma WordSetMembers(rows: seq<Row>)
    requires HasColumn("Word", rows)
    ensures forall w :: w in WordSet(rows) <==> w == HighProp || exists k :: 0 <= k < |rows| && rows[k]["Word"] == w
    ensures forall p, q :: 0 <= p < q < |WordSet(rows)| ==> WordSet(rows)[p] != WordSet(rows)[q]
    ensures WordSet(rows) == Distinct(ColumnValues("Word", rows)) + (if HighProp in Distinct(ColumnValues("Word", rows)) then [] else [HighProp])
  {
    var vs := ColumnValues("Word", rows);
    DistinctSpec(vs + [HighProp]);
    assert (vs + [HighProp])[..|vs|] == vs;
    forall w | w in vs + [HighProp] ensures w == HighProp || exists k :: 0 <= k < |rows| && rows[k]["Word"] == w {
      if w != HighProp {
        var k :| 0 <= k < |vs| + 1 && (vs + [HighProp])[k] == w;
        assert rows[k]["Word"] == w;
      }
    }
  }

  // ----------------------------------------------------------------------
  // combine_words
  // ----------------------------------------------------------------------

  /**
   * The tokens combine_words produces: each adjacent pair a b, scanned left to right
   * without overlap, becomes the one token a_b; a final unpaired token equal to
   * "quite" is dropped, whatever a and b are.
   */
  function Combined(ts: seq<string>, a: string, b: string): seq<string>
    decreases |ts|
  {
    if |ts| == 0 then []
    else if |ts| == 1 then (if ts[0] == "quite" then [] else ts)
    else if ts[0] == a && ts[1] == b then [a + "_" + b] + Combined(ts[2..], a, b)
    else [ts[0]] + Combined(ts[1..], a, b)
  }

  /** Undo the merging: every a_b token becomes a, b again. */
  function Expand(ts: seq<string>, a: string, b: string): seq<string>
    decreases |ts|
  {
    if |ts| == 0 then []
    else (if ts[0] == a + "_" + b then [a, b] else [ts[0]]) + Expand(ts[1..], a, b)
  }

  /** combine_words never lengthens the text. */
  lemma {:induction false} CombinedShorter(ts: seq<string>, a: string, b: string)
    ensures |Combined(ts, a, b)| <= |ts|
    decreases |ts|
  {
    if |ts| >= 2 {
      if ts[0] == a && ts[1] == b {
        CombinedShorter(ts[2..], a, b);
      } else {
        CombinedShorter(ts[1..], a, b);
      }
    }
  }

  /**
   * When no input token already reads a_b, expanding the merged tokens gives back the
   * input, in order, except a final "quite" that was dropped.
   */
  lemma {:induction false} CombinedRoundTrip(ts: seq<string>, a: string, b: string)
    requires forall k :: 0 <= k < |ts| ==> ts[k] != a + "_" + b
    ensures Expand(Combined(ts, a, b), a, b) == ts
         || (Expand(Combined(ts, a, b), a, b) + ["quite"] == ts)
    decreases |ts|
  {
    if |ts| == 1 {
      assert Expand(ts, a, b) == [ts[0]] + Expand([], a, b);
    } else if |ts| >= 2 {
      var m := a + "_" + b;
      if ts[0] == a && ts[1] == b {
        CombinedRoundTrip(ts[2..], a, b);
        var rest := Combined(ts[2..], a, b);
        assert ([m] + rest)[1..] == rest;
        assert ts == [a, b] + ts[2..];
      } else {
        CombinedRoundTrip(ts[1..], a, b);
        var rest := Combined(ts[1..], a, b);
        assert ([ts[0]] + rest)[1..] == rest;
        assert ts == [ts[0]] + ts[1..];
      }
    }
  }

  /** The first merged token: a_b when the text opens with a b, and otherwise the first token itself. */
  lemma CombinedHead(ts: seq<string>, a: string, b: string)
    requires |Combined(ts, a, b)| > 0
    ensures |ts| >= 2 && ts[0] == a && ts[1] == b ==> Combined(ts, a, b)[0] == a + "_" + b
    ensures !(|ts| >= 2 && ts[0] == a && ts[1] == b) ==> Combined(ts, a, b)[0] == ts[0]
  {
  }

  /** No adjacent a b is left once combine_words has run: every such pair was merged. */
  lemma {:induction false} NoPairLeft(ts: seq<string>, a: string, b: string)
    ensures forall k :: 0 <= k < |Combined(ts, a, b)| - 1 ==>
      !(Combined(ts, a, b)[k] == a && Combined(ts, a, b)[k + 1] == b)
    decreases |ts|
  {
    var c := Combined(ts, a, b);
    if |ts| >= 2 {
      if ts[0] == a && ts[1] == b {
        NoPairLeft(ts[2..], a, b);
        var rest := Combined(ts[2..], a, b);
        assert c == [a + "_" + b] + rest;
        assert |a + "_" + b| > |a|;
      } else {
        NoPairLeft(ts[1..], a, b);
        var rest := Combined(ts[1..], a, b);
        assert c == [ts[0]] + rest;
        if |rest| > 0 {
          CombinedHead(ts[1..], a, b);
          assert |a + "_" + b| > |b|;
          assert ts[0] == a ==> rest[0] != b;
        }
      }
    }
  }

  /** combine_words drops the final token: it is "quite" and is not the b of a closing a b pair. */
  predicate DropsLastQuite(ts: seq<string>, a: string, b: string) {
    |ts| > 0 && ts[|ts| - 1] == "quite" && !(|ts| >= 2 && ts[|ts| - 2] == a && b == "quite")
  }

  /**
   * For a != b, as at the call site ("not", "quite"), expanding the merged tokens gives back
   * the input exactly, or the input without its last token exactly when that token is a
   * dropped "quite".
   */
  lemma {:induction false} CombinedRoundTripExact(ts: seq<string>, a: string, b: string)
    requires a != b
    requires forall k :: 0 <= k < |ts| ==> ts[k] != a + "_" + b
    ensures DropsLastQuite(ts, a, b) ==> Expand(Combined(ts, a, b), a, b) == ts[..|ts| - 1]
    ensures !DropsLastQuite(ts, a, b) ==> Expand(Combined(ts, a, b), a, b) == ts
    decreases |ts|
  {
    var m := a + "_" + b;
    if |ts| == 1 {
      assert Expand(ts, a, b) == [ts[0]] + Expand([], a, b);
    } else if |ts| >= 2 {
      if ts[0] == a && ts[1] == b {
        var tail := ts[2..];
        CombinedRoundTripExact(tail, a, b);
        assert DropsLastQuite(tail, a, b) <==> DropsLastQuite(ts, a, b);
        var rest := Combined(tail, a, b);
        assert ([m] + rest)[1..] == rest;
        assert ts == [a, b] + tail;
        if DropsLastQuite(ts, a, b) {
          assert ts[..|ts| - 1] == [a, b] + tail[..|tail| - 1];
        }
      } else {
        var tail := ts[1..];
        CombinedRoundTripExact(tail, a, b);
        assert DropsLastQuite(tail, a, b) <==> DropsLastQuite(ts, a, b);
        var rest := Combined(tail, a, b);
        assert ([ts[0]] + rest)[1..] == rest;
        assert ts == [ts[0]] + tail;
        if DropsLastQuite(ts, a, b) {
          assert ts[..|ts| - 1] == [ts[0]] + tail[..|tail| - 1];
        }
      }
    }
  }

  /** A text without the token a is unchanged, except that a final "quite" is dropped. */
  lemma {:induction false} CombinedWithoutPair(ts: seq<string>, a: string, b: string)
    requires forall k :: 0 <= k < |ts| ==> ts[k] != a
    ensures |ts| > 0 && ts[|ts| - 1] == "quite" ==> Combined(ts, a, b) == ts[..|ts| - 1]
    ensures |ts| > 0 && ts[|ts| - 1] != "quite" ==> Combined(ts, a, b) == ts
    decreases |ts|
  {
    if |ts| >= 2 {
      CombinedWithoutPair(ts[1..], a, b);
      assert ts == [ts[0]] + ts[1..];
      assert ts[..|ts| - 1] == [ts[0]] + ts[1..][..|ts| - 2];
    }
  }

  /** One step of the scan from position i: merge a b there, or keep the token. */
  lemma CombinedAt(ts: seq<string>, i: int, a: string, b: string)
    requires 0 <= i < |ts| - 1
    ensures ts[i] == a && ts[i + 1] == b ==> Combined(ts[i..], a, b) == [a + "_" + b] + Combined(ts[i + 2..], a, b)
    ensures !(ts[i] == a && ts[i + 1] == b) ==> Combined(ts[i..], a, b) == [ts[i]] + Combined(ts[i + 1..], a, b)
  {
    assert ts[i..][2..] == ts[i + 2..];
    assert ts[i..][1..] == ts[i + 1..];
  }

  /** The end of the scan: a last unpaired token is kept unless it is "quite". */
  lemma CombinedEnd(ts: seq<string>, i: int, a: string, b: string)
    requires |ts| - 1 <= i <= |ts| && 0 <= i
    ensures Combined(ts[i..], a, b) == if i < |ts| && ts[i] != "quite" then [ts[i]] else []
  {
    if i < |ts| {
      assert ts[i..] == [ts[i]];
    } else {
      assert ts[i..] == [];
    }
  }

  /** combine_words(text, a, b) */
  method CombineWords(text: string, a: string, b: string) returns (r: string)
    ensures r == Join(Combined(Tokens(text), a, b))
  {
    var ts := Tokens(text);
    var out: seq<string> := [];
    var i := 0;
    while i < |ts| - 1
      invariant 0 <= i <= |ts|
      invariant out + Combined(ts[i..], a, b) == Combined(ts, a, b)
      decreases |ts| - i
    {
      CombinedAt(ts, i, a, b);
      if ts[i] == a && ts[i + 1] == b {
        assert (out + [a + "_" + b]) + Combined(ts[i + 2..], a, b) == out + Combined(ts[i..], a, b);
        out := out + [a + "_" + b];
        i := i + 2;
      } else {
        assert (out + [ts[i]]) + Combined(ts[i + 1..], a, b) == out + Combined(ts[i..], a, b);
        out := out + [ts[i]];
        i := i + 1;
      }
    }
    CombinedEnd(ts, i, a, b);
    if i < |ts| && ts[i] != "quite" {
      out := out + [ts[i]];
    } else {
      assert out + [] == out;
    }
    r := Join(out);
  }

  /** The text combine_words returns, as a function. */
  function CombinedText(text: string, a: string, b: string): string {
    Join(Combined(Tokens(text), a, b))
  }

  /** An empty or all-whitespace text gives the empty string. */
  lemma BlankCombinesToEmpty(text: string, a: string, b: string)
    requires forall k :: 0 <= k < |text| ==> IsSpace(text[k])
    ensures CombinedText(text, a, b) == ""
  {
    BlankHasNoTokens(text);
  }

  // ----------------------------------------------------------------------
  // find_links
  // ----------------------------------------------------------------------

  /** The words of others, in order, other than current, whose stem is the definition word's stem. */
  function Links(current: string, definitionWord: string, others: seq<string>, stem: string -> string): seq<string>
    decreases |others|
  {
    if |others| == 0 then []
    else
      var w := others[|others| - 1];
      Links(current, definitionWord, others[..|others| - 1], stem)
        + (if w != current && stem(w) == stem(definitionWord) then [w] else [])
  }

  /** A word is linked exactly when it is one of others, is not current, and shares the definition word's stem. */
  lemma {:induction false} LinksMembers(current: string, definitionWord: string, others: seq<string>, stem: string -> string)
    ensures forall w :: w in Links(current, definitionWord, others, stem) <==>
      w in others && w != current && stem(w) == stem(definitionWord)
    decreases |others|
  {
    if |others| > 0 {
      var init := others[..|others| - 1];
      LinksMembers(current, definitionWord, init, stem);
      assert others == init + [others[|others| - 1]];
    }
  }

  /** Linking keeps the order of others: the links of a concatenation are the concatenated links. */
  lemma {:induction false} LinksOfConcat(current: string, definitionWord: string, xs: seq<string>, ys: seq<string>, stem: string -> string)
    ensures Links(current, definitionWord, xs + ys, stem)
         == Links(current, definitionWord, xs, stem) + Links(current, definitionWord, ys, stem)
    decreases |ys|
  {
    if |ys| == 0 {
      assert xs + ys == xs;
    } else {
      var init := ys[..|ys| - 1];
      LinksOfConcat(current, definitionWord, xs, init, stem);
      assert (xs + ys)[..|xs + ys| - 1] == xs + init;
    }
  }

  /** find_links: the loop over other_words with the stemmer supplied as a function; the result is always a list. */
  method FindLinks(current: string, definitionWord: string, others: seq<string>, stem: string -> string)
    returns (links: seq<string>)
    ensures links == Links(current, definitionWord, others, stem)
  {
    links := [];
    var definitionStem := stem(definitionWord);
    for k := 0 to |others|
      invariant links == Links(current, definitionWord, others[..k], stem)
    {
      assert others[..k + 1][..k] == others[..k];
      if others[k] != current {
        var otherStem := stem(others[k]);
        if definitionStem == otherStem {
          links := links + [others[k]];
        }
      }
    }
    assert others[..|others|] == others;
  }

  // ----------------------------------------------------------------------
  // create_equations
  // ----------------------------------------------------------------------

  /**
   * The spaCy-based scoring collaborators: the noun scores and the (word, score) pairs
   * extracted from one definition fragment, given the defined word and the linking words.
   */
  datatype Extractor = Extractor(
    nounScores: string -> seq<real>,
    adjAdvScores: (string, string, seq<string>) -> seq<(string, real)>)

  /** A row of the equations file; deduced marks the mirror rows written as 'Yes'. */
  datatype EquationRow = EquationRow(word: string, variable: string, factor: real, definition: string, deduced: bool)

  /** One step of create_equations: an extracted score, or a definitions row missing a definition field. */
  datatype Item =
    | Score(word: string, target: string, score: real, definition: string)
    | Missing(column: string)

  /** Why create_equations stopped early: a division 1.0 / 0, or a KeyError on a definitions row. */
  datatype Stop = ZeroScore | MissingField(column: string)

  /** The rows written to the equations file (after its header), and why writing stopped, if it did. */
  datatype Emission = Emission(rows: seq<EquationRow>, stop: Option<Stop>)

  /** The row written first for a score: word, target, the score, no Deduced mark. */
  function Forward(x: Item): EquationRow
    requires x.Score?
  {
    EquationRow(x.word, x.target, x.score, x.definition, false)
  }

  /** The mirror row: word and target swapped, the reciprocal factor, Deduced = 'Yes'. */
  function Mirror(x: Item): EquationRow
    requires x.Score? && x.score != 0.0
  {
    EquationRow(x.target, x.word, 1.0 / x.score, x.definition, true)
  }

  /** Writing one item: a Missing item raises before anything is written; a zero score raises after its forward row. */
  function EmitOne(st: Emission, x: Item): Emission {
    match x
    case Missing(column) => Emission(st.rows, Some(MissingField(column)))
    case Score(_, _, s, _) =>
      if s == 0.0 then Emission(st.rows + [Forward(x)], Some(ZeroScore))
      else Emission(st.rows + [Forward(x), Mirror(x)], None)
  }

  /** Writing items in order from state st; once stopped, nothing more is written. */
  function EmitFrom(st: Emission, items: seq<Item>): Emission
    decreases |items|
  {
    if st.stop.Some? || |items| == 0 then st
    else EmitFrom(EmitOne(st, items[0]), items[1..])
  }

  function Emit(items: seq<Item>): Emission {
    EmitFrom(Emission([], None), items)
  }

  /** The item is where writing stops. */
  predicate Stops(x: Item) {
    x.Missing? || x.score == 0.0
  }

  /** The index of the first item that stops writing, or |items| if none does. */
  function FirstStop(items: seq<Item>): (f: nat)
    ensures f <= |items|
    ensures forall k :: 0 <= k < f ==> !Stops(items[k])
    ensures f < |items| ==> Stops(items[f])
    decreases |items|
  {
    if |items| == 0 then 0 else if Stops(items[0]) then 0 else 1 + FirstStop(items[1..])
  }

  function StopOf(x: Item): Stop
    requires Stops(x)
  {
    if x.Missing? then MissingField(x.column) else ZeroScore
  }

  /**
   * What create_equations writes: after the rows already written, every score before the
   * first stopping item gives its forward row immediately followed by its mirror row; a
   * zero score then leaves its forward row alone, and the error is reported.
   */
  lemma {:induction false} EmitShape(pre: seq<EquationRow>, items: seq<Item>)
    ensures var e := EmitFrom(Emission(pre, None), items);
            var f := FirstStop(items);
            && |e.rows| == |pre| + 2 * f + (if f < |items| && items[f].Score? then 1 else 0)
            && e.rows[..|pre|] == pre
            && (forall k :: 0 <= k < f ==>
                  e.rows[|pre| + 2 * k] == Forward(items[k]) && e.rows[|pre| + 2 * k + 1] == Mirror(items[k]))
            && (f < |items| && items[f].Score? ==> e.rows[|pre| + 2 * f] == Forward(items[f]))
            && e.stop == (if f == |items| then None else Some(StopOf(items[f])))
    decreases |items|
  {
    if |items| > 0 && !Stops(items[0]) {
      var x := items[0];
      var pre' := pre + [Forward(x), Mirror(x)];
      EmitShape(pre', items[1..]);
      var e := EmitFrom(Emission(pre, None), items);
      assert e == EmitFrom(Emission(pre', None), items[1..]);
      assert e.rows[..|pre'|] == pre';
      assert e.rows[..|pre|] == pre'[..|pre|];
      forall k | 0 < k < FirstStop(items)
        ensures e.rows[|pre| + 2 * k] == Forward(items[k]) && e.rows[|pre| + 2 * k + 1] == Mirror(items[k])
      {
        assert items[1..][k - 1] == items[k];
        assert |pre| + 2 * k == |pre'| + 2 * (k - 1);
      }
    }
  }

  /** With no stopping item, the rows are exactly one (forward, mirror) pair per score. */
  lemma EquationRowsComeInPairs(items: seq<Item>)
    requires forall k :: 0 <= k < |items| ==> items[k].Score? && items[k].score != 0.0
    ensures Emit(items).stop == None
    ensures |Emit(items).rows| == 2 * |items|
    ensures forall k :: 0 <= k < |items| ==>
      var forward := Emit(items).rows[2 * k];
      var mirror := Emit(items).rows[2 * k + 1];
      && forward == Forward(items[k]) && !forward.deduced
      && mirror.word == forward.variable && mirror.variable == forward.word
      && mirror.factor * forward.factor == 1.0 && mirror.deduced
  {
    EmitShape([], items);
    forall k | 0 <= k < |items| ensures Emit(items).rows[2 * k + 1] == Mirror(items[k]) {
      assert 0 + 2 * k + 1 == 2 * k + 1;
    }
  }

  /** A stopped state is final. */
  lemma {:induction false} StoppedStays(st: Emission, items: seq<Item>)
    requires st.stop.Some?
    ensures EmitFrom(st, items) == st
  {
  }

  /** Writing a concatenation is writing the first part, then the second from where it left off. */
  lemma {:induction false} EmitFromConcat(st: Emission, xs: seq<Item>, ys: seq<Item>)
    ensures EmitFrom(st, xs + ys) == EmitFrom(EmitFrom(st, xs), ys)
    decreases |xs|
  {
    if st.stop.Some? {
      StoppedStays(st, ys);
    } else if |xs| == 0 {
      assert xs + ys == ys;
    } else {
      assert (xs + ys)[1..] == xs[1..] + ys;
      EmitFromConcat(EmitOne(st, xs[0]), xs[1..], ys);
    }
  }

  /** The three definition fields of a definitions row, in the order create_equations reads them. */
  const DefinitionFields: seq<string> := ["WordNet Definition", "Wikitionary Definition", "Oxford Definition"]

  /** The first definition field the row lacks, if any. */
  function MissingDefinitionField(row: Row): Option<string> {
    if DefinitionFields[0] !in row then Some(DefinitionFields[0])
    else if DefinitionFields[1] !in row then Some(DefinitionFields[1])
    else if DefinitionFields[2] !in row then Some(DefinitionFields[2])
    else None
  }

  /** The definition fragments of a row: each field lower-cased and split on ';'. */
  function Fragments(row: Row): seq<string>
    requires MissingDefinitionField(row).None?
  {
    SplitOn(Lower(row[DefinitionFields[0]]), ';')
      + SplitOn(Lower(row[DefinitionFields[1]]), ';')
      + SplitOn(Lower(row[DefinitionFields[2]]), ';')
  }

  /** The scores of one (combined) definition: noun scores relate to the anchor, then the adjective/adverb pairs. */
  function FragmentItems(word: string, definition: string, ex: Extractor, words: seq<string>): seq<Item> {
    NounItems(word, definition, ex.nounScores(definition))
      + PairItems(word, definition, ex.adjAdvScores(word, definition, words))
  }

  /** The noun scores of one definition, each linking the word to high_prop. */
  function NounItems(word: string, definition: string, nouns: seq<real>): seq<Item> {
    seq(|nouns|, k requires 0 <= k < |nouns| => Score(word, HighProp, nouns[k], definition))
  }

  /** The adjective/adverb scores of one definition, each linking the word to the scored word. */
  function PairItems(word: string, definition: string, pairs: seq<(string, real)>): seq<Item> {
    seq(|pairs|, k requires 0 <= k < |pairs| => Score(word, pairs[k].0, pairs[k].1, definition))
  }

  function FragmentsItems(word: string, fragments: seq<string>, ex: Extractor, words: seq<string>): seq<Item>
    decreases |fragments|
  {
    if |fragments| == 0 then []
    else FragmentItems(word, CombinedText(fragments[0], "not", "quite"), ex, words)
           + FragmentsItems(word, fragments[1..], ex, words)
  }

  function RowItems(row: Row, ex: Extractor, words: seq<string>): seq<Item>
    requires "Word" in row
  {
    match MissingDefinitionField(row)
    case Some(column) => [Missing(column)]
    case None => FragmentsItems(row["Word"], Fragments(row), ex, words)
  }

  /** Every step create_equations takes over the definitions rows, in order. */
  function Items(rows: seq<Row>, ex: Extractor, words: seq<string>): seq<Item>
    requires HasColumn("Word", rows)
    decreases |rows|
  {
    if |rows| == 0 then [] else RowItems(rows[0], ex, words) + Items(rows[1..], ex, words)
  }

  /**
   * The row-writing loops of create_equations for one definition fragment: the noun scores,
   * then the adjective/adverb scores, the second loop starting only if the first did not stop.
   */
  method WriteScores(word: string, definition: string, ex: Extractor, words: seq<string>, written: seq<EquationRow>)
    returns (out: seq<EquationRow>, stopped: bool)
    ensures var e := EmitFrom(Emission(written, None), FragmentItems(word, definition, ex, words));
            if stopped then e == Emission(out, Some(ZeroScore)) else e == Emission(out, None)
  {
    var nouns := ex.nounScores(definition);
    var pairs := ex.adjAdvScores(word, definition, words);
    EmitFromConcat(Emission(written, None), NounItems(word, definition, nouns), PairItems(word, definition, pairs));
    out, stopped := WriteNounScores(word, definition, nouns, written);
    if stopped {
      StoppedStays(Emission(out, Some(ZeroScore)), PairItems(word, definition, pairs));
      return;
    }
    out, stopped := WritePairScores(word, definition, pairs, out);
  }

  /** The loop over the noun scores: a forward row to high_prop, then (unless the score is zero) its mirror. */
  method WriteNounScores(word: string, definition: string, nouns: seq<real>, written: seq<EquationRow>)
    returns (out: seq<EquationRow>, stopped: bool)
    ensures var e := EmitFrom(Emission(written, None), NounItems(word, definition, nouns));
            if stopped then e == Emission(out, Some(ZeroScore)) else e == Emission(out, None)
  {
    var items := NounItems(word, definition, nouns);
    out := written;
    for u := 0 to |nouns|
      invariant EmitFrom(Emission(written, None), items) == EmitFrom(Emission(out, None), items[u..])
    {
      var score := nouns[u];
      assert items[u] == Score(word, HighProp, score, definition);
      assert items[u..] == [items[u]] + items[u + 1..];
      assert EmitFrom(Emission(out, None), items[u..]) == EmitFrom(EmitOne(Emission(out, None), items[u]), items[u + 1..]);
      ghost var before := out;
      out := out + [EquationRow(word, HighProp, score, definition, false)];
      if score == 0.0 {
        StoppedStays(Emission(out, Some(ZeroScore)), items[u + 1..]);
        return out, true;
      }
      out := out + [EquationRow(HighProp, word, 1.0 / score, definition, true)];
      assert out == before + [Forward(items[u]), Mirror(items[u])];
    }
    return out, false;
  }

  /** The loop over the adjective/adverb scores: a forward row to the scored word, then (unless zero) its mirror. */
  method WritePairScores(word: string, definition: string, pairs: seq<(string, real)>, written: seq<EquationRow>)
    returns (out: seq<EquationRow>, stopped: bool)
    ensures var e := EmitFrom(Emission(written, None), PairItems(word, definition, pairs));
            if stopped then e == Emission(out, Some(ZeroScore)) else e == Emission(out, None)
  {
    var items := PairItems(word, definition, pairs);
    out := written;
    for u := 0 to |pairs|
      invariant EmitFrom(Emission(written, None), items) == EmitFrom(Emission(out, None), items[u..])
    {
      var (target, score) := pairs[u];
      assert items[u] == Score(word, target, score, definition);
      assert items[u..] == [items[u]] + items[u + 1..];
      assert EmitFrom(Emission(out, None), items[u..]) == EmitFrom(EmitOne(Emission(out, None), items[u]), items[u + 1..]);
      ghost var before := out;
      out := out + [EquationRow(word, target, score, definition, false)];
      if score == 0.0 {
        StoppedStays(Emission(out, Some(ZeroScore)), items[u + 1..]);
        return out, true;
      }
      out := out + [EquationRow(target, word, 1.0 / score, definition, true)];
      assert out == before + [Forward(items[u]), Mirror(items[u])];
    }
    return out, false;
  }

  /** The loop of create_equations over one row's definition fragments, each first passed through combine_words. */
  method WriteFragments(word: string, fragments: seq<string>, ex: Extractor, words: seq<string>, written: seq<EquationRow>)
    returns (out: seq<EquationRow>, stopped: bool)
    ensures var e := EmitFrom(Emission(written, None), FragmentsItems(word, fragments, ex, words));
            if stopped then e == Emission(out, Some(ZeroScore)) else e == Emission(out, None)
  {
    out := written;
    for t := 0 to |fragments|
      invariant EmitFrom(Emission(written, None), FragmentsItems(word, fragments, ex, words))
             == EmitFrom(Emission(out, None), FragmentsItems(word, fragments[t..], ex, words))
    {
      var definition := CombineWords(fragments[t], "not", "quite");
      assert fragments[t..][1..] == fragments[t + 1..];
      ghost var here := FragmentItems(word, definition, ex, words);
      ghost var later := FragmentsItems(word, fragments[t + 1..], ex, words);
      EmitFromConcat(Emission(out, None), here, later);
      out, stopped := WriteScores(word, definition, ex, words, out);
      if stopped {
        StoppedStays(Emission(out, Some(ZeroScore)), later);
        return out, true;
      }
    }
    return out, false;
  }

  /**
   * The body of create_equations' loop for one definitions row: reading the three definition
   * fields (a missing one is a KeyError), then writing the rows of each fragment.
   */
  method WriteRow(row: Row, ex: Extractor, words: seq<string>, written: seq<EquationRow>)
    returns (out: seq<EquationRow>, stop: Option<Stop>)
    requires "Word" in row
    ensures EmitFrom(Emission(written, None), RowItems(row, ex, words)) == Emission(out, stop)
  {
    var missing := MissingDefinitionField(row);
    if missing.Some? {
      return written, Some(MissingField(missing.value));
    }
    var fragments := SplitOn(Lower(row[DefinitionFields[0]]), ';');
    fragments := fragments + SplitOn(Lower(row[DefinitionFields[1]]), ';');
    fragments := fragments + SplitOn(Lower(row[DefinitionFields[2]]), ';');
    var stopped;
    out, stopped := WriteFragments(row["Word"], fragments, ex, words, written);
    stop := if stopped then Some(ZeroScore) else None;
  }

  /**
   * create_equations over the definitions rows: the linking words come from the Word column
   * (a file without it fails before the equations file is opened), then every fragment's
   * scores are written; a KeyError or a zero score stops writing where it happens.
   */
  method CreateEquations(rows: seq<Row>, ex: Extractor) returns (r: Result<Emission, CsvError>)
    ensures !HasColumn("Word", rows) ==> r == Err(MissingColumn("Word"))
    ensures HasColumn("Word", rows) ==> r == Ok(Emit(Items(rows, ex, WordSet(rows))))
  {
    var column := GetCsvColumn("Word", rows);
    if column.Err? {
      return Err(column.error);
    }
    var words := column.value;
    if HighProp !in words {
      words := words + [HighProp];
    }
    WordSetMembers(rows);
    assert words == WordSet(rows);
    var written: seq<EquationRow> := [];
    for k := 0 to |rows|
      invariant Emit(Items(rows, ex, words)) == EmitFrom(Emission(written, None), Items(rows[k..], ex, words))
    {
      assert rows[k..][1..] == rows[k + 1..];
      ghost var rest := Items(rows[k + 1..], ex, words);
      EmitFromConcat(Emission(written, None), RowItems(rows[k], ex, words), rest);
      var stop;
      written, stop := WriteRow(rows[k], ex, words, written);
      if stop.Some? {
        StoppedStays(Emission(written, stop), rest);
        return Ok(Emission(written, stop));
      }
    }
    return Ok(Emission(written, None));
  }
}
