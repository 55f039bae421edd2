/**
 * build_matrix: the square coefficient matrix of the equations file. Rows and
 * columns are the distinct words followed by the anchor, every cell starts at
 * zero, and each equation record overwrites the cell of its (word, variable)
 * pair with its factor text.
 */
module MatrixCreation {
  import opened Outcomes
  import opened EquationCreation

  /** A matrix cell: the initial integer 0, or a factor as the text read from the file. */
  datatype Cell = Zero | Factor(text: string)

  /** A KeyError on a missing record field, or the ValueError of list.index on an unknown variable. */
  datatype BuildError = KeyMissing(field: string) | UnknownVariable(name: string)

  /** The row and column labels: the distinct Word values, then the anchor appended (even when already present). */
  function Variables(records: seq<Row>): seq<string>
    requires HasColumn("Word", records)
  {
    Distinct(ColumnValues("Word", records)) + [HighProp]
  }

  /** The record's fields can be read and its variable is one of the labels. */
  predicate Usable(record: Row, variables: seq<string>) {
    "Variable" in record && "Factor" in record && record["Variable"] in variables
  }

  /** The error a record that is not usable raises, in the order the fields are read. */
  function RecordError(record: Row, variables: seq<string>): BuildError
    requires !Usable(record, variables)
  {
    if "Variable" !in record then KeyMissing("Variable")
    else if "Factor" !in record then KeyMissing("Factor")
    else UnknownVariable(record["Variable"])
  }

  /** The index of the first record that is not usable, or |records| if all are. */
  function FirstUnusable(records: seq<Row>, variables: seq<string>): (f: nat)
    ensures f <= |records|
    ensures forall k :: 0 <= k < f ==> Usable(records[k], variables)
    ensures f < |records| ==> !Usable(records[f], variables)
    decreases |records|
  {
    if |records| == 0 then 0
    else if !Usable(records[0], variables) then 0
    else 1 + FirstUnusable(records[1..], variables)
  }

  /** The first unusable record is the one after a run of usable ones. */
  lemma FirstUnusableAt(records: seq<Row>, variables: seq<string>, k: int)
    requires 0 <= k <= |records|
    requires forall t :: 0 <= t < k ==> Usable(records[t], variables)
    requires k < |records| ==> !Usable(records[k], variables)
    ensures FirstUnusable(records, variables) == k
  {
  }

  /** Every record's word is a label, because the labels were read from the same records. */
  lemma WordIsVariable(records: seq<Row>, k: int)
    requires HasColumn("Word", records)
    requires 0 <= k < |records|
    ensures records[k]["Word"] in Variables(records)
  {
    DistinctSpec(ColumnValues("Word", records));
    assert ColumnValues("Word", records)[k] == records[k]["Word"];
  }

  /** The record writes cell (i, j): its word and variable first occur at positions i and j of the labels. */
  predicate Writes(record: Row, variables: seq<string>, i: int, j: int) {
    && "Word" in record && record["Word"] in variables && FirstIndex(variables, record["Word"]) == i
    && Usable(record, variables) && FirstIndex(variables, record["Variable"]) == j
  }

  /** Cell (i, j) after the records have been applied in order to the zero matrix. */
  function CellAfter(records: seq<Row>, variables: seq<string>, i: int, j: int): Cell
    decreases |records|
  {
    if |records| == 0 then Zero
    else
      var last := records[|records| - 1];
      if Writes(last, variables, i, j) then Factor(last["Factor"])
      else CellAfter(records[..|records| - 1], variables, i, j)
  }

  /**
   * The loop of build_matrix over the records: each usable record overwrites the cell of its
   * (word, variable) pair; the first record that is not usable raises and ends the loop.
   */
  method ApplyRecords(matrix: array2<Cell>, records: seq<Row>, variables: seq<string>) returns (failure: Option<BuildError>)
    requires matrix.Length0 == |variables| && matrix.Length1 == |variables|
    requires forall k :: 0 <= k < |records| ==> "Word" in records[k] && records[k]["Word"] in variables
    requires forall i, j :: 0 <= i < matrix.Length0 && 0 <= j < matrix.Length1 ==> matrix[i, j] == Zero
    modifies matrix
    ensures FirstUnusable(records, variables) < |records| ==>
      failure == Some(RecordError(records[FirstUnusable(records, variables)], variables))
    ensures FirstUnusable(records, variables) == |records| ==>
      && failure == None
      && forall i, j :: 0 <= i < matrix.Length0 && 0 <= j < matrix.Length1 ==>
           matrix[i, j] == CellAfter(records, variables, i, j)
  {
    var n := |variables|;
    for k := 0 to |records|
      invariant forall t :: 0 <= t < k ==> Usable(records[t], variables)
      invariant forall i, j :: 0 <= i < n && 0 <= j < n ==> matrix[i, j] == CellAfter(records[..k], variables, i, j)
    {
      var record := records[k];
      var word := record["Word"];
      if "Variable" !in record {
        FirstUnusableAt(records, variables, k);
        return Some(KeyMissing("Variable"));
      }
      var variable := record["Variable"];
      if "Factor" !in record {
        FirstUnusableAt(records, variables, k);
        return Some(KeyMissing("Factor"));
      }
      var factor := record["Factor"];
      if variable !in variables {
        FirstUnusableAt(records, variables, k);
        return Some(UnknownVariable(variable));
      }
      var i := FirstIndex(variables, word);
      var j := FirstIndex(variables, variable);
      matrix[i, j] := Factor(factor);
      assert records[..k + 1][..k] == records[..k];
      forall p, q | 0 <= p < n && 0 <= q < n
        ensures matrix[p, q] == CellAfter(records[..k + 1], variables, p, q)
      {
        assert records[..k + 1][k] == record;
        assert Writes(record, variables, p, q) <==> p == i && q == j;
      }
    }
    assert records[..|records|] == records;
    FirstUnusableAt(records, variables, |records|);
    return None;
  }

  /**
   * build_matrix over the records of the equations file. A record without Word fails the
   * first pass; otherwise the first record lacking Variable or Factor, or naming a variable
   * that is no label, raises. On success the matrix is len(variables) square and each cell
   * is what the records leave in it.
   */
  method BuildMatrix(records: seq<Row>) returns (r: Result<array2<Cell>, BuildError>)
    ensures !HasColumn("Word", records) ==> r == Err(KeyMissing("Word"))
    ensures HasColumn("Word", records) && FirstUnusable(records, Variables(records)) < |records| ==>
      r == Err(RecordError(records[FirstUnusable(records, Variables(records))], Variables(records)))
    ensures HasColumn("Word", records) && FirstUnusable(records, Variables(records)) == |records| ==>
      && r.Ok?
      && r.value.Length0 == |Variables(records)| && r.value.Length1 == |Variables(records)|
      && forall i, j :: 0 <= i < r.value.Length0 && 0 <= j < r.value.Length1 ==>
           r.value[i, j] == CellAfter(records, Variables(records), i, j)
  {
    var column := GetCsvColumn("Word", records);
    if column.Err? {
      return Err(KeyMissing("Word"));
    }
    var variables := column.value + [HighProp];
    assert variables == Variables(records);
    var n := |variables|;
    var matrix := new Cell[n, n]((_, _) => Zero);
    forall k | 0 <= k < |records| ensures records[k]["Word"] in variables {
      WordIsVariable(records, k);
    }
    var failure := ApplyRecords(matrix, records, variables);
    if failure.Some? {
      return Err(failure.value);
    }
    return Ok(matrix);
  }

  /**
   * A cell holds the factor of the last record that writes it, and stays zero exactly when
   * no record writes it.
   */
  lemma {:induction false} LastWriteWins(records: seq<Row>, variables: seq<string>, i: int, j: int)
    ensures CellAfter(records, variables, i, j) == Zero <==>
      forall k :: 0 <= k < |records| ==> !Writes(records[k], variables, i, j)
    ensures CellAfter(records, variables, i, j).Factor? ==>
      exists k :: 0 <= k < |records| && Writes(records[k], variables, i, j)
        && CellAfter(records, variables, i, j) == Factor(records[k]["Factor"])
        && forall later :: k < later < |records| ==> !Writes(records[later], variables, i, j)
    decreases |records|
  {
    if |records| > 0 {
      var init := records[..|records| - 1];
      LastWriteWins(init, variables, i, j);
      var last := |records| - 1;
      if !Writes(records[last], variables, i, j) && CellAfter(init, variables, i, j).Factor? {
        assert CellAfter(init, variables, i, j).Factor?;
        var k :| 0 <= k < |init| && Writes(init[k], variables, i, j)
          && CellAfter(init, variables, i, j) == Factor(init[k]["Factor"])
          && forall later :: k < later < |init| ==> !Writes(init[later], variables, i, j);
        assert records[k] == init[k];
      }
    }
  }

  /**
   * The appended anchor label is never addressed when the anchor is already a Word: its
   * row and its column stay zero, because index() finds the earlier occurrence.
   */
  lemma AnchorDuplicateStaysZero(records: seq<Row>, t: int)
    requires HasColumn("Word", records)
    requires exists k :: 0 <= k < |records| && records[k]["Word"] == HighProp
    requires 0 <= t < |Variables(records)|
    ensures CellAfter(records, Variables(records), |Variables(records)| - 1, t) == Zero
    ensures CellAfter(records, Variables(records), t, |Variables(records)| - 1) == Zero
  {
    var variables := Variables(records);
    var n := |variables|;
    var words := ColumnValues("Word", records);
    DistinctSpec(words);
    var k :| 0 <= k < |records| && records[k]["Word"] == HighProp;
    assert words[k] == HighProp;
    assert variables[..n - 1] == Distinct(words);
    assert HighProp in variables[..n - 1];
    LastWriteWins(records, variables, n - 1, t);
    LastWriteWins(records, variables, t, n - 1);
  }
}
