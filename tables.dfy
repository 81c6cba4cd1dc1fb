/** `tableFrom2dArray_withHeaders_`: rows of values become dictionaries keyed
    by the column identifiers, the i-th value under the i-th identifier. */
module Tables {
  import opened Wrappers
  import opened PySort

  /** One row as a dictionary; a row longer than the identifiers raises
      IndexError at `columnDescriptions[i]`. */
  function RowDict<V>(row: seq<V>, ids: seq<string>): Result<map<string, V>>
  {
    if row == [] then Success(map[])
    else
      match RowDict(row[..|row| - 1], ids)
      case Failure(e) => Failure(e)
      case Success(d) =>
        var i := |row| - 1;
        if i < |ids| then Success(d[ids[i] := row[i]]) else Failure(IndexError)
  }

  /** The list of row dictionaries, or the first row's error. */
  function Table<V>(rows: seq<seq<V>>, ids: seq<string>): Result<seq<map<string, V>>>
  {
    if rows == [] then Success([])
    else
      match Table(rows[..|rows| - 1], ids)
      case Failure(e) => Failure(e)
      case Success(items) =>
        match RowDict(rows[|rows| - 1], ids)
        case Failure(e) => Failure(e)
        case Success(d) => Success(items + [d])
  }

  /** A row converts exactly when it is no longer than the identifiers; its
      keys are the first `|row|` identifiers and, when those are distinct,
      each holds the value in its column. */
  lemma {:induction false} RowDictFacts<V>(row: seq<V>, ids: seq<string>)
    ensures RowDict(row, ids).Success? <==> |row| <= |ids|
    ensures RowDict(row, ids).Failure? ==> RowDict(row, ids).error == IndexError
    ensures RowDict(row, ids).Success? ==>
      RowDict(row, ids).value.Keys == set i | 0 <= i < |row| :: ids[i]
    ensures RowDict(row, ids).Success? && Distinct(ids) ==>
      forall i :: 0 <= i < |row| ==> RowDict(row, ids).value[ids[i]] == row[i]
  {
    if row != [] {
      var n := |row| - 1;
      RowDictFacts(row[..n], ids);
      if RowDict(row, ids).Success? {
        var d := RowDict(row[..n], ids).value;
        assert (set i | 0 <= i < |row| :: ids[i]) == (set i | 0 <= i < n :: ids[i]) + {ids[n]};
        if Distinct(ids) {
          forall i | 0 <= i < |row| ensures RowDict(row, ids).value[ids[i]] == row[i] {
            if i < n {
              assert ids[i] != ids[n];
              assert row[..n][i] == row[i];
            }
          }
        }
      }
    }
  }

  /** The table converts exactly when every row does, with one dictionary per row. */
  lemma {:induction false} TableFacts<V>(rows: seq<seq<V>>, ids: seq<string>)
    ensures Table(rows, ids).Success? <==> forall k :: 0 <= k < |rows| ==> |rows[k]| <= |ids|
    ensures Table(rows, ids).Failure? ==> Table(rows, ids).error == IndexError
    ensures Table(rows, ids).Success? ==>
      && |Table(rows, ids).value| == |rows|
      && forall k :: 0 <= k < |rows| ==> Success(Table(rows, ids).value[k]) == RowDict(rows[k], ids)
  {
    if rows != [] {
      var n := |rows| - 1;
      TableFacts(rows[..n], ids);
      RowDictFacts(rows[n], ids);
      assert forall k :: 0 <= k < n ==> rows[..n][k] == rows[k];
    }
  }
}
