/** The co-occurrence matrix of `process_file` (app.py:52-59): a square table
    of counts over the sorted campaign names, filled symmetrically from the
    pair counter, and the name of the file it is written to. */
module CoOccurrence {
  import opened Collections
  import opened Tables
  import opened PairCounting

  /** The literal the output file name starts with. */
  const OutputPrefix: string := "co_occurrence_matrix_"

  /** What `to_csv` writes: the file name, the axis labels (used for both the
      index and the columns) and the rows of counts. */
  datatype Output = Output(name: string, labels: seq<string>, cells: seq<seq<nat>>)

  /** `f"co_occurrence_matrix_{filename}"` (app.py:59). */
  function OutputName(filename: string): (r: string)
    ensures |r| == |OutputPrefix| + |filename|
    ensures r[..|OutputPrefix|] == OutputPrefix && r[|OutputPrefix|..] == filename
  {
    OutputPrefix + filename
  }

  /** Different source files give different output names. */
  lemma OutputNameInjective(f: string, g: string)
    requires OutputName(f) == OutputName(g)
    ensures f == g
  {
  }

  /** `labels` and `cells` are the co-occurrence matrix of the entries: the axis
      is every campaign name once, ascending, and each cell holds `Cell`. */
  ghost predicate IsCoOccurrence(rs: seq<Entry>, labels: seq<string>, cells: seq<seq<nat>>)
  {
    StrictlySorted(labels) &&
    (forall c :: c in labels <==> c in Campaigns(rs)) &&
    |cells| == |labels| &&
    (forall i :: 0 <= i < |labels| ==> |cells[i]| == |labels|) &&
    forall i, j :: 0 <= i < |labels| && 0 <= j < |labels| ==> cells[i][j] == Cell(rs, labels[i], labels[j])
  }

  /** The zero-initialised frame filled from the counter (app.py:53-56): the
      cells of both orientations of every key get its count. */
  method FillMatrix(labels: seq<string>, counts: map<Pair, nat>) returns (m: array2<nat>)
    requires Distinct(labels)
    requires SingleKeyed(counts)
    requires forall p :: p in counts ==> p.0 in labels && p.1 in labels
    ensures fresh(m)
    ensures m.Length0 == |labels| && m.Length1 == |labels|
    ensures forall i, j :: 0 <= i < |labels| && 0 <= j < |labels| ==> m[i, j] == Lookup(counts, labels[i], labels[j])
  {
    var n := |labels|;
    m := new nat[n, n]((i, j) => 0);
    var pending := counts.Keys;
    ghost var done: map<Pair, nat> := map[];
    while pending != {}
      invariant pending <= counts.Keys
      invariant done.Keys == counts.Keys - pending
      invariant forall p :: p in done ==> done[p] == counts[p]
      invariant m.Length0 == n && m.Length1 == n
      invariant forall i, j :: 0 <= i < n && 0 <= j < n ==> m[i, j] == Lookup(done, labels[i], labels[j])
      decreases pending
    {
      var key :| key in pending;
      var item1, item2 := key.0, key.1;
      var count := counts[key];
      var r, c := IndexOf(labels, item1), IndexOf(labels, item2);
      m[r, c] := count;
      m[c, r] := count;
      assert (item2, item1) !in counts;
      forall i, j | 0 <= i < n && 0 <= j < n
        ensures m[i, j] == Lookup(done[key := count], labels[i], labels[j])
      {
        CellAfterAdd(labels, done, key, count, r, c, i, j);
      }
      done := done[key := count];
      pending := pending - {key};
    }
    assert done == counts;
  }

  /** Adding one key changes the lookup at its own two cells, `[r][c]` and
      `[c][r]`, and at no other cell of an axis without repetitions. */
  lemma CellAfterAdd(labels: seq<string>, done: map<Pair, nat>, key: Pair, count: nat, r: nat, c: nat, i: nat, j: nat)
    requires Distinct(labels)
    requires r < |labels| && c < |labels| && labels[r] == key.0 && labels[c] == key.1
    requires i < |labels| && j < |labels|
    requires key !in done && (key.1, key.0) !in done && key.0 != key.1
    ensures Lookup(done[key := count], labels[i], labels[j])
      == if (i == r && j == c) || (i == c && j == r) then count else Lookup(done, labels[i], labels[j])
  {
  }

  /** The rows of a matrix, as `to_csv` writes them. */
  function Rows(m: array2<nat>): (rows: seq<seq<nat>>)
    reads m
    ensures |rows| == m.Length0
    ensures forall i :: 0 <= i < m.Length0 ==> |rows[i]| == m.Length1
    ensures forall i, j :: 0 <= i < m.Length0 && 0 <= j < m.Length1 ==> rows[i][j] == m[i, j]
  {
    seq(m.Length0, i requires 0 <= i < m.Length0 reads m =>
      seq(m.Length1, j requires 0 <= j < m.Length1 reads m => m[i, j]))
  }

  /** `process_file` (app.py:32-60) on an already parsed table: reject a table
      without both required columns, otherwise count the pairs and build the
      symmetric matrix over the sorted campaign names. */
  method ProcessFile(table: Table, filename: string) returns (result: Result<Output>)
    requires table.Rectangular()
    ensures result.Failure? <==> !HasRequiredColumns(table.columns)
    ensures result.Failure? ==> result.error == MissingColumns
    ensures result.Success? ==> Select(table).Success? && result.value.name == OutputName(filename)
    ensures result.Success? ==> IsCoOccurrence(Select(table).value, result.value.labels, result.value.cells)
    ensures result.Success? ==>
      var cells := result.value.cells;
      forall i, j :: 0 <= i < |cells| && 0 <= j < |cells| ==> cells[i][j] == cells[j][i] && cells[i][i] == 0
  {
    var selected := Select(table);
    if selected.Failure? {
      return Failure(selected.error);
    }
    var rs := selected.value;
    var counts := CountPairs(rs);
    var labels := SortedDistinct(CampaignValues(rs));
    SortedIsDistinct(labels);
    assert forall c :: c in labels <==> c in Campaigns(rs) by {
      forall c ensures c in labels <==> c in Campaigns(rs) {
        if c in labels {
          var k :| 0 <= k < |rs| && CampaignValues(rs)[k] == c;
          assert rs[k] in rs;
        }
      }
    }
    var m := FillMatrix(labels, counts);
    var cells := Rows(m);
    assert forall i, j :: 0 <= i < |labels| && 0 <= j < |labels| ==> cells[i][j] == Cell(rs, labels[i], labels[j]) by {
      forall i, j | 0 <= i < |labels| && 0 <= j < |labels|
        ensures cells[i][j] == Cell(rs, labels[i], labels[j])
      {
        assert cells[i][j] == m[i, j] == Lookup(counts, labels[i], labels[j]);
      }
    }
    result := Success(Output(OutputName(filename), labels, cells));
    CoOccurrenceSymmetric(rs, labels, cells);
  }

  /** The cell relation is symmetric. */
  lemma CellSymmetric(rs: seq<Entry>, a: string, b: string)
    ensures Cell(rs, a, b) == Cell(rs, b, a)
  {
    assert SharingMails(rs, a, b) == SharingMails(rs, b, a);
  }

  /** A co-occurrence matrix is symmetric and has a zero diagonal. */
  lemma CoOccurrenceSymmetric(rs: seq<Entry>, labels: seq<string>, cells: seq<seq<nat>>)
    requires IsCoOccurrence(rs, labels, cells)
    ensures forall i, j :: 0 <= i < |cells| && 0 <= j < |cells| ==> cells[i][j] == cells[j][i] && cells[i][i] == 0
  {
    forall i, j | 0 <= i < |cells| && 0 <= j < |cells|
      ensures cells[i][j] == cells[j][i] && cells[i][i] == 0
    {
      CellSymmetric(rs, labels[i], labels[j]);
    }
  }

  /** The entries determine their co-occurrence matrix: axis and cells alike. */
  lemma CoOccurrenceUnique(rs: seq<Entry>, labels: seq<string>, cells: seq<seq<nat>>,
                           labels': seq<string>, cells': seq<seq<nat>>)
    requires IsCoOccurrence(rs, labels, cells)
    requires IsCoOccurrence(rs, labels', cells')
    ensures labels == labels' && cells == cells'
  {
    StrictlySortedUnique(labels, labels');
    forall i | 0 <= i < |cells|
      ensures cells[i] == cells'[i]
    {
      forall j | 0 <= j < |cells[i]|
        ensures cells[i][j] == cells'[i][j]
      {
        assert cells[i][j] == Cell(rs, labels[i], labels[j]);
        assert cells'[i][j] == Cell(rs, labels'[i], labels'[j]);
      }
    }
  }
}
