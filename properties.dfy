/** What a cell of the co-occurrence matrix means, stated about `Cell`, the
    function `ProcessFile` is proved against. */
module CoOccurrenceFacts {
  import opened Collections
  import opened Tables
  import opened PairCounting
  import opened CoOccurrence

  /** Only which entries occur matters: neither row order nor repeated rows
      change any cell. */
  lemma CellDependsOnlyOnEntries(rs: seq<Entry>, rs': seq<Entry>, a: string, b: string)
    requires forall e :: e in rs <==> e in rs'
    ensures Cell(rs, a, b) == Cell(rs', a, b)
  {
    assert Mails(rs) == Mails(rs') by {
      forall m | m in Mails(rs) ensures m in Mails(rs') {
        var e :| e in rs && e.mail == m;
        assert e in rs';
      }
      forall m | m in Mails(rs') ensures m in Mails(rs) {
        var e :| e in rs' && e.mail == m;
        assert e in rs;
      }
    }
    assert SharingMails(rs, a, b) == SharingMails(rs', a, b);
  }

  /** The rows of one mail: one entry per listed campaign name, repetitions allowed. */
  function MailRows(mail: string, campaigns: seq<string>): (rs: seq<Entry>)
    ensures forall e :: e in rs <==> e.mail == mail && e.campaign in campaigns
  {
    if campaigns == [] then []
    else
      assert campaigns == [campaigns[0]] + campaigns[1..];
      [Entry(mail, campaigns[0])] + MailRows(mail, campaigns[1..])
  }

  /** A mail not yet seen adds exactly one to the cell of every pair of
      different names among its campaigns, however often each is repeated,
      and leaves every other cell alone. */
  lemma NewMailAddsOne(rs: seq<Entry>, mail: string, campaigns: seq<string>, a: string, b: string)
    requires mail !in Mails(rs)
    requires a != b
    ensures Cell(rs + MailRows(mail, campaigns), a, b)
      == Cell(rs, a, b) + (if a in campaigns && b in campaigns then 1 else 0)
  {
    var rs' := rs + MailRows(mail, campaigns);
    var before, after := SharingMails(rs, a, b), SharingMails(rs', a, b);
    forall m | m in before ensures m in after {
      var e :| e in rs && e.mail == m;
      assert e in rs';
    }
    forall m | m in after && m != mail ensures m in before {
      assert Entry(m, a) !in MailRows(mail, campaigns);
      assert Entry(m, a) in rs;
    }
    assert mail !in before;
    if a in campaigns && b in campaigns {
      assert Entry(mail, a) in rs';
      assert after == before + {mail};
    } else {
      assert mail !in after;
      assert after == before;
    }
  }

  /** A campaign name whose mails have no other campaign gets an all-zero
      row (and, by symmetry, column). */
  lemma IsolatedCampaignZeroRow(rs: seq<Entry>, a: string)
    requires forall e :: e in rs && Entry(e.mail, a) in rs ==> e.campaign == a
    ensures forall b :: Cell(rs, a, b) == 0
  {
  }

  /** No cell exceeds the number of distinct mails. */
  lemma CellAtMostMails(rs: seq<Entry>, a: string, b: string)
    ensures Cell(rs, a, b) <= |Mails(rs)|
  {
    if a != b {
      SubsetCardinality(SharingMails(rs, a, b), Mails(rs));
    }
  }

  lemma {:induction false} SubsetCardinality(s: set<string>, t: set<string>)
    requires s <= t
    ensures |s| <= |t|
    decreases |t|
  {
    if s != {} {
      var x :| x in s;
      SubsetCardinality(s - {x}, t - {x});
    }
  }

  /** The entries of a small example: mail 1 with X and Y, mail 2 with X and
      Z, mail 3 with Y alone. */
  function Example(): seq<Entry>
  {
    [Entry("1", "X"), Entry("1", "Y"), Entry("2", "X"), Entry("2", "Z"), Entry("3", "Y")]
  }

  lemma ExampleMails()
    ensures Mails(Example()) == {"1", "2", "3"}
  {
    var rs := Example();
    assert rs[0] in rs && rs[2] in rs && rs[4] in rs;
  }

  /** In the example X meets Y once (mail 1) and Z once (mail 2). */
  lemma ExampleCellX(b: string)
    requires b == "Y" || b == "Z"
    ensures Cell(Example(), "X", b) == 1
  {
    ExampleMails();
    assert SharingMails(Example(), "X", b) == {if b == "Y" then "1" else "2"};
  }

  /** In the example Y never meets Z. */
  lemma ExampleCellYZ()
    ensures Cell(Example(), "Y", "Z") == 0
  {
    ExampleMails();
    assert SharingMails(Example(), "Y", "Z") == {};
  }

  /** The example's campaign names, and X, Y, Z is their ascending order. */
  lemma ExampleLabels()
    ensures Campaigns(Example()) == {"X", "Y", "Z"}
    ensures StrictlySorted(["X", "Y", "Z"])
  {
    var rs := Example();
    assert rs[0] in rs && rs[1] in rs && rs[3] in rs;
  }

  /** Every cell of the example by position on the axis X, Y, Z. */
  lemma ExampleCells(i: nat, j: nat)
    requires i < 3 && j < 3
    ensures Cell(Example(), ["X", "Y", "Z"][i], ["X", "Y", "Z"][j]) == [[0, 1, 1], [1, 0, 0], [1, 0, 0]][i][j]
  {
    var rs := Example();
    if i != j {
      CellSymmetric(rs, "X", "Y");
      CellSymmetric(rs, "X", "Z");
      CellSymmetric(rs, "Y", "Z");
      ExampleCellX("Y");
      ExampleCellX("Z");
      ExampleCellYZ();
    }
  }

  /** The example's matrix over X, Y, Z. */
  lemma ExampleMatrix()
    ensures IsCoOccurrence(Example(), ["X", "Y", "Z"], [[0, 1, 1], [1, 0, 0], [1, 0, 0]])
  {
    ExampleLabels();
    forall i, j | 0 <= i < 3 && 0 <= j < 3
      ensures Cell(Example(), ["X", "Y", "Z"][i], ["X", "Y", "Z"][j]) == [[0, 1, 1], [1, 0, 0], [1, 0, 0]][i][j]
    {
      ExampleCells(i, j);
    }
  }

  /** `process_file` on a five-row upload named `in.csv`: the output file is
      `co_occurrence_matrix_in.csv`, its axis is X, Y, Z, and X meets Y and Z
      once each while Y and Z never meet. */
  method ProcessExample() returns (r: Result<Output>)
    ensures r == Success(Output("co_occurrence_matrix_in.csv", ["X", "Y", "Z"], [[0, 1, 1], [1, 0, 0], [1, 0, 0]]))
  {
    var table := Table([MailHeader, CampaignHeader], [["1", "X"], ["1", "Y"], ["2", "X"], ["2", "Z"], ["3", "Y"]]);
    r := ProcessFile(table, "in.csv");
    assert HasRequiredColumns(table.columns);
    assert Select(table).value == Example();
    assert r.value.name == "co_occurrence_matrix_in.csv";
    ExampleMatrix();
    CoOccurrenceUnique(Example(), r.value.labels, r.value.cells, ["X", "Y", "Z"], [[0, 1, 1], [1, 0, 0], [1, 0, 0]]);
  }
}
