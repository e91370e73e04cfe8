/** The uploaded CSV once parsed, the required-column check and the
    projection onto the two columns the co-occurrence matrix is built from
    (app.py, `process_file`). */
module Tables {
  import opened Collections

  /** The identifier column ("mail") and the category column ("campaign name"). */
  const MailHeader: string := "メール"
  const CampaignHeader: string := "キャンペーン名"

  /** A parsed table: the header row's column names and the data rows. */
  datatype Table = Table(columns: seq<string>, rows: seq<seq<string>>)
  {
    /** Every row has one cell per column, as in a parsed data frame. */
    ghost predicate Rectangular()
    {
      forall k :: 0 <= k < |rows| ==> |rows[k]| == |columns|
    }
  }

  /** One row restricted to the two columns: its mail and its campaign name. */
  datatype Entry = Entry(mail: string, campaign: string)

  /** The `ValueError` raised when a required column is absent. */
  datatype Error = MissingColumns

  datatype Result<T> = Success(value: T) | Failure(error: Error)

  predicate HasRequiredColumns(columns: seq<string>)
  {
    MailHeader in columns && CampaignHeader in columns
  }

  /** `data[['メール', 'キャンペーン名']]` after the column check: each row
      becomes the pair of its cells under the first column of each name. */
  function Select(t: Table): (r: Result<seq<Entry>>)
    requires t.Rectangular()
    ensures r.Failure? <==> MailHeader !in t.columns || CampaignHeader !in t.columns
    ensures r.Failure? ==> r.error == MissingColumns
    ensures r.Success? ==> |r.value| == |t.rows|
    ensures r.Success? ==>
      forall k, i :: 0 <= k < |t.rows| && 0 <= i < |t.columns| && t.columns[i] == MailHeader && MailHeader !in t.columns[..i]
        ==> r.value[k].mail == t.rows[k][i]
    ensures r.Success? ==>
      forall k, i :: 0 <= k < |t.rows| && 0 <= i < |t.columns| && t.columns[i] == CampaignHeader && CampaignHeader !in t.columns[..i]
        ==> r.value[k].campaign == t.rows[k][i]
  {
    if !HasRequiredColumns(t.columns) then Failure(MissingColumns)
    else
      var mi, ci := IndexOf(t.columns, MailHeader), IndexOf(t.columns, CampaignHeader);
      Success(seq(|t.rows|, k requires 0 <= k < |t.rows| => Entry(t.rows[k][mi], t.rows[k][ci])))
  }

  /** The mail column `data['メール']` of the projected rows. */
  function MailValues(rs: seq<Entry>): (r: seq<string>)
    ensures |r| == |rs| && forall k :: 0 <= k < |rs| ==> r[k] == rs[k].mail
  {
    seq(|rs|, k requires 0 <= k < |rs| => rs[k].mail)
  }

  /** The campaign column `data['キャンペーン名']` of the projected rows. */
  function CampaignValues(rs: seq<Entry>): (r: seq<string>)
    ensures |r| == |rs| && forall k :: 0 <= k < |rs| ==> r[k] == rs[k].campaign
  {
    seq(|rs|, k requires 0 <= k < |rs| => rs[k].campaign)
  }
}
