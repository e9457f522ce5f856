/** The summary page: which rows are offered for summarising, how each
    selected row is summarised and updated, and the write-back of the table.
    Downloading the PDF from Google Drive, extracting its text and asking
    the language model are one opaque parameter `ai`, from the Drive file id
    to the summary, the keyword list and the category. The page's import
    line names three functions `function.py` does not define; the model
    assumes they exist. */
module AiSummary {
  import opened Wrappers
  import opened Text
  import opened Literature
  import opened SaveEdits

  /** The summary cell is missing or empty. */
  predicate NeedsSummary(r: Row) {
    r.fields.summary == Null || r.fields.summary == Str("")
  }

  /** The rows selected by default: the ids of the rows still without a
      summary, in table order. */
  function DefaultSelection(rows: seq<Row>): (r: seq<int>)
    ensures |r| <= |rows|
    ensures forall id :: id in r <==> exists i :: 0 <= i < |rows| && rows[i].id == id && NeedsSummary(rows[i])
  {
    if |rows| == 0 then []
    else
      var rest := DefaultSelection(rows[1..]);
      assert forall i :: 1 <= i < |rows| ==> rows[i] == rows[1..][i - 1];
      (if NeedsSummary(rows[0]) then [rows[0].id] else []) + rest
  }

  // ------------------------------------------------------------ Drive links

  const DrivePrefix: string := "https://drive.google.com/uc?"

  /** The link the upload stores for a Drive file. */
  function DriveLink(fileId: string): string {
    DrivePrefix + "id=" + fileId
  }

  /** `link.split("id=")[-1]`: the file id the summary page downloads. */
  function FileId(link: string): string {
    AfterLast(link, "id=")
  }

  /** The only `i` of the prefix is the one of "drive", followed by `v`. */
  lemma DrivePrefixLetterI(i: nat)
    requires i < |DrivePrefix| && DrivePrefix[i] == 'i'
    ensures i == 10 && DrivePrefix[i + 1] == 'v'
  {
  }

  lemma DrivePrefixClean(fileId: string)
    ensures forall i :: 0 <= i < |DrivePrefix| ==> !OccursAt(DrivePrefix + "id=" + fileId, "id=", i)
  {
    var t := DrivePrefix + "id=" + fileId;
    forall i | 0 <= i < |DrivePrefix|
      ensures !OccursAt(t, "id=", i)
    {
      if OccursAt(t, "id=", i) {
        assert t[i..i + 3] == "id=";
        assert t[i] == 'i' && t[i + 1] == 'd';
        assert t[i] == DrivePrefix[i];
        DrivePrefixLetterI(i);
      }
    }
  }

  /** The file id survives the trip through the stored link exactly when it
      does not itself contain `id=`. */
  lemma FileIdRoundTrip(fileId: string)
    ensures FileId(DriveLink(fileId)) == fileId <==> !Contains(fileId, "id=")
  {
    if !Contains(fileId, "id=") {
      DrivePrefixClean(fileId);
      LastAfterPrefix(DrivePrefix, "id=", fileId);
    }
  }

  // -------------------------------------------------------------- summaries

  /** What the model returns for one file: summary, keyword list, category. */
  datatype Summary = Summary(text: string, keywords: seq<string>, category: string)

  /** The three cells the page sets on a summarised row. */
  function WithSummary(r: Row, s: Summary): (u: Row)
    ensures u.id == r.id
    ensures u.fields.summary == Str(s.text) && u.fields.category == Str(s.category)
    ensures u.fields.keywords == Str(Join(s.keywords, ","))
    ensures u.fields.(summary := r.fields.summary, keywords := r.fields.keywords, category := r.fields.category) == r.fields
  {
    r.(fields := r.fields.(keywords := Str(Join(s.keywords, ",")), summary := Str(s.text), category := Str(s.category)))
  }

  /** `u` is `rows` after summarising the `selected` ids: selected rows carry
      the summary of their own file, every other row is untouched. */
  predicate SummarisedFrom(rows: seq<Row>, selected: seq<int>, ai: string -> Summary, u: seq<Row>) {
    && |u| == |rows|
    && forall i :: 0 <= i < |rows| ==>
         if rows[i].id in selected then
           rows[i].fields.fileLink.Str? && u[i] == WithSummary(rows[i], ai(FileId(rows[i].fields.fileLink.s)))
         else u[i] == rows[i]
  }

  /** The position of the first row with id `id`. */
  method FindRow(rows: seq<Row>, id: int) returns (k: nat)
    requires id in Ids(rows)
    ensures k < |rows| && rows[k].id == id
    ensures forall j :: 0 <= j < k ==> rows[j].id != id
  {
    k := 0;
    while rows[k].id != id
      invariant k < |rows|
      invariant forall j :: 0 <= j < k ==> rows[j].id != id
      invariant exists j :: k <= j < |rows| && rows[j].id == id
      decreases |rows| - k
    {
      k := k + 1;
    }
  }

  /** The summary loop: for each selected id, read the row's file link, take
      the file id after the last `id=`, summarise that file and set the
      keywords (joined with `,`), summary and category of the rows with that
      id. A file link that is not a string raises AttributeError at `.split`,
      which nothing catches. */
  method Summarise(rows: seq<Row>, selected: seq<int>, ai: string -> Summary) returns (r: Outcome<seq<Row>>)
    requires UniqueIds(rows)
    requires forall k :: 0 <= k < |selected| ==> selected[k] in Ids(rows)
    ensures !r.Caught?
    ensures r.Ok? <==> forall i :: 0 <= i < |rows| && rows[i].id in selected ==> rows[i].fields.fileLink.Str?
    ensures r.Ok? ==> SummarisedFrom(rows, selected, ai, r.value)
  {
    var u := rows;
    var n := 0;
    while n < |selected|
      invariant 0 <= n <= |selected|
      invariant |u| == |rows|
      invariant forall i :: 0 <= i < |rows| ==> u[i].id == rows[i].id
      invariant forall i :: 0 <= i < |rows| && rows[i].id in selected[..n] ==>
        rows[i].fields.fileLink.Str? && u[i] == WithSummary(rows[i], ai(FileId(rows[i].fields.fileLink.s)))
      invariant forall i :: 0 <= i < |rows| && rows[i].id !in selected[..n] ==> u[i] == rows[i]
    {
      var id := selected[n];
      var k := FindRow(u, id);
      if !u[k].fields.fileLink.Str? {
        assert rows[k].id in selected;
        return Raised;
      }
      var s := ai(FileId(u[k].fields.fileLink.s));
      var before := u;
      u := seq(|before|, i requires 0 <= i < |before| => if before[i].id == id then WithSummary(before[i], s) else before[i]);
      assert selected[..n + 1] == selected[..n] + [id];
      forall i | 0 <= i < |rows| && rows[i].id == id
        ensures i == k
      {
        assert rows[k].id == id;
      }
      n := n + 1;
    }
    assert selected[..n] == selected;
    r := Ok(u);
  }

  /** After summarising the default selection, with every summary non-empty,
      no row is selected by default any more. */
  lemma DefaultSelectionCleared(rows: seq<Row>, ai: string -> Summary, u: seq<Row>)
    requires forall f :: ai(f).text != ""
    requires SummarisedFrom(rows, DefaultSelection(rows), ai, u)
    ensures DefaultSelection(u) == []
  {
    forall i | 0 <= i < |u|
      ensures !NeedsSummary(u[i])
    {
      if rows[i].id !in DefaultSelection(rows) {
        assert !NeedsSummary(rows[i]);
      }
    }
    if |DefaultSelection(u)| > 0 {
      assert DefaultSelection(u)[0] in DefaultSelection(u);
    }
  }

  /** The button of the summary page: summarise the selected rows of the
      session's frame, then write the whole frame back over the stored
      table with the save of the browsing view: the table becomes the frame,
      renumbered from 1. */
  method SummarisePage(stored: seq<Row>, frame: seq<Row>, selected: seq<int>, ai: string -> Summary)
    returns (r: Outcome<seq<Row>>)
    requires UniqueIds(frame)
    requires forall k :: 0 <= k < |selected| ==> selected[k] in Ids(frame)
    ensures !r.Caught?
    ensures r.Ok? <==> forall i :: 0 <= i < |frame| && frame[i].id in selected ==> frame[i].fields.fileLink.Str?
    ensures r.Ok? ==> |r.value| == |frame|
    ensures r.Ok? ==> forall i :: 0 <= i < |frame| ==>
      && r.value[i].id == i + 1
      && (frame[i].id in selected ==> r.value[i].fields == WithSummary(frame[i], ai(FileId(frame[i].fields.fileLink.s))).fields)
      && (frame[i].id !in selected ==> r.value[i].fields == frame[i].fields)
  {
    var u :- Summarise(frame, selected, ai);
    var table := Merge(stored, AsEdited(u));
    MergeRenumbers(stored, AsEdited(u));
    r := Ok(table);
  }
}
