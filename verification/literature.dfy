/** The literature table: its rows, the two ways a record is stored, the
    filters of the browsing view and the choices its select boxes offer.
    The table is a sequence of rows in storage order; SQLite and pandas are
    outside the model, and their behaviour is written out where the
    application depends on it. */
module Literature {
  import opened Wrappers
  import opened Text
  import opened Bibliographic

  /** A stored SQLite value (no floating point). */
  datatype Value = Null | Int(i: int) | Str(s: string)

  /** The columns of a `metadata` row other than `id`. `category` is the
      column the code calls カテゴリ or 関連テーマ. */
  datatype Fields = Fields(
    title: Value,
    authors: Value,
    journal: Value,
    volume: Value,
    issue: Value,
    firstPage: Value,
    lastPage: Value,
    year: Value,
    summary: Value,
    keywords: Value,
    category: Value,
    doi: Value,
    doiUrl: Value,
    fileLink: Value,
    memo: Value,
    read: Value)

  datatype Row = Row(id: int, fields: Fields)

  // ------------------------------------------------------------- sequences

  /** The rows of `xs` satisfying `p`, in order. */
  function KeepWhere(xs: seq<Row>, p: Row -> bool): (r: seq<Row>)
    ensures |r| <= |xs|
    ensures forall x :: x in r <==> x in xs && p(x)
  {
    if |xs| == 0 then []
    else (if p(xs[0]) then [xs[0]] else []) + KeepWhere(xs[1..], p)
  }

  /** Keeping by two predicates that agree on `xs` keeps the same elements. */
  lemma {:induction false} KeepWhereAgree(xs: seq<Row>, p: Row -> bool, q: Row -> bool)
    requires forall x :: x in xs ==> p(x) == q(x)
    ensures KeepWhere(xs, p) == KeepWhere(xs, q)
  {
    if |xs| > 0 {
      assert forall x :: x in xs[1..] ==> x in xs;
      KeepWhereAgree(xs[1..], p, q);
    }
  }

  /** Keeping by a predicate every element satisfies keeps everything. */
  lemma {:induction false} KeepWhereAll(xs: seq<Row>, p: Row -> bool)
    requires forall x :: x in xs ==> p(x)
    ensures KeepWhere(xs, p) == xs
  {
    if |xs| > 0 {
      assert forall x :: x in xs[1..] ==> x in xs;
      KeepWhereAll(xs[1..], p);
      assert [xs[0]] + xs[1..] == xs;
    }
  }

  function Ids(rows: seq<Row>): (r: set<int>)
    ensures forall id :: id in r <==> exists i :: 0 <= i < |rows| && rows[i].id == id
  {
    set i | 0 <= i < |rows| :: rows[i].id
  }

  predicate UniqueIds(rows: seq<Row>) {
    forall i, j :: 0 <= i < j < |rows| ==> rows[i].id != rows[j].id
  }

  predicate UniqueDois(rows: seq<Row>) {
    forall i, j :: 0 <= i < j < |rows| ==> rows[i].fields.doi != rows[j].fields.doi
  }

  // ----------------------------------------------------------- row ids

  /** The largest id, or 0 for an empty table. */
  function MaxId(rows: seq<Row>): (m: int)
    ensures forall i :: 0 <= i < |rows| ==> rows[i].id <= m
    ensures |rows| > 0 ==> exists i :: 0 <= i < |rows| && rows[i].id == m
  {
    if |rows| == 0 then 0
    else if |rows| == 1 then rows[0].id
    else
      var m := MaxId(rows[1..]);
      assert exists i :: 0 <= i < |rows| - 1 && rows[1..][i].id == m;
      if rows[0].id >= m then rows[0].id else m
  }

  /** The id SQLite gives a row inserted without one: one more than the
      largest id, or 1 in an empty table. */
  function NextId(rows: seq<Row>): (id: int)
    ensures forall i :: 0 <= i < |rows| ==> rows[i].id < id
    ensures |rows| == 0 ==> id == 1
  {
    if |rows| == 0 then 1 else MaxId(rows) + 1
  }

  /** Inserting a row without an id. */
  function Insert(rows: seq<Row>, f: Fields): (r: seq<Row>)
    ensures |r| == |rows| + 1 && r[..|rows|] == rows
    ensures Last(r).fields == f && Last(r).id !in Ids(rows)
    ensures UniqueIds(rows) ==> UniqueIds(r)
  {
    rows + [Row(NextId(rows), f)]
  }

  // ------------------------------------------------------------ storing

  /** How sqlite3 binds a value of the metadata dictionary: `None`, integers
      and booleans and strings are stored; a list or a dictionary is a binding
      error. */
  function ToValue(j: Json): (r: Outcome<Value>)
    ensures r.Ok? <==> !(j.JArr? || j.JObj?)
    ensures j.JStr? ==> r == Ok(Str(j.s))
    ensures j.JNull? ==> r == Ok(Null)
  {
    match j
    case JNull => Ok(Null)
    case JBool(b) => Ok(Int(if b then 1 else 0))
    case JNum(n) => Ok(Int(n))
    case JStr(s) => Ok(Str(s))
    case _ => Raised
  }

  /** `f"https://doi.org/{doi}"`. */
  function DoiUrl(doi: string): string {
    "https://doi.org/" + doi
  }

  /** The bibliographic columns of `f` are the record's values as sqlite3
      binds them: title, journal, volume, issue, both pages and year. */
  predicate BoundFrom(m: Metadata, f: Fields) {
    && ToValue(m.title) == Ok(f.title)
    && ToValue(m.journal) == Ok(f.journal)
    && ToValue(m.volume) == Ok(f.volume)
    && ToValue(m.issue) == Ok(f.issue)
    && ToValue(m.firstPage) == Ok(f.firstPage)
    && ToValue(m.lastPage) == Ok(f.lastPage)
    && ToValue(m.year) == Ok(f.year)
  }

  /** The row a record of `metadata` becomes; the columns the upload form
      fills are parameters. */
  function RecordFields(m: Metadata, fileLink: string, keywords: Value, category: Value, memo: Value, read: bool)
    : (r: Outcome<Fields>)
    ensures r.Ok? <==> forall j :: j in [m.title, m.journal, m.volume, m.issue, m.firstPage, m.lastPage, m.year] ==> ToValue(j).Ok?
    ensures r.Ok? ==> r.value.doi == Str(m.doi) && r.value.doiUrl == Str(DoiUrl(m.doi)) && r.value.fileLink == Str(fileLink)
    ensures r.Ok? ==> r.value.authors == Str(m.authors) && r.value.summary == Null
    ensures r.Ok? ==> r.value.keywords == keywords && r.value.category == category && r.value.memo == memo
    ensures r.Ok? ==> r.value.read == Int(if read then 1 else 0)
    ensures r.Ok? ==> BoundFrom(m, r.value)
  {
    var title :- ToValue(m.title);
    var journal :- ToValue(m.journal);
    var volume :- ToValue(m.volume);
    var issue :- ToValue(m.issue);
    var firstPage :- ToValue(m.firstPage);
    var lastPage :- ToValue(m.lastPage);
    var year :- ToValue(m.year);
    Ok(Fields(title, Str(m.authors), journal, volume, issue, firstPage, lastPage, year,
              Null, keywords, category, Str(m.doi), Str(DoiUrl(m.doi)), Str(fileLink), memo,
              Int(if read then 1 else 0)))
  }

  predicate HasDoi(rows: seq<Row>, doi: string) {
    exists i :: 0 <= i < |rows| && rows[i].fields.doi == Str(doi)
  }

  /** `store_metadata_in_db_batch`: a DOI already in the table leaves it
      unchanged; otherwise the record is inserted with its resolver link,
      unread, with no summary, keywords, category or memo. A missing record
      (`None`) and a value sqlite3 cannot bind are errors the function
      catches, rolling back. */
  function StoreBatch(rows: seq<Row>, metadata: Option<Metadata>, fileLink: string): (r: seq<Row>)
    ensures metadata.None? ==> r == rows
    ensures metadata.Some? && HasDoi(rows, metadata.value.doi) ==> r == rows
    ensures r != rows ==> (metadata.Some? && !HasDoi(rows, metadata.value.doi)
      && RecordFields(metadata.value, fileLink, Null, Null, Null, false).Ok?
      && r == Insert(rows, RecordFields(metadata.value, fileLink, Null, Null, Null, false).value))
    ensures UniqueDois(rows) ==> UniqueDois(r)
    ensures UniqueIds(rows) ==> UniqueIds(r)
  {
    match metadata
    case None => rows
    case Some(m) =>
      if HasDoi(rows, m.doi) then rows
      else
        match RecordFields(m, fileLink, Null, Null, Null, false)
        case Ok(f) => Insert(rows, f)
        case _ => rows
  }

  /** A batch insert of a new DOI whose values sqlite3 can bind adds exactly one row. */
  lemma StoreBatchAdds(rows: seq<Row>, m: Metadata, fileLink: string)
    requires !HasDoi(rows, m.doi)
    requires RecordFields(m, fileLink, Null, Null, Null, false).Ok?
    ensures var r := StoreBatch(rows, Some(m), fileLink);
      |r| == |rows| + 1 && r[..|rows|] == rows && HasDoi(r, m.doi)
      && Last(r).fields.read == Int(0) && Last(r).fields.doiUrl == Str(DoiUrl(m.doi))
  {
    var r := StoreBatch(rows, Some(m), fileLink);
    assert r[|rows|].fields.doi == Str(m.doi);
  }

  /** The upload form of `store_metadata_in_db`: whether it was submitted and
      what it holds. */
  datatype Form = Form(submitted: bool, category: Option<string>, keywords: seq<string>, memo: string, read: bool)

  /** The columns the `Metadata` class of `database.py` declares. */
  const DeclaredColumns: set<string> := {
    "id", "タイトル", "著者", "ジャーナル", "巻", "号", "開始ページ", "終了ページ", "年", "要約",
    "キーワード", "カテゴリ", "doi", "doi_url", "ファイルリンク", "メモ", "Read"}

  /** The keyword arguments the upload form passes to `Metadata(...)`, given
      the name it uses for the category column. */
  function FormKeywords(categoryName: string): seq<string> {
    ["doi", "タイトル", "著者", "ジャーナル", "巻", "号", "開始ページ", "終了ページ", "年",
     "doi_url", "ファイルリンク", "キーワード", categoryName, "メモ", "Read"]
  }

  /** The declarative constructor accepts only declared columns; any other
      keyword raises TypeError. */
  predicate Constructible(keywords: seq<string>) {
    forall k :: 0 <= k < |keywords| ==> keywords[k] in DeclaredColumns
  }

  function FormCategory(form: Form): Value {
    if form.category.Some? then Str(form.category.value) else Null
  }

  /** The row the submitted form stores with the record. */
  function FormFields(m: Metadata, fileLink: string, form: Form): Outcome<Fields> {
    RecordFields(m, fileLink, Str(Join(form.keywords, ",")), FormCategory(form), Str(form.memo), form.read)
  }

  /** The upload form of both `store_metadata_in_db` functions, passing the
      category under `categoryName`: the duplicate guard, then on submission
      the constructor, then the insert. Every exception on the way is caught
      by `except Exception` and rolled back. */
  function StoreForm(rows: seq<Row>, metadata: Option<Metadata>, fileLink: string, form: Form, categoryName: string): seq<Row> {
    match metadata
    case None => rows
    case Some(m) =>
      if HasDoi(rows, m.doi) || !form.submitted || !Constructible(FormKeywords(categoryName)) then rows
      else
        match FormFields(m, fileLink, form)
        case Ok(f) => Insert(rows, f)
        case _ => rows
  }

  /** `store_metadata_in_db` of `function.py`: the same duplicate guard; on
      submission the record is stored with its resolver link, the file link,
      and the form's category, keywords (joined with `,`), memo and read
      flag. */
  function StoreInteractive(rows: seq<Row>, metadata: Option<Metadata>, fileLink: string, form: Form): (r: seq<Row>)
    ensures metadata.None? || !form.submitted ==> r == rows
    ensures metadata.Some? && HasDoi(rows, metadata.value.doi) ==> r == rows
    ensures (metadata.Some? && form.submitted && !HasDoi(rows, metadata.value.doi)
             && FormFields(metadata.value, fileLink, form).Ok?) ==>
      r == Insert(rows, FormFields(metadata.value, fileLink, form).value)
    ensures r != rows ==> (metadata.Some? && form.submitted && !HasDoi(rows, metadata.value.doi)
      && FormFields(metadata.value, fileLink, form).Ok?
      && |r| == |rows| + 1 && r[..|rows|] == rows
      && Last(r).fields.doi == Str(metadata.value.doi)
      && Last(r).fields.doiUrl == Str(DoiUrl(metadata.value.doi))
      && Last(r).fields.fileLink == Str(fileLink)
      && Last(r).fields.authors == Str(metadata.value.authors)
      && Last(r).fields.keywords == Str(Join(form.keywords, ","))
      && Last(r).fields.category == FormCategory(form)
      && Last(r).fields.memo == Str(form.memo)
      && Last(r).fields.read == Int(if form.read then 1 else 0)
      && BoundFrom(metadata.value, Last(r).fields))
    ensures UniqueDois(rows) ==> UniqueDois(r)
    ensures UniqueIds(rows) ==> UniqueIds(r)
  {
    FormKeywordsDeclared();
    StoreForm(rows, metadata, fileLink, form, "カテゴリ")
  }

  lemma FormKeywordsDeclared()
    ensures Constructible(FormKeywords("カテゴリ"))
  {
  }

  /** The keywords stored by the form split back into the chosen keywords,
      provided none of them contains a comma. */
  lemma StoredKeywordsSplit(rows: seq<Row>, m: Metadata, fileLink: string, form: Form)
    requires |form.keywords| >= 1 && forall i :: 0 <= i < |form.keywords| ==> ',' !in form.keywords[i]
    requires StoreInteractive(rows, Some(m), fileLink, form) != rows
    ensures var r := StoreInteractive(rows, Some(m), fileLink, form);
      Last(r).fields.keywords.Str? && SplitOn(Last(r).fields.keywords.s, ",") == form.keywords
  {
    SplitJoin(form.keywords, ',');
  }

  /** `store_metadata_in_db` of `backup_app.py` as written: it passes the
      category under the keyword 関連テーマ, which the `Metadata` class does
      not declare. The constructor raises TypeError, the function catches it,
      and a submitted form stores nothing. */
  function StoreInteractiveAsWritten(rows: seq<Row>, metadata: Option<Metadata>, fileLink: string, form: Form): (r: seq<Row>)
    ensures r == rows
  {
    assert FormKeywords("関連テーマ")[12] !in DeclaredColumns;
    StoreForm(rows, metadata, fileLink, form, "関連テーマ")
  }

  /** The as-written version never stores, where the intended one stores every
      new, bindable record on submission. */
  lemma StoreInteractiveAsWrittenLosesRecord(rows: seq<Row>, m: Metadata, fileLink: string, form: Form)
    requires form.submitted && !HasDoi(rows, m.doi)
    requires FormFields(m, fileLink, form).Ok?
    ensures StoreInteractiveAsWritten(rows, Some(m), fileLink, form) == rows
    ensures |StoreInteractive(rows, Some(m), fileLink, form)| == |rows| + 1
  {
  }

  // ------------------------------------------------------------ filtering

  /** The selections of the browsing view; `None` and `""` mean "all". */
  datatype Criteria = Criteria(
    status: Option<bool>,
    category: Option<string>,
    journal: Option<string>,
    author: Option<string>,
    keyword: Option<string>,
    text: string)

  function NoCriteria(): Criteria {
    Criteria(None, None, None, None, None, "")
  }

  /** `str(v)` of a cell after pandas read it back. */
  function Render(v: Value): string {
    match v
    case Null => "None"
    case Int(i) => IntToString(i)
    case Str(s) => s
  }

  /** The row's cells in column order, as `row.astype(str)` renders them. */
  function RenderRow(r: Row): (cells: seq<string>)
    ensures |cells| == 17
  {
    var f := r.fields;
    [IntToString(r.id), Render(f.title), Render(f.authors), Render(f.journal), Render(f.volume),
     Render(f.issue), Render(f.firstPage), Render(f.lastPage), Render(f.year), Render(f.summary),
     Render(f.keywords), Render(f.category), Render(f.doi), Render(f.doiUrl), Render(f.fileLink),
     Render(f.memo), Render(f.read)]
  }

  /** Some cell of the row contains `text`, ignoring case. */
  predicate TextMatches(r: Row, text: string) {
    exists k :: 0 <= k < 17 && ContainsIgnoreCase(RenderRow(r)[k], text)
  }

  /** `column.str.contains(pat)` on one cell, `None` for a missing value. */
  function CellContains(v: Value, pat: string): Option<bool> {
    if v.Str? then Some(Contains(v.s, pat)) else None
  }

  /** The row passes every selected criterion: the reference the filter
      chain is compared against. */
  predicate Matches(c: Criteria, r: Row) {
    && (c.status.Some? ==> r.fields.read == Int(if c.status.value then 1 else 0))
    && (c.category.Some? ==> r.fields.category == Str(c.category.value))
    && (c.journal.Some? ==> r.fields.journal == Str(c.journal.value))
    && (c.author.Some? ==> CellContains(r.fields.authors, c.author.value) == Some(true))
    && (c.keyword.Some? ==> CellContains(r.fields.keywords, c.keyword.value) == Some(true))
    && (c.text != "" ==> TextMatches(r, c.text))
  }

  /** The read-status selection: `Read == selected_status`. */
  function ByRead(read: bool): Row -> bool {
    (x: Row) => x.fields.read == Int(if read then 1 else 0)
  }

  function ByCategory(category: string): Row -> bool {
    (x: Row) => x.fields.category == Str(category)
  }

  function ByJournal(journal: string): Row -> bool {
    (x: Row) => x.fields.journal == Str(journal)
  }

  function AuthorsOf(f: Fields): Value {
    f.authors
  }

  function KeywordsOf(f: Fields): Value {
    f.keywords
  }

  /** The rows whose `column` cell contains `pat`. */
  function Containing(column: Fields -> Value, pat: string): Row -> bool {
    (x: Row) => CellContains(column(x.fields), pat) == Some(true)
  }

  /** The free-text selection over every rendered cell. */
  function ByText(text: string): Row -> bool {
    (x: Row) => TextMatches(x, text)
  }

  /** A `str.contains` step: a missing value makes the mask unusable, and
      indexing with it raises. */
  function KeepContaining(rows: seq<Row>, column: Fields -> Value, pat: string): (r: Outcome<seq<Row>>)
    ensures !r.Caught?
    ensures r.Ok? <==> forall x :: x in rows ==> column(x.fields).Str?
    ensures r.Ok? ==> r.value == KeepWhere(rows, Containing(column, pat))
  {
    if forall x :: x in rows ==> column(x.fields).Str? then
      Ok(KeepWhere(rows, Containing(column, pat)))
    else Raised
  }


  /** Two keeps in a row are one keep by the conjunction. */
  lemma {:induction false} KeepWhereTwice(xs: seq<Row>, p: Row -> bool, q: Row -> bool)
    ensures KeepWhere(KeepWhere(xs, p), q) == KeepWhere(xs, (x: Row) => p(x) && q(x))
  {
    if |xs| > 0 {
      KeepWhereTwice(xs[1..], p, q);
      var rest := KeepWhere(xs[1..], p);
      if p(xs[0]) {
        assert KeepWhere(xs, p) == [xs[0]] + rest;
        assert ([xs[0]] + rest)[1..] == rest;
      } else {
        assert KeepWhere(xs, p) == rest;
      }
    }
  }

  /** One optional step of the chain, applied to the rows kept by `q`, is
      the keep by `q` and, when the step is on, `p`. */
  lemma KeepStep(rows: seq<Row>, q: Row -> bool, on: bool, p: Row -> bool, q': Row -> bool)
    requires forall x :: x in rows ==> q'(x) == (q(x) && (on ==> p(x)))
    ensures (if on then KeepWhere(KeepWhere(rows, q), p) else KeepWhere(rows, q)) == KeepWhere(rows, q')
  {
    if on {
      KeepWhereTwice(rows, q, p);
      KeepWhereAgree(rows, (x: Row) => q(x) && p(x), q');
    } else {
      KeepWhereAgree(rows, q, q');
    }
  }

  /** The first `k` criteria of the chain, in the source's order, hold for `x`. */
  predicate MatchesUpTo(c: Criteria, k: nat, x: Row) {
    && (k >= 1 && c.status.Some? ==> ByRead(c.status.value)(x))
    && (k >= 2 && c.category.Some? ==> ByCategory(c.category.value)(x))
    && (k >= 3 && c.journal.Some? ==> ByJournal(c.journal.value)(x))
    && (k >= 4 && c.author.Some? ==> Containing(AuthorsOf, c.author.value)(x))
    && (k >= 5 && c.keyword.Some? ==> Containing(KeywordsOf, c.keyword.value)(x))
    && (k >= 6 && c.text != "" ==> ByText(c.text)(x))
  }

  function UpTo(c: Criteria, k: nat): Row -> bool {
    (x: Row) => MatchesUpTo(c, k, x)
  }

  /** The three equality steps of the chain (read status, category,
      journal): the rows meeting the first three criteria, in table order. */
  function KeepEqual(c: Criteria, rows: seq<Row>): (r: seq<Row>)
    ensures r == KeepWhere(rows, UpTo(c, 3))
  {
    var s1 := if c.status.Some? then KeepWhere(rows, ByRead(c.status.value)) else rows;
    var s2 := if c.category.Some? then KeepWhere(s1, ByCategory(c.category.value)) else s1;
    var s3 := if c.journal.Some? then KeepWhere(s2, ByJournal(c.journal.value)) else s2;
    KeepWhereAll(rows, UpTo(c, 0));
    KeepStep(rows, UpTo(c, 0), c.status.Some?, if c.status.Some? then ByRead(c.status.value) else UpTo(c, 0), UpTo(c, 1));
    KeepStep(rows, UpTo(c, 1), c.category.Some?, if c.category.Some? then ByCategory(c.category.value) else UpTo(c, 0), UpTo(c, 2));
    KeepStep(rows, UpTo(c, 2), c.journal.Some?, if c.journal.Some? then ByJournal(c.journal.value) else UpTo(c, 0), UpTo(c, 3));
    s3
  }

  /** The filter chain of the browsing view, applied in the source's order:
      the equality steps, then author and keyword by `str.contains`, then
      the free text. */
  function Filter(c: Criteria, rows: seq<Row>): (r: Outcome<seq<Row>>)
    ensures !r.Caught?
    ensures c.author.None? && c.keyword.None? ==> r.Ok?
  {
    var s3 := KeepEqual(c, rows);
    var s4 :- if c.author.Some? then KeepContaining(s3, AuthorsOf, c.author.value) else Ok(s3);
    var s5 :- if c.keyword.Some? then KeepContaining(s4, KeywordsOf, c.keyword.value) else Ok(s4);
    Ok(if c.text != "" then KeepWhere(s5, ByText(c.text)) else s5)
  }

  /** When the chain does not raise, it is a single order-preserving keep of
      the table by the conjunction of the selected criteria. */
  lemma FilterIsKeepWhere(c: Criteria, rows: seq<Row>)
    requires Filter(c, rows).Ok?
    ensures Filter(c, rows).value == KeepWhere(rows, (x: Row) => Matches(c, x))
  {
    var s3 := KeepEqual(c, rows);
    var o4 := if c.author.Some? then KeepContaining(s3, AuthorsOf, c.author.value) else Ok(s3);
    assert o4.Ok?;
    var s4 := o4.value;
    KeepStep(rows, UpTo(c, 3), c.author.Some?, if c.author.Some? then Containing(AuthorsOf, c.author.value) else UpTo(c, 0), UpTo(c, 4));
    assert s4 == KeepWhere(rows, UpTo(c, 4));
    var o5 := if c.keyword.Some? then KeepContaining(s4, KeywordsOf, c.keyword.value) else Ok(s4);
    assert o5.Ok?;
    var s5 := o5.value;
    KeepStep(rows, UpTo(c, 4), c.keyword.Some?, if c.keyword.Some? then Containing(KeywordsOf, c.keyword.value) else UpTo(c, 0), UpTo(c, 5));
    assert s5 == KeepWhere(rows, UpTo(c, 5));
    KeepStep(rows, UpTo(c, 5), c.text != "", if c.text != "" then ByText(c.text) else UpTo(c, 0), UpTo(c, 6));
    KeepWhereAgree(rows, UpTo(c, 6), (x: Row) => Matches(c, x));
  }

  /** When the chain does not raise, a row is shown exactly when it is in the
      table and passes every selected criterion. */
  lemma FilterMatches(c: Criteria, rows: seq<Row>)
    requires Filter(c, rows).Ok?
    ensures forall r :: r in Filter(c, rows).value <==> r in rows && Matches(c, r)
  {
    FilterIsKeepWhere(c, rows);
  }

  /** With nothing selected the whole table is shown. */
  lemma FilterNothingSelected(rows: seq<Row>)
    ensures Filter(NoCriteria(), rows) == Ok(rows)
  {
  }

  /** The chain raises only through a missing author or keyword value. */
  lemma FilterOkWhenTextual(c: Criteria, rows: seq<Row>)
    requires forall x :: x in rows ==> x.fields.authors.Str? && x.fields.keywords.Str?
    ensures Filter(c, rows).Ok?
  {
  }

  // ---------------------------------------------------------- option lists

  /** `Series.unique()`: first occurrences, in order. */
  function Unique(xs: seq<Value>): (r: seq<Value>)
    ensures forall x :: x in r <==> x in xs
    ensures forall i, j :: 0 <= i < j < |r| ==> r[i] != r[j]
    decreases |xs|
  {
    if |xs| == 0 then []
    else
      var init := Unique(xs[..|xs| - 1]);
      assert forall x :: x in xs <==> x in xs[..|xs| - 1] || x == Last(xs);
      if Last(xs) in init then init else init + [Last(xs)]
  }

  /** `.str.split(',')` then `.str.strip()` of one cell: its stripped pieces,
      or a single missing value. */
  function CellPieces(v: Value): (r: seq<Value>)
    ensures |r| >= 1
    ensures v.Str? ==> |r| == |SplitOn(v.s, ",")| && forall k :: 0 <= k < |r| ==> r[k] == Str(Strip(SplitOn(v.s, ",")[k]))
    ensures !v.Str? ==> r == [Null]
  {
    if v.Str? then StripAll(SplitOn(v.s, ",")) else [Null]
  }

  function StripAll(parts: seq<string>): (r: seq<Value>)
    ensures |r| == |parts| && forall k :: 0 <= k < |parts| ==> r[k] == Str(Strip(parts[k]))
  {
    if |parts| == 0 then [] else [Str(Strip(parts[0]))] + StripAll(parts[1..])
  }

  /** `.explode()` of the split column. */
  function Explode(rows: seq<Row>, column: Fields -> Value): (r: seq<Value>)
    ensures forall v :: v in r <==> exists i :: 0 <= i < |rows| && v in CellPieces(column(rows[i].fields))
  {
    if |rows| == 0 then []
    else
      var rest := Explode(rows[1..], column);
      assert forall i :: 1 <= i < |rows| ==> rows[i] == rows[1..][i - 1];
      CellPieces(column(rows[0].fields)) + rest
  }

  /** The author and keyword choices: every distinct stripped comma-separated
      piece of the column, a missing cell counting as one missing value. */
  function PieceOptions(rows: seq<Row>, column: Fields -> Value): (r: seq<Value>)
    ensures forall i, j :: 0 <= i < j < |r| ==> r[i] != r[j]
    ensures forall v :: v in r <==> exists i :: 0 <= i < |rows| && v in CellPieces(column(rows[i].fields))
  {
    Unique(Explode(rows, column))
  }

  /** The category and journal choices: the distinct values of the column. */
  function ValueOptions(rows: seq<Row>, column: Fields -> Value): (r: seq<Value>)
    ensures forall i, j :: 0 <= i < j < |r| ==> r[i] != r[j]
    ensures forall v :: v in r <==> exists i :: 0 <= i < |rows| && column(rows[i].fields) == v
  {
    var values := seq(|rows|, i requires 0 <= i < |rows| => column(rows[i].fields));
    assert forall v :: v in values <==> exists i :: 0 <= i < |rows| && column(rows[i].fields) == v by {
      forall v | v in values
        ensures exists i :: 0 <= i < |rows| && column(rows[i].fields) == v
      {
        var i :| 0 <= i < |values| && values[i] == v;
      }
      forall v | exists i :: 0 <= i < |rows| && column(rows[i].fields) == v
        ensures v in values
      {
        var i :| 0 <= i < |rows| && column(rows[i].fields) == v;
        assert values[i] == v;
      }
    }
    Unique(values)
  }

  /** Every keyword chosen on the upload form comes back as a keyword choice
      of the browsing view. */
  lemma KeywordOfferedAgain(rows: seq<Row>, i: nat, k: nat)
    requires i < |rows| && rows[i].fields.keywords.Str?
    requires k < |SplitOn(rows[i].fields.keywords.s, ",")|
    ensures Str(Strip(SplitOn(rows[i].fields.keywords.s, ",")[k])) in PieceOptions(rows, (f: Fields) => f.keywords)
  {
    var pieces := CellPieces(rows[i].fields.keywords);
    assert pieces[k] in pieces;
  }
}
