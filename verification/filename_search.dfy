/** Finding a DOI from a file name when the PDF text has none: the CiNii
    OpenSearch page, the Crossref title search, and the choice the upload
    form makes between the PDF text and the file name. The web services are
    outside the model; their answers are inputs, keyed by the query. */
module FilenameSearch {
  import opened Wrappers
  import opened Text
  import opened Bibliographic
  import opened PdfText
  import opened DoiPattern

  /** The index of the last `c` in `s`, -1 when there is none (`str.rfind`). */
  function RFind(s: string, c: char): (r: int)
    ensures -1 <= r < |s|
    ensures r >= 0 ==> s[r] == c
    ensures forall k :: r < k < |s| ==> s[k] != c
  {
    if |s| == 0 then -1
    else if s[|s| - 1] == c then |s| - 1
    else RFind(s[..|s| - 1], c)
  }

  /** `os.path.splitext` on a POSIX path: the extension runs from the last
      `.` of the last path component, provided that dot is not part of the
      leading dots of the component. */
  function Splitext(p: string): (r: (string, string))
    ensures r.0 + r.1 == p
    ensures r.1 == [] || (r.1[0] == '.' && '.' !in r.1[1..] && '/' !in r.1)
    ensures '.' !in p ==> r == (p, [])
    ensures r.1 != [] <==> exists k, m :: 0 <= k < m < |p| && p[k] != '.' && p[m] == '.' && '/' !in p[k..]
  {
    var sepIndex := RFind(p, '/');
    var dotIndex := RFind(p, '.');
    if dotIndex > sepIndex && exists k :: sepIndex < k < dotIndex && p[k] != '.' then
      assert forall k :: dotIndex < k < |p| ==> p[k] == p[dotIndex..][k - dotIndex];
      assert exists k, m :: 0 <= k < m < |p| && p[k] != '.' && p[m] == '.' && '/' !in p[k..] by {
        var k :| sepIndex < k < dotIndex && p[k] != '.';
        assert forall j :: k <= j < |p| ==> p[k..][j - k] == p[j];
      }
      (p[..dotIndex], p[dotIndex..])
    else
      (p, [])
  }

  /** A plain file name `root + ".pdf"` loses exactly its `.pdf`. */
  lemma SplitextPdf(root: string)
    requires '/' !in root
    requires exists k :: 0 <= k < |root| && root[k] != '.'
    ensures Splitext(root + ".pdf") == (root, ".pdf")
  {
    var p := root + ".pdf";
    assert p[|root|] == '.';
    assert RFind(p, '.') == |root|;
    assert RFind(p, '/') == -1;
    var k :| 0 <= k < |root| && root[k] != '.';
    assert p[k] == root[k];
  }

  // ------------------------------------------------------------------- CiNii

  /** A CiNii OpenSearch answer: the request raised, or the status and the
      `href` of every `<a href=...>` of the page, in document order. */
  datatype SearchPage = RequestFailed | Page(status: int, hrefs: seq<string>)

  /** `href.split("doi.org/")[-1]`: the text after the last `doi.org/`. */
  function DoiAfterHost(href: string): string {
    AfterLast(href, "doi.org/")
  }

  /** A resolver link gives back the DOI it was built from. */
  lemma DoiAfterHostLink(scheme: string, d: string)
    requires scheme == "https://" || scheme == "http://"
    requires !Contains(d, "doi.org/")
    ensures DoiAfterHost(scheme + "doi.org/" + d) == d
  {
    NoOccurrenceInPrefix(scheme, "doi.org/", d);
    LastAfterPrefix(scheme, "doi.org/", d);
  }

  /** The loop over the links: the first link mentioning `doi.org` decides. */
  function FirstDoiLink(hrefs: seq<string>): (r: Option<string>)
    ensures r.None? <==> forall i :: 0 <= i < |hrefs| ==> !Contains(hrefs[i], "doi.org")
    ensures r.Some? ==> exists i :: (0 <= i < |hrefs| && Contains(hrefs[i], "doi.org")
      && r.value == DoiAfterHost(hrefs[i]) && forall j :: 0 <= j < i ==> !Contains(hrefs[j], "doi.org"))
  {
    if |hrefs| == 0 then None
    else if Contains(hrefs[0], "doi.org") then Some(DoiAfterHost(hrefs[0]))
    else
      var r := FirstDoiLink(hrefs[1..]);
      assert r.Some? ==> exists i :: (1 <= i < |hrefs| && Contains(hrefs[i], "doi.org")
        && r.value == DoiAfterHost(hrefs[i]) && forall j :: 1 <= j < i ==> !Contains(hrefs[j], "doi.org"))
      by {
        if r.Some? {
          var i :| 0 <= i < |hrefs| - 1 && Contains(hrefs[1..][i], "doi.org")
            && r.value == DoiAfterHost(hrefs[1..][i]) && forall j :: 0 <= j < i ==> !Contains(hrefs[1..][j], "doi.org");
          assert forall j :: 1 <= j < i + 1 ==> hrefs[j] == hrefs[1..][j - 1];
        }
      }
      r
  }

  /** `search_doi_on_cinii` once the query is fixed: nothing unless the
      status is 200, then the first DOI link. */
  function CiniiDoi(page: SearchPage): (r: Option<string>)
    ensures r.Some? ==> page.Page? && page.status == 200 && !Contains(r.value, "doi.org/")
  {
    if page.Page? && page.status == 200 then FirstDoiLink(page.hrefs) else None
  }

  /** A status-200 page with a link that mentions `doi.org`. */
  predicate HasDoiLink(page: SearchPage) {
    page.Page? && page.status == 200 && exists i :: 0 <= i < |page.hrefs| && Contains(page.hrefs[i], "doi.org")
  }

  /** `search_doi_on_cinii` of `function.py`: the query is the name without
      its extension. */
  function SearchDoiOnCinii(filename: string, cinii: string -> SearchPage): (r: Option<string>)
    ensures r.Some? ==> !Contains(r.value, "doi.org/")
    ensures r.Some? <==> HasDoiLink(cinii(Splitext(filename).0))
  {
    CiniiDoi(cinii(Splitext(filename).0))
  }

  /** `search_doi_on_cinii` of `backup_app.py`: the query is the stripped name. */
  function SearchDoiOnCiniiStripped(filename: string, cinii: string -> SearchPage): (r: Option<string>)
    ensures r.Some? ==> !Contains(r.value, "doi.org/")
    ensures r.Some? <==> HasDoiLink(cinii(Strip(filename)))
  {
    CiniiDoi(cinii(Strip(filename)))
  }

  // ---------------------------------------------------------------- Crossref

  /** Python's `key in value`: a dictionary key, a list element, a substring;
      a TypeError for anything else. */
  function HasMember(value: Json, key: string): (r: Outcome<bool>)
    ensures value.JObj? ==> r == Ok(key in value.fields)
    ensures value.JArr? ==> r == Ok(JStr(key) in value.items)
    ensures value.JStr? ==> r == Ok(Contains(value.s, key))
    ensures r.Raised? <==> !(value.JObj? || value.JArr? || value.JStr?)
    ensures !r.Caught?
  {
    match value
    case JObj(f) => Ok(key in f)
    case JArr(xs) => Ok(JStr(key) in xs)
    case JStr(s) => Ok(Contains(s, key))
    case _ => Raised
  }

  /** `"DOI" in item` holds false without raising. */
  predicate LacksDoi(item: Json) {
    HasMember(item, "DOI") == Ok(false)
  }

  /** The loop over `items`: the `DOI` of the first item that has one. An
      item that holds `"DOI"` without being a dictionary raises when indexed. */
  function FirstItemDoi(items: seq<Json>): (r: Outcome<Option<Json>>)
    ensures !r.Caught?
    ensures (forall i :: 0 <= i < |items| ==> items[i].JObj?) ==> r.Ok?
    ensures r.Ok? && r.value.None? ==> forall i :: 0 <= i < |items| ==> LacksDoi(items[i])
    ensures r.Ok? && r.value.Some? ==> exists i :: (0 <= i < |items| && items[i].JObj? && "DOI" in items[i].fields
      && r.value.value == items[i].fields["DOI"]
      && forall j :: 0 <= j < i ==> LacksDoi(items[j]))
  {
    if |items| == 0 then Ok(None)
    else
      var has :- HasMember(items[0], "DOI");
      if has then
        match items[0]
        case JObj(f) => Ok(Some(f["DOI"]))
        case _ => Raised
      else
        var r := FirstItemDoi(items[1..]);
        assert r.Ok? && r.value.Some? ==> exists i :: (1 <= i < |items| && items[i].JObj? && "DOI" in items[i].fields
          && r.value.value == items[i].fields["DOI"]
          && forall j :: 1 <= j < i ==> LacksDoi(items[j]))
        by {
          if r.Ok? && r.value.Some? {
            var i :| 0 <= i < |items| - 1 && items[1..][i].JObj? && "DOI" in items[1..][i].fields
              && r.value.value == items[1..][i].fields["DOI"]
              && forall j :: 0 <= j < i ==> LacksDoi(items[1..][j]);
            assert forall j :: 1 <= j < i + 1 ==> items[j] == items[1..][j - 1];
          }
        }
        r
  }

  /** `for item in message["items"]` over any JSON value: a string yields
      one-character strings, none of which holds `"DOI"`; a dictionary yields
      its keys, and a key holding `"DOI"` raises when indexed by a string. */
  function ItemsDoi(items: Json): (r: Outcome<Option<Json>>)
    ensures !r.Caught?
    ensures items.JArr? ==> r == FirstItemDoi(items.items)
  {
    match items
    case JArr(xs) => FirstItemDoi(xs)
    case JStr(_) => Ok(None)
    case JObj(f) => if exists k :: k in f && Contains(k, "DOI") then Raised else Ok(None)
    case _ => Raised
  }

  /** A status-200 answer whose body is JSON. */
  predicate Answered(response: Response) {
    response.Http? && response.status == 200 && response.body.Some?
  }

  /** `j` is an object with member `key`. */
  predicate HasKey(j: Json, key: string) {
    j.JObj? && key in j.fields
  }

  /** `search_doi_on_crossref` once the query is fixed. A failed request, a
      status other than 200 and a body that is not JSON (a RequestException
      in `requests`) give `None`; a body without `message` raises KeyError,
      which nothing catches. */
  function CrossrefSearchDoi(response: Response): (r: Outcome<Option<Json>>)
    ensures !r.Caught?
    ensures !(response.Http? && response.status == 200 && response.body.Some?) ==> r == Ok(None)
    ensures Answered(response) && !HasKey(response.body.value, "message") ==> r == Raised
    ensures (Answered(response) && HasKey(response.body.value, "message")
             && response.body.value.fields["message"].JObj?
             && !HasKey(response.body.value.fields["message"], "items")) ==> r == Ok(None)
  {
    match response
    case NoResponse => Ok(None)
    case Http(status, body) =>
      if status != 200 || body.None? then Ok(None)
      else
        var message :- match Index(body.value, "message")
          case Ok(m) => Ok(m)
          case _ => Raised;
        var has :- HasMember(message, "items");
        if !has then Ok(None)
        else
          match message
          case JObj(f) => ItemsDoi(f["items"])
          case _ => Raised
  }

  /** A well-formed search answer yields the DOI of its first item that has one. */
  lemma CrossrefSearchFirstItem(items: seq<Json>, i: nat)
    requires forall k :: 0 <= k < |items| ==> items[k].JObj?
    requires i < |items| && "DOI" in items[i].fields
    requires forall k :: 0 <= k < i ==> "DOI" !in items[k].fields
    ensures CrossrefSearchDoi(Http(200, Some(JObj(map["message" := JObj(map["items" := JArr(items)])]))))
      == Ok(Some(items[i].fields["DOI"]))
  {
    var r := FirstItemDoi(items);
    assert !LacksDoi(items[i]);
    var j :| 0 <= j < |items| && items[j].JObj? && "DOI" in items[j].fields
      && r.value.value == items[j].fields["DOI"]
      && forall k :: 0 <= k < j ==> LacksDoi(items[k]);
  }

  /** Python truthiness of a JSON value. */
  predicate Truthy(j: Json) {
    match j
    case JNull => false
    case JBool(b) => b
    case JNum(n) => n != 0
    case JStr(s) => |s| > 0
    case JArr(xs) => |xs| > 0
    case JObj(f) => |f| > 0
  }

  // ------------------------------------------------------------- the search

  /** `search_doi_from_filename` of `function.py`: CiNii first, then the
      Crossref title search; an empty answer counts as none. `cinii` and
      `crossref` answer a query (the name without its extension). */
  function SearchDoiFromFilename(filename: string, cinii: string -> SearchPage, crossref: string -> Response)
    : (r: Outcome<Option<Json>>)
    ensures !r.Caught?
    ensures r.Ok? && r.value.Some? ==> Truthy(r.value.value)
    ensures match SearchDoiOnCinii(filename, cinii)
      case Some(d) => |d| > 0 ==> r == Ok(Some(JStr(d)))
      case None => true
    ensures r.Raised? <==> CiniiGaveNothing(filename, cinii) && CrossrefSearchDoi(crossref(Splitext(filename).0)).Raised?
    ensures CiniiGaveNothing(filename, cinii) && CrossrefSearchDoi(crossref(Splitext(filename).0)).Ok? ==>
      var x := CrossrefSearchDoi(crossref(Splitext(filename).0)).value;
      r == Ok(if x.Some? && Truthy(x.value) then x else None)
  {
    var fromCinii := SearchDoiOnCinii(filename, cinii);
    if fromCinii.Some? && |fromCinii.value| > 0 then Ok(Some(JStr(fromCinii.value)))
    else
      var fromCrossref :- CrossrefSearchDoi(crossref(Splitext(filename).0));
      if fromCrossref.Some? && Truthy(fromCrossref.value) then Ok(fromCrossref) else Ok(None)
  }

  /** CiNii found no DOI, or an empty one. */
  predicate CiniiGaveNothing(filename: string, cinii: string -> SearchPage) {
    SearchDoiOnCinii(filename, cinii).None? || SearchDoiOnCinii(filename, cinii).value == []
  }

  /** Crossref is asked only when CiNii gave nothing usable. */
  lemma CrossrefOnlyAfterCinii(filename: string, cinii: string -> SearchPage, c1: string -> Response, c2: string -> Response)
    requires SearchDoiOnCinii(filename, cinii).Some? && |SearchDoiOnCinii(filename, cinii).value| > 0
    ensures SearchDoiFromFilename(filename, cinii, c1) == SearchDoiFromFilename(filename, cinii, c2)
  {
  }

  /** `search_doi_from_filename` of `backup_app.py`: CiNii alone. */
  function SearchDoiFromFilenameCinii(filename: string, cinii: string -> SearchPage): (r: Option<string>)
    ensures r.Some? ==> |r.value| > 0 && !Contains(r.value, "doi.org/")
    ensures r.None? <==> SearchDoiOnCiniiStripped(filename, cinii).None? || SearchDoiOnCiniiStripped(filename, cinii).value == []
  {
    var d := SearchDoiOnCiniiStripped(filename, cinii);
    if d.Some? && |d.value| > 0 then d else None
  }

  // ------------------------------------------------------------- the upload

  /** Where the upload form of `backup_app.py` takes its DOI from. */
  datatype UploadDoi = FromPdf(doi: string) | FromFilename(doi: string) | NoDoi

  /** The DOI step of the upload form: the DOI of the PDF's first two pages;
      failing that, the CiNii search on the file name without its
      extension; failing both, the "DOI could not be found" error. */
  function UploadDoiLookup(pageTexts: seq<string>, fileName: string, cinii: string -> SearchPage): (r: UploadDoi)
    ensures ProcessPdfPages(pageTexts).Some? ==> r == FromPdf(ProcessPdfPages(pageTexts).value)
    ensures r.FromPdf? ==> IsDoi(r.doi)
    ensures r.FromFilename? ==>
      ProcessPdfPages(pageTexts).None? && Some(r.doi) == SearchDoiFromFilenameCinii(Splitext(fileName).0, cinii)
    ensures r.NoDoi? <==> ProcessPdfPages(pageTexts).None? && SearchDoiFromFilenameCinii(Splitext(fileName).0, cinii).None?
  {
    var fromPdf := ProcessPdfPages(pageTexts);
    if fromPdf.Some? && |fromPdf.value| > 0 then FromPdf(fromPdf.value)
    else
      match SearchDoiFromFilenameCinii(Splitext(fileName).0, cinii)
      case Some(d) => FromFilename(d)
      case None => NoDoi
  }

  /** The file name matters only when the PDF text holds no DOI. */
  lemma UploadPrefersPdf(pageTexts: seq<string>, name1: string, name2: string, c1: string -> SearchPage, c2: string -> SearchPage)
    requires ProcessPdfPages(pageTexts).Some?
    ensures UploadDoiLookup(pageTexts, name1, c1) == UploadDoiLookup(pageTexts, name2, c2)
  {
  }
}
