/** `get_metadata_from_doi`: turning a Crossref or a JALC response into one
    flat metadata dictionary. The HTTP requests are outside the model; their
    responses are inputs. Python's exceptions are followed through the
    mapping code, apart from the gaps README's "## Left out" lists (JSON
    numbers are integers only, and `f"{x}"` of a container): the mapping
    code sits in a `try` that catches KeyError, ValueError and IndexError
    (`Caught`), while a TypeError or AttributeError escapes (`Raised`). */
module Bibliographic {
  import opened Wrappers
  import opened Text

  /** A decoded JSON value (numbers are integers). */
  datatype Json =
    | JNull
    | JBool(b: bool)
    | JNum(n: int)
    | JStr(s: string)
    | JArr(items: seq<Json>)
    | JObj(fields: map<string, Json>)

  /** The answer to a `requests.get`: `NoResponse` when the request itself
      raised (connection error, timeout); otherwise the status code and the
      body, `None` when the body is not valid JSON. */
  datatype Response = NoResponse | Http(status: int, body: Option<Json>)

  /** The dictionary `get_metadata_from_doi` returns. Where the source passes
      a JSON value through unchanged, the model keeps it as JSON. */
  datatype Metadata = Metadata(
    doi: string,
    title: Json,
    authors: string,
    journal: Json,
    volume: Json,
    issue: Json,
    firstPage: Json,
    lastPage: Json,
    year: Json)

  /** The result of `get_metadata_from_doi`: a dictionary, `None`, or an
      exception that escapes it. */
  datatype Fetch = Found(metadata: Metadata) | NotFound | Crashed

  const NotFoundText: string := "Not found"

  /** `j[key]`: a KeyError on an object without the key; a TypeError on
      anything that is not an object. */
  function Index(j: Json, key: string): (r: Outcome<Json>)
    ensures r.Ok? <==> j.JObj? && key in j.fields
    ensures r.Ok? ==> r.value == j.fields[key]
    ensures r.Caught? <==> j.JObj? && key !in j.fields
  {
    match j
    case JObj(f) => if key in f then Ok(f[key]) else Caught
    case _ => Raised
  }

  /** `j.get(key, default)`: an AttributeError on anything that is not an object. */
  function Get(j: Json, key: string, default: Json): (r: Outcome<Json>)
    ensures r.Ok? <==> j.JObj?
    ensures j.JObj? && key !in j.fields ==> r == Ok(default)
    ensures j.JObj? && key in j.fields ==> r == Ok(j.fields[key])
    ensures !r.Caught?
  {
    if j.JObj? then Ok(if key in j.fields then j.fields[key] else default) else Raised
  }

  /** The members of a JSON object, for code whose first use of the value is
      a `.get` or an index by key: anything else raises there. */
  function Fields(j: Json): (r: Outcome<map<string, Json>>)
    ensures r.Ok? <==> j.JObj?
    ensures r.Ok? ==> r.value == j.fields
    ensures !r.Caught?
  {
    if j.JObj? then Ok(j.fields) else Raised
  }

  /** `d.get(key, default)` on a value already known to be a dictionary. */
  function Lookup(fields: map<string, Json>, key: string, default: Json): Json {
    if key in fields then fields[key] else default
  }

  /** `j[0]`: the first element of a list or the first character of a
      string (IndexError when empty); a KeyError on an object, whose keys are
      never the integer 0; a TypeError otherwise. */
  function First(j: Json): (r: Outcome<Json>)
    ensures j.JArr? && |j.items| > 0 ==> r == Ok(j.items[0])
    ensures j.JArr? && |j.items| == 0 ==> r == Caught
  {
    match j
    case JArr(xs) => if |xs| == 0 then Caught else Ok(xs[0])
    case JStr(s) => if |s| == 0 then Caught else Ok(JStr([s[0]]))
    case JObj(_) => Caught
    case _ => Raised
  }

  function Chars(s: string): (r: seq<Json>)
    ensures |r| == |s| && forall i :: 0 <= i < |s| ==> r[i] == JStr([s[i]])
  {
    if |s| == 0 then [] else [JStr([s[0]])] + Chars(s[1..])
  }

  /** The elements a `for` loop over `j` visits: a list's items or a string's
      characters. A scalar raises TypeError. A non-empty object yields its
      keys, and every loop here then fails on the first key (a string has no
      `.get` and no string index), so the model raises at once. */
  function Elements(j: Json): (r: Outcome<seq<Json>>)
    ensures j.JArr? ==> r == Ok(j.items)
    ensures j.JStr? ==> r.Ok? && |r.value| == |j.s| && forall i :: 0 <= i < |j.s| ==> r.value[i] == JStr([j.s[i]])
    ensures r.Raised? <==> !(j.JArr? || j.JStr? || (j.JObj? && j.fields == map[]))
    ensures !r.Caught?
  {
    match j
    case JArr(xs) => Ok(xs)
    case JStr(s) => Ok(Chars(s))
    case JObj(f) => if f == map[] then Ok([]) else Raised
    case _ => Raised
  }

  /** An operand of `str` concatenation or of `.split`: a TypeError or
      AttributeError for anything else. */
  function AsStr(j: Json): (r: Outcome<string>)
    ensures r.Ok? <==> j.JStr?
    ensures r.Ok? ==> r.value == j.s
    ensures !r.Caught?
  {
    if j.JStr? then Ok(j.s) else Raised
  }

  /** `f"{j}"` for a scalar JSON value. */
  function Format(j: Json): (r: Outcome<string>)
    ensures j.JStr? ==> r == Ok(j.s)
    ensures !r.Caught?
  {
    match j
    case JStr(s) => Ok(s)
    case JNum(n) => Ok(IntToString(n))
    case JNull => Ok("None")
    case JBool(b) => Ok(if b then "True" else "False")
    case _ => Raised
  }

  // ---------------------------------------------------------------- Crossref

  /** The `"family given"` piece of each Crossref author, in order. */
  function CrossrefAuthorNames(authors: seq<Json>): (r: Outcome<seq<string>>)
    ensures r.Ok? ==> |r.value| == |authors|
    ensures r.Ok? ==> forall i :: 0 <= i < |authors| ==>
      && authors[i].JObj?
      && "family" in authors[i].fields && authors[i].fields["family"].JStr?
      && "given" in authors[i].fields && authors[i].fields["given"].JStr?
      && r.value[i] == authors[i].fields["family"].s + " " + authors[i].fields["given"].s
  {
    if |authors| == 0 then Ok([])
    else
      var family :- Index(authors[0], "family");
      var f :- AsStr(family);
      var given :- Index(authors[0], "given");
      var g :- AsStr(given);
      var rest :- CrossrefAuthorNames(authors[1..]);
      Ok([f + " " + g] + rest)
  }

  /** `title` and `container-title`: the first entry of the list, a
      one-entry list holding "Not found" by default. */
  function CrossrefFirstOf(m: map<string, Json>, key: string): Outcome<Json> {
    First(Lookup(m, key, JArr([JStr(NotFoundText)])))
  }

  /** `authors` is what a list-valued `author` member gives: the names
      `"family given"` joined by `", "`, so `""` for an empty list. */
  predicate AuthorsJoined(m: map<string, Json>, authors: string) {
    "author" in m && m["author"].JArr? ==>
      && CrossrefAuthorNames(m["author"].items).Ok?
      && authors == Join(CrossrefAuthorNames(m["author"].items).value, ", ")
      && (m["author"].items == [] ==> authors == "")
  }

  /** The `authors` string: every author's `"family given"`, comma-separated. */
  function CrossrefAuthors(m: map<string, Json>): (r: Outcome<string>)
    ensures r.Ok? ==> AuthorsJoined(m, r.value)
  {
    var authors :- Elements(Lookup(m, "author", JArr([])));
    var names :- CrossrefAuthorNames(authors);
    Ok(Join(names, ", "))
  }

  /** The `page` member, which `.split` requires to be a string. */
  function CrossrefPage(m: map<string, Json>): Outcome<string> {
    AsStr(Lookup(m, "page", JStr(NotFoundText)))
  }

  /** The `date-parts` member of `published-print`, as far as it is an
      object; `JNull` stands for a `published-print` that is not one. */
  function PrintedDateParts(m: map<string, Json>): Json {
    var printed := Lookup(m, "published-print", JObj(map[]));
    if printed.JObj? then Lookup(printed.fields, "date-parts", JArr([JArr([JNull])])) else JNull
  }

  /** `year` is `date-parts[0][0]` of an object-valued `published-print`
      whose `date-parts` is a list of lists, both non-empty. */
  predicate YearOfDateParts(m: map<string, Json>, year: Json) {
    && Lookup(m, "published-print", JObj(map[])).JObj?
    && (PrintedDateParts(m).JArr? ==>
          && |PrintedDateParts(m).items| > 0
          && (PrintedDateParts(m).items[0].JArr? ==>
                |PrintedDateParts(m).items[0].items| > 0 && year == PrintedDateParts(m).items[0].items[0]))
  }

  /** `published-print.date-parts[0][0]`, `[[None]]` by default. */
  function CrossrefYear(m: map<string, Json>): (r: Outcome<Json>)
    ensures r.Ok? ==> YearOfDateParts(m, r.value)
  {
    var dateParts :- Get(Lookup(m, "published-print", JObj(map[])), "date-parts", JArr([JArr([JNull])]));
    var firstDate :- First(dateParts);
    First(firstDate)
  }

  /** The record built from the members `m` of the `message` object, the
      fields evaluated in the order the dictionary literal lists them. */
  function CrossrefMessage(doi: string, m: map<string, Json>): (r: Outcome<Metadata>)
    ensures r.Ok? <==>
      && CrossrefFirstOf(m, "title").Ok? && CrossrefAuthors(m).Ok?
      && CrossrefFirstOf(m, "container-title").Ok? && CrossrefPage(m).Ok? && CrossrefYear(m).Ok?
    ensures r.Ok? ==> r.value.doi == doi
    ensures r.Ok? && "title" in m && m["title"].JArr? ==>
      |m["title"].items| > 0 && r.value.title == m["title"].items[0]
    ensures r.Ok? && "container-title" in m && m["container-title"].JArr? ==>
      |m["container-title"].items| > 0 && r.value.journal == m["container-title"].items[0]
    ensures r.Ok? ==> r.value.volume == (if "volume" in m then m["volume"] else JStr(NotFoundText))
    ensures r.Ok? ==> r.value.issue == (if "issue" in m then m["issue"] else JStr(NotFoundText))
    ensures r.Ok? ==> r.value.firstPage.JStr? && r.value.lastPage.JStr?
    ensures r.Ok? && "page" in m ==> m["page"].JStr?
    ensures "title" in m && m["title"] == JArr([]) ==> r == Caught
    ensures r.Ok? ==> AuthorsJoined(m, r.value.authors) && YearOfDateParts(m, r.value.year)
  {
    var title :- CrossrefFirstOf(m, "title");
    var authors :- CrossrefAuthors(m);
    var journal :- CrossrefFirstOf(m, "container-title");
    var volume := Lookup(m, "volume", JStr(NotFoundText));
    var issue := Lookup(m, "issue", JStr(NotFoundText));
    var page :- CrossrefPage(m);
    var year :- CrossrefYear(m);
    Ok(Metadata(doi, title, authors, journal, volume, issue,
                JStr(SplitOn(page, "-")[0]), JStr(Last(SplitOn(page, "-"))), year))
  }

  /** The `try` block of the Crossref branch, on a response body. */
  function CrossrefRecord(doi: string, body: Option<Json>): (r: Outcome<Metadata>)
    ensures body.None? ==> r == Caught
    ensures body.Some? && body.value.JObj? && "message" in body.value.fields && body.value.fields["message"].JObj? ==>
      r == CrossrefMessage(doi, body.value.fields["message"].fields)
    ensures r.Ok? ==> r.value.doi == doi
  {
    var data :- if body.Some? then Ok(body.value) else Caught;
    var message :- Index(data, "message");
    var m :- Fields(message);
    CrossrefMessage(doi, m)
  }

  /** The Crossref branch as a whole: the `try` block runs only on status 200;
      any other status, and a request that raised, count like a caught error. */
  function CrossrefOutcome(doi: string, response: Response): (r: Outcome<Metadata>)
    ensures !(response.Http? && response.status == 200) ==> r == Caught
    ensures response.Http? && response.status == 200 && response.body.None? ==> r == Caught
    ensures r.Ok? ==> r.value.doi == doi
  {
    if response.Http? && response.status == 200 then CrossrefRecord(doi, response.body) else Caught
  }

  /** Members missing from the Crossref record take the documented defaults. */
  lemma CrossrefDefaults(doi: string, m: map<string, Json>)
    requires CrossrefMessage(doi, m).Ok?
    ensures var md := CrossrefMessage(doi, m).value;
      && ("title" !in m ==> md.title == JStr(NotFoundText))
      && ("author" !in m ==> md.authors == "")
      && ("container-title" !in m ==> md.journal == JStr(NotFoundText))
      && ("volume" !in m ==> md.volume == JStr(NotFoundText))
      && ("issue" !in m ==> md.issue == JStr(NotFoundText))
      && ("page" !in m ==> md.firstPage == JStr(NotFoundText) && md.lastPage == JStr(NotFoundText))
      && ("published-print" !in m ==> md.year == JNull)
  {
    if "page" !in m {
      assert !Contains(NotFoundText, "-") by {
        ContainsChar(NotFoundText, '-');
      }
      SplitWithoutSeparator(NotFoundText, "-");
    }
  }

  /** The page range `"start-end"` is cut at its first and last hyphen: the
      first page is the text before the first `-`, the last page the text
      after the last one, and a page without a hyphen is both. */
  lemma CrossrefPageRange(doi: string, m: map<string, Json>, page: string)
    requires "page" in m && m["page"] == JStr(page)
    requires CrossrefMessage(doi, m).Ok?
    ensures var md := CrossrefMessage(doi, m).value;
      var first := md.firstPage.s;
      var last := md.lastPage.s;
      && '-' !in first && |first| <= |page| && first == page[..|first|]
      && (first == page || page[|first|] == '-')
      && '-' !in last && |last| <= |page| && last == page[|page| - |last|..]
      && (last == page || page[|page| - |last| - 1] == '-')
      && ('-' !in page ==> first == page && last == page)
  {
    FirstPiece(page, '-');
    LastPiece(page, '-');
  }

  /** An empty `title` list raises IndexError inside the `try`: the Crossref
      branch fails and JALC is asked. */
  lemma CrossrefEmptyTitleFallsBack(doi: string, m: map<string, Json>, jalc: Response)
    requires "title" in m && m["title"] == JArr([])
    ensures CrossrefMessage(doi, m) == Caught
    ensures GetMetadataFromDoi(doi, Http(200, Some(JObj(map["message" := JObj(m)]))), jalc) == GetMetadataFromDoi(doi, NoResponse, jalc)
  {
  }

  // -------------------------------------------------------------------- JALC

  predicate HasLang(e: Json) {
    e.JObj? && "lang" in e.fields
  }

  predicate IsJapanese(e: Json) {
    HasLang(e) && e.fields["lang"] == JStr("ja")
  }

  /** `next((e for e in entries if e['lang'] == 'ja'), default)`. */
  function FirstJapanese(entries: seq<Json>, default: Json): (r: Outcome<Json>)
    ensures (forall i :: 0 <= i < |entries| ==> HasLang(entries[i])) ==> r.Ok?
    ensures r.Ok? ==>
      || (r.value == default && forall i :: 0 <= i < |entries| ==> !IsJapanese(entries[i]))
      || (exists i :: 0 <= i < |entries| && r.value == entries[i] && IsJapanese(entries[i])
                      && forall j :: 0 <= j < i ==> !IsJapanese(entries[j]))
  {
    if |entries| == 0 then Ok(default)
    else
      var lang :- Index(entries[0], "lang");
      if lang == JStr("ja") then Ok(entries[0])
      else
        var r := FirstJapanese(entries[1..], default);
        assert r.Ok? && r.value != default ==> exists i :: 0 <= i < |entries| - 1 && r.value == entries[1..][i] && IsJapanese(entries[1..][i]) && forall j :: 0 <= j < i ==> !IsJapanese(entries[1..][j]);
        r
  }

  /** The title or journal choice of the JALC branch: the entry of the list
      under `listKey` whose language is Japanese, else the list's first entry,
      then that entry's `valueKey` or "Not found". The default `list[0]` is
      evaluated before the search, so an empty list raises IndexError. */
  function JalcSelect(data: map<string, Json>, listKey: string, valueKey: string): (r: Outcome<Json>)
    ensures listKey !in data ==> r == Caught
    ensures listKey in data && data[listKey] == JArr([]) ==> r == Caught
    ensures listKey in data && !(data[listKey].JArr? || data[listKey].JStr? || data[listKey].JObj?) ==> r == Raised
  {
    var list :- if listKey in data then Ok(data[listKey]) else Caught;
    var _ :- if list.JArr? || list.JStr? || list.JObj? then Ok(list) else Raised;
    var default :- First(list);
    var entries :- Elements(list);
    var info :- FirstJapanese(entries, default);
    Get(info, valueKey, JStr(NotFoundText))
  }

  /** With a well-formed list the Japanese entry is chosen when there is one:
      the first entry whose `lang` is `ja`. */
  lemma JalcSelectJapanese(data: map<string, Json>, listKey: string, valueKey: string, entries: seq<Json>, i: nat)
    requires listKey in data && data[listKey] == JArr(entries)
    requires forall k :: 0 <= k < |entries| ==> HasLang(entries[k])
    requires i < |entries| && IsJapanese(entries[i])
    requires forall k :: 0 <= k < i ==> !IsJapanese(entries[k])
    ensures JalcSelect(data, listKey, valueKey) == Ok(Lookup(entries[i].fields, valueKey, JStr(NotFoundText)))
  {
    var r := FirstJapanese(entries, entries[0]);
    assert r.Ok?;
  }

  /** Without a Japanese entry the first entry is used; an empty list is a
      caught IndexError. */
  lemma JalcSelectFallback(data: map<string, Json>, listKey: string, valueKey: string, entries: seq<Json>)
    requires listKey in data && data[listKey] == JArr(entries)
    requires forall k :: 0 <= k < |entries| ==> HasLang(entries[k]) && !IsJapanese(entries[k])
    ensures |entries| == 0 ==> JalcSelect(data, listKey, valueKey) == Caught
    ensures |entries| > 0 ==> HasLang(entries[0]) && JalcSelect(data, listKey, valueKey) == Ok(Lookup(entries[0].fields, valueKey, JStr(NotFoundText)))
  {
    if |entries| > 0 {
      var r := FirstJapanese(entries, entries[0]);
      assert r.Ok?;
      assert r.value == entries[0];
    }
  }

  /** The `"last first"` pieces of the Japanese names in one creator's `names`. */
  function JapaneseNames(names: seq<Json>): (r: Outcome<seq<string>>)
    ensures r.Ok? ==> |r.value| <= |names|
  {
    if |names| == 0 then Ok([])
    else
      var lang :- Get(names[0], "lang", JNull);
      if lang == JStr("ja") then
        var last :- Index(names[0], "last_name");
        var l :- Format(last);
        var first :- Index(names[0], "first_name");
        var f :- Format(first);
        var rest :- JapaneseNames(names[1..]);
        Ok([l + " " + f] + rest)
      else
        JapaneseNames(names[1..])
  }

  /** A name that is not Japanese adds nothing to the authors, wherever it
      stands: in front of the others here, after them in
      `JapaneseNamesSkipLast`. */
  lemma JapaneseNamesSkipOthers(n: Json, names: seq<Json>)
    requires n.JObj? && !IsJapanese(n)
    ensures JapaneseNames([n] + names) == JapaneseNames(names)
  {
    assert ([n] + names)[1..] == names;
  }

  lemma {:induction false} JapaneseNamesSkipLast(names: seq<Json>, n: Json)
    requires n.JObj? && !IsJapanese(n)
    ensures JapaneseNames(names + [n]) == JapaneseNames(names)
    decreases |names|
  {
    if |names| == 0 {
      assert JapaneseNames([n]) == JapaneseNames([]);
    } else {
      assert (names + [n])[0] == names[0];
      assert (names + [n])[1..] == names[1..] + [n];
      JapaneseNamesSkipLast(names[1..], n);
    }
  }

  /** A creator with no Japanese name contributes no author. */
  lemma {:induction false} JapaneseNamesNone(names: seq<Json>)
    requires forall i :: 0 <= i < |names| ==> names[i].JObj? && !IsJapanese(names[i])
    ensures JapaneseNames(names) == Ok([])
    decreases |names|
  {
    if |names| > 0 {
      JapaneseNamesNone(names[1..]);
    }
  }

  /** A Japanese name with string parts adds `"last first"` in front of the
      authors of the names after it. */
  lemma JapaneseNamesTakesJapanese(n: Json, names: seq<Json>, last: string, first: string)
    requires IsJapanese(n)
    requires "last_name" in n.fields && n.fields["last_name"] == JStr(last)
    requires "first_name" in n.fields && n.fields["first_name"] == JStr(first)
    requires JapaneseNames(names).Ok?
    ensures JapaneseNames([n] + names) == Ok([last + " " + first] + JapaneseNames(names).value)
  {
    assert ([n] + names)[1..] == names;
  }

  /** The name pieces of all creators, in order. */
  function CreatorNames(creators: seq<Json>): (r: Outcome<seq<string>>)
    ensures r.Ok? ==> forall i :: 0 <= i < |creators| ==> creators[i].JObj?
    ensures |creators| > 0 && !creators[0].JObj? ==> r == Raised
  {
    if |creators| == 0 then Ok([])
    else
      assert forall i :: 0 <= i < |creators| - 1 ==> creators[1..][i] == creators[i + 1];
      var names :- Get(creators[0], "names", JArr([]));
      var entries :- Elements(names);
      var mine :- JapaneseNames(entries);
      var rest :- CreatorNames(creators[1..]);
      Ok(mine + rest)
  }

  /** Creators without a `names` member contribute no author. */
  lemma {:induction false} CreatorNamesWithoutNames(creators: seq<Json>)
    requires forall i :: 0 <= i < |creators| ==> creators[i].JObj? && "names" !in creators[i].fields
    ensures CreatorNames(creators) == Ok([])
    decreases |creators|
  {
    if |creators| > 0 {
      assert forall i :: 0 <= i < |creators| - 1 ==> creators[1..][i] == creators[i + 1];
      CreatorNamesWithoutNames(creators[1..]);
      assert Elements(JArr([])) == Ok([]);
      var none: seq<string> := [];
      assert none + none == none;
      assert CreatorNames(creators) == Ok(none + none);
    }
  }

  /** The `try` block of the JALC branch, on a response body. */
  function JalcRecord(doi: string, body: Option<Json>): (r: Outcome<Metadata>)
    ensures body.None? ==> r == Caught
    ensures body.Some? && !body.value.JObj? ==> r == Raised
    ensures body.Some? && body.value.JObj? && "data" !in body.value.fields ==> r == Caught
    ensures r.Ok? ==> r.value.doi == doi
    ensures r.Ok? ==> body.Some? && body.value.JObj? && "data" in body.value.fields && body.value.fields["data"].JObj?
    ensures r.Ok? ==> JalcFieldsFrom(body.value.fields["data"].fields, r.value)
  {
    var top :- if body.Some? then Ok(body.value) else Caught;
    var value :- Index(top, "data");
    var data :- Fields(value);
    var title :- JalcSelect(data, "title_list", "title");
    var creators :- Elements(Lookup(data, "creator_list", JArr([])));
    var names :- CreatorNames(creators);
    var journal :- JalcSelect(data, "journal_title_name_list", "journal_title_name");
    var year :- Get(Lookup(data, "publication_date", JObj(map[])), "publication_year", JNull);
    var volume := Lookup(data, "volume", JStr(NotFoundText));
    var issue := Lookup(data, "issue", JStr(NotFoundText));
    var firstPage := Lookup(data, "first_page", JStr(NotFoundText));
    var lastPage := Lookup(data, "last_page", JStr(NotFoundText));
    Ok(Metadata(doi, title, Join(names, ", "), journal, volume, issue, firstPage, lastPage, year))
  }

  /** What a JALC record holds, read off the `data` object: title and journal
      are the Japanese-preferred choices, the authors the Japanese names of
      all creators joined by `, `, the year `publication_year` of an
      object-valued `publication_date`, and the other fields the member or
      their default. */
  predicate JalcFieldsFrom(data: map<string, Json>, md: Metadata) {
    && JalcSelect(data, "title_list", "title") == Ok(md.title)
    && JalcSelect(data, "journal_title_name_list", "journal_title_name") == Ok(md.journal)
    && Elements(Lookup(data, "creator_list", JArr([]))).Ok?
    && CreatorNames(Elements(Lookup(data, "creator_list", JArr([]))).value).Ok?
    && md.authors == Join(CreatorNames(Elements(Lookup(data, "creator_list", JArr([]))).value).value, ", ")
    && md.volume == (if "volume" in data then data["volume"] else JStr(NotFoundText))
    && md.issue == (if "issue" in data then data["issue"] else JStr(NotFoundText))
    && md.firstPage == (if "first_page" in data then data["first_page"] else JStr(NotFoundText))
    && md.lastPage == (if "last_page" in data then data["last_page"] else JStr(NotFoundText))
    && Lookup(data, "publication_date", JObj(map[])).JObj?
    && md.year == Lookup(Lookup(data, "publication_date", JObj(map[])).fields, "publication_year", JNull)
  }

  /** Members missing from the JALC record take their defaults: "Not found"
      for volume, issue and pages, no authors, and no year. */
  lemma JalcDefaults(doi: string, data: map<string, Json>)
    requires JalcRecord(doi, Some(JObj(map["data" := JObj(data)]))).Ok?
    ensures var md := JalcRecord(doi, Some(JObj(map["data" := JObj(data)]))).value;
      && ("volume" !in data ==> md.volume == JStr(NotFoundText))
      && ("issue" !in data ==> md.issue == JStr(NotFoundText))
      && ("first_page" !in data ==> md.firstPage == JStr(NotFoundText))
      && ("last_page" !in data ==> md.lastPage == JStr(NotFoundText))
      && ("creator_list" !in data ==> md.authors == "")
      && ("publication_date" !in data ==> md.year == JNull)
  {
    var md := JalcRecord(doi, Some(JObj(map["data" := JObj(data)]))).value;
    if "creator_list" !in data {
      assert CreatorNames([]) == Ok([]);
    }
  }

  /** The JALC branch as a whole: the `try` block runs only on status 200. */
  function JalcOutcome(doi: string, response: Response): (r: Outcome<Metadata>)
    ensures !(response.Http? && response.status == 200) ==> r == Caught
    ensures response.Http? && response.status == 200 && response.body.None? ==> r == Caught
    ensures r.Ok? ==> r.value.doi == doi
  {
    if response.Http? && response.status == 200 then JalcRecord(doi, response.body) else Caught
  }

  // ------------------------------------------------------------ precedence

  /** `get_metadata_from_doi(doi)`, given the answers of Crossref and JALC.
      Crossref wins whenever its branch yields a record; JALC is consulted
      only after a failed request, a status other than 200, or a caught
      parse error; the result is `None` when JALC fails too. */
  function GetMetadataFromDoi(doi: string, crossref: Response, jalc: Response): (r: Fetch)
    ensures CrossrefOutcome(doi, crossref).Ok? ==> r == Found(CrossrefOutcome(doi, crossref).value)
    ensures r.Found? <==>
      CrossrefOutcome(doi, crossref).Ok? || (CrossrefOutcome(doi, crossref).Caught? && JalcOutcome(doi, jalc).Ok?)
    ensures r.Found? && !CrossrefOutcome(doi, crossref).Ok? ==> r.metadata == JalcOutcome(doi, jalc).value
    ensures r.NotFound? <==> CrossrefOutcome(doi, crossref).Caught? && JalcOutcome(doi, jalc).Caught?
    ensures r.Found? ==> r.metadata.doi == doi
  {
    match CrossrefOutcome(doi, crossref)
    case Ok(m) => Found(m)
    case Raised => Crashed
    case Caught =>
      match JalcOutcome(doi, jalc)
      case Ok(m) => Found(m)
      case Caught => NotFound
      case Raised => Crashed
  }

  /** The JALC answer matters only when the Crossref branch ended in a caught error. */
  lemma JalcOnlyAfterCrossrefFailure(doi: string, crossref: Response, jalc1: Response, jalc2: Response)
    requires !CrossrefOutcome(doi, crossref).Caught?
    ensures GetMetadataFromDoi(doi, crossref, jalc1) == GetMetadataFromDoi(doi, crossref, jalc2)
  {
  }
}
