/**
  `make_ia_metadata`: the derivation rules that turn a flattened JSTOR record
  into the metadata dictionary handed to the Internet Archive.  Each rule is a
  function below; `Synthesize` applies them in the script's order and
  `MakeIaMetadata` is the step-by-step version that updates one dictionary.
*/
module IaMetadata {
  import opened Wrappers
  import opened PyStr
  import opened Values

  /** The description template, rendered with the metadata built so far. */
  type Render = Record -> string

  /** The characters `strip(' ,')` removes from author names. */
  const NameJunk: set<char> := {' ', ','}

  const UrnPrefix := "urn:jstor-"
  const StableUrl := "http://www.jstor.org/stable/"

  // ---- Identifier and collection -------------------------------------------

  /** `'jstor-' + id.split('/')[-1]`; a missing or non-string `id` has no `split`. */
  function Identifier(xml: Record): (r: Outcome<string>)
    ensures r.Success? <==> Get(xml, "id").Text?
    ensures r.Failure? ==> r.error == AttributeError("split")
    ensures r.Success? ==> |r.value| >= 6 && r.value[..6] == "jstor-" && '/' !in r.value[6..]
  {
    match Get(xml, "id")
    case Text(id) =>
      assert ("jstor-" + LastPart(id, '/'))[6..] == LastPart(id, '/');
      Success("jstor-" + LastPart(id, '/'))
    case _ => Failure(AttributeError("split"))
  }

  /** The journal's own collection followed by the two fixed ones. */
  function Collection(journalabbrv: Value): Value {
    List([Plain("jstor_" + Format(journalabbrv)), Plain("jstor_ejc"), Plain("additional_collections")])
  }

  /** The dictionary the script starts from, before the title; `journalabbrv` is looked up without a default. */
  function BaseRecord(xml: Record, identifier: string): (r: Outcome<Record>)
    ensures r.Success? <==> "journalabbrv" in xml
    ensures r.Failure? ==> r.error == KeyError("journalabbrv")
  {
    if "journalabbrv" !in xml then Failure(KeyError("journalabbrv"))
    else Success(map[
      "identifier" := Text(identifier),
      "mediatype" := Text("texts"),
      "publisher" := Get(xml, "journaltitle"),
      "contributor" := Text("JSTOR"),
      "collection" := Collection(xml["journalabbrv"]),
      "date" := Get(xml, "pubdate"),
      "volume" := Get(xml, "volume"),
      "pagerange" := Get(xml, "pagerange"),
      "issn" := Get(xml, "issn"),
      "source" := Text(StableUrl + Format(Get(xml, "id"))),
      "article_type" := Get(xml, "type"),
      "journaltitle" := Get(xml, "journaltitle"),
      "journalabbrv" := xml["journalabbrv"]])
  }

  // ---- Title ----------------------------------------------------------------

  /** `'-' in v`: a substring test on a string, a membership test on a list; `None` is not iterable. */
  function DashIn(v: Value): (r: Outcome<bool>)
    ensures r.Failure? <==> v.Null?
    ensures r.Failure? ==> r.error == TypeError
  {
    match v
    case Null => Failure(TypeError)
    case Text(s) => Success('-' in s)
    case List(items) => Success(Plain("-") in items)
  }

  function UntitledPage(journal: string, date: string, pages: string): string {
    "[untitled] " + journal + " (" + date + "), page " + pages
  }

  function UntitledPages(journal: string, date: string, pages: string): string {
    "[untitled] " + journal + ", (" + date + "), pages " + pages
  }

  /** The title as a string (the script converts it with `unicode` before rendering the description). */
  function Title(xml: Record): (r: Outcome<string>)
    ensures r.Failure? <==> Get(xml, "title").Null? && Get(xml, "pagerange").Null?
    ensures r.Failure? ==> r.error == TypeError
    ensures !Get(xml, "title").Null? ==> r == Success(Format(Get(xml, "title")))
  {
    var title := Get(xml, "title");
    if !title.Null? then Success(Format(title))
    else
      var pagerange := Get(xml, "pagerange");
      var dash :- DashIn(pagerange);
      var journal, date, pages := Format(Get(xml, "journaltitle")), Format(Get(xml, "pubdate")), Format(pagerange);
      Success(if dash then UntitledPages(journal, date, pages) else UntitledPage(journal, date, pages))
  }

  // ---- Creator --------------------------------------------------------------

  /** The author subfields merged into one dictionary, in order; a string entry has no `items`. */
  function AuthorFields(authors: seq<Item>): Outcome<map<string, string>> {
    if |authors| == 0 then Success(map[])
    else
      var fields :- AuthorFields(authors[..|authors| - 1]);
      match authors[|authors| - 1]
      case Plain(_) => Failure(AttributeError("items"))
      case Keyed(k, v) => Success(fields[k := v])
  }

  /** The creator chosen from the merged subfields, by priority. */
  function CreatorFrom(fields: map<string, string>): (r: Outcome<Value>)
    ensures r.Success? ==> r.value.Text?
    ensures r.Failure? <==>
      ("givennames" in fields && "surname" !in fields)
      || ("givennames" !in fields && ("stringname" !in fields || fields["stringname"] == "")
          && ("surname" !in fields || fields["surname"] == ""))
  {
    if "givennames" in fields then
      if "surname" in fields then
        Success(Text(StripChars(fields["surname"], NameJunk) + ", " + StripChars(fields["givennames"], NameJunk)))
      else Failure(KeyError("surname"))
    else if "stringname" in fields && fields["stringname"] != "" then
      Success(Text(StripChars(fields["stringname"], NameJunk)))
    else if "surname" in fields && fields["surname"] != "" then
      Success(Text(StripChars(fields["surname"], NameJunk)))
    else Failure(NameError)
  }

  /** The creator, `None` when there are no authors. */
  function Creator(xml: Record): (r: Outcome<Value>)
    ensures r.Success? ==> (r.value.Null? <==> !Truthy(Get(xml, "authors"))) && (r.value.Null? || r.value.Text?)
    ensures r.Failure? ==> Truthy(Get(xml, "authors"))
  {
    var authors := Get(xml, "authors");
    if !Truthy(authors) then Success(Null)
    else match authors
      case List(items) =>
        var fields :- AuthorFields(items);
        CreatorFrom(fields)
      case _ => Failure(AttributeError("items"))
  }

  // ---- Language -------------------------------------------------------------

  /** `languages[0].strip()` when there are languages; a string's first entry is its first character. */
  function Language(xml: Record): (r: Outcome<Option<string>>)
    ensures r.Failure? <==> Truthy(Get(xml, "languages")) && Get(xml, "languages").List? && Get(xml, "languages").items[0].Keyed?
    ensures r.Failure? ==> r.error == AttributeError("strip")
    ensures r.Success? ==> (r.value.Some? <==> Truthy(Get(xml, "languages")))
    ensures r.Success? && r.value.Some? ==> StrippedOf(r.value.value, Whitespace)
    ensures r.Success? && Truthy(Get(xml, "languages")) && Get(xml, "languages").List? ==>
      r.value == Some(Strip(Get(xml, "languages").items[0].text))
    ensures r.Success? && Truthy(Get(xml, "languages")) && Get(xml, "languages").Text? ==>
      r.value == Some(Strip([Get(xml, "languages").s[0]]))
  {
    var languages := Get(xml, "languages");
    if !Truthy(languages) then Success(None)
    else match languages
      case Text(s) => Success(Some(Strip([s[0]])))
      case List(items) =>
        (match items[0]
         case Plain(t) => Success(Some(Strip(t)))
         case Keyed(_, _) => Failure(AttributeError("strip")))
      case Null => Success(None)
  }

  // ---- External identifiers -------------------------------------------------

  /** The four source identifiers, in the order the model enumerates them. */
  function ExternalIdSources(xml: Record): seq<(string, Value)> {
    [("headid", Get(xml, "headid")), ("journalid", Get(xml, "journalid")),
     ("issueid", Get(xml, "issueid")), ("articleid", Get(xml, "id"))]
  }

  function Urn(key: string, v: Value): string {
    UrnPrefix + key + ":" + Format(v)
  }

  /** One URN per source with a truthy value, in order. */
  function UrnList(sources: seq<(string, Value)>): seq<Item> {
    if |sources| == 0 then []
    else
      var (k, v) := sources[|sources| - 1];
      UrnList(sources[..|sources| - 1]) + (if Truthy(v) then [Plain(Urn(k, v))] else [])
  }

  // ---- Image count ----------------------------------------------------------

  /** The estimate for a page range: a cover page plus the pages between the last two `-`-separated numbers. */
  function PageCount(pagerange: string): Value {
    var parts := Split(pagerange, '-');
    if |parts| == 1 then Text("2")
    else
      var last, first := ParseInt(parts[|parts| - 1]), ParseInt(parts[|parts| - 2]);
      if last.Some? && first.Some? then Text(IntToString(last.value - first.value + 2))
      else Null
  }

  /** The `imagecount` entry to set, if any; a list page range has no `split`. */
  function ImageCount(xml: Record): (r: Outcome<Option<Value>>)
    ensures r.Failure? <==> Truthy(Get(xml, "pagerange")) && Get(xml, "pagerange").List?
    ensures r.Failure? ==> r.error == AttributeError("split")
    ensures r.Success? ==> (r.value.Some? <==> Truthy(Get(xml, "pagerange")))
    ensures r.Success? && Truthy(Get(xml, "pagerange")) ==>
      Get(xml, "pagerange").Text? && r.value == Some(PageCount(Get(xml, "pagerange").s))
  {
    var pagerange := Get(xml, "pagerange");
    if !Truthy(pagerange) then Success(None)
    else match pagerange
      case Text(s) => Success(Some(PageCount(s)))
      case List(_) => Failure(AttributeError("split"))
      case Null => Success(None)
  }

  // ---- Description and pruning ----------------------------------------------

  /**
    The rendered description with every newline removed and then stripped:
    what is left once whitespace is cut off both ends of the flattened text.
  */
  function Description(md: Record, render: Render): (d: string)
    ensures '\n' !in d && StrippedOf(d, Whitespace)
    ensures IsStripOf(d, RemoveChar(render(md), '\n'), Whitespace)
  {
    var flat := RemoveChar(render(md), '\n');
    var d := Strip(flat);
    assert '\n' !in d by {
      if '\n' in d {
        StripCharsFrom(flat, Whitespace, '\n');
      }
    }
    StripCharsIsStrip(flat, Whitespace);
    d
  }

  /** `dict((k, v) for k, v in md.items() if v)`: exactly the entries with a truthy value. */
  function Prune(md: Record): (r: Record)
    ensures forall k :: k in r ==> k in md && r[k] == md[k] && Truthy(r[k])
    ensures forall k :: k in md && Truthy(md[k]) ==> k in r
  {
    map k | k in md && Truthy(md[k]) :: md[k]
  }

  // ---- The whole synthesis --------------------------------------------------

  /** The title rule applied to the dictionary built so far. */
  function WithTitle(xml: Record, md: Record): (r: Outcome<Record>)
    ensures r.Success? <==> Title(xml).Success?
    ensures r.Success? ==> r.value.Keys == md.Keys + {"title"} && forall k :: k in md && k != "title" ==> r.value[k] == md[k]
  {
    var title :- Title(xml);
    Success(md["title" := Text(title)])
  }

  /** The creator rule; `None` is stored when there are no authors. */
  function WithCreator(xml: Record, md: Record): (r: Outcome<Record>)
    ensures r.Success? <==> Creator(xml).Success?
    ensures r.Success? ==> r.value.Keys == md.Keys + {"creator"} && forall k :: k in md && k != "creator" ==> r.value[k] == md[k]
  {
    var creator :- Creator(xml);
    Success(md["creator" := creator])
  }

  /** The language rule; nothing is stored when there are no languages. */
  function WithLanguage(xml: Record, md: Record): (r: Outcome<Record>)
    ensures r.Success? <==> Language(xml).Success?
    ensures r.Success? ==> md.Keys <= r.value.Keys <= md.Keys + {"language"} && forall k :: k in md && k != "language" ==> r.value[k] == md[k]
    ensures r.Success? && Language(xml).value.Some? ==> "language" in r.value && r.value["language"] == Text(Language(xml).value.value)
    ensures r.Success? && Language(xml).value.None? ==> r.value == md
  {
    var language :- Language(xml);
    Success(if language.Some? then md["language" := Text(language.value)] else md)
  }

  function WithExternalIds(xml: Record, md: Record): (r: Record)
    ensures r.Keys == md.Keys + {"external-identifier"}
    ensures forall k :: k in md && k != "external-identifier" ==> r[k] == md[k]
  {
    md["external-identifier" := List(UrnList(ExternalIdSources(xml)))]
  }

  /** The image-count rule; nothing is stored when there is no page range. */
  function WithImageCount(xml: Record, md: Record): (r: Outcome<Record>)
    ensures r.Success? <==> ImageCount(xml).Success?
    ensures r.Success? ==> md.Keys <= r.value.Keys <= md.Keys + {"imagecount"} && forall k :: k in md && k != "imagecount" ==> r.value[k] == md[k]
    ensures r.Success? && ImageCount(xml).value.Some? ==> "imagecount" in r.value && r.value["imagecount"] == ImageCount(xml).value.value
    ensures r.Success? && ImageCount(xml).value.None? ==> r.value == md
  {
    var count :- ImageCount(xml);
    Success(if count.Some? then md["imagecount" := count.value] else md)
  }

  function WithDescription(md: Record, render: Render): (r: Record)
    ensures r.Keys == md.Keys + {"description"}
    ensures forall k :: k in md && k != "description" ==> r[k] == md[k]
  {
    md["description" := Text(Description(md, render))]
  }

  /** `make_ia_metadata`: the rules applied in order, the first failing rule's error, then pruning. */
  function Synthesize(xml: Record, render: Render): (r: Outcome<Record>)
    ensures r.Success? ==> forall k :: k in r.value ==> Truthy(r.value[k])
  {
    var identifier :- Identifier(xml);
    var md0 :- BaseRecord(xml, identifier);
    var md1 :- WithTitle(xml, md0);
    var md2 :- WithCreator(xml, md1);
    var md3 :- WithLanguage(xml, md2);
    var md4 := WithExternalIds(xml, md3);
    var md5 :- WithImageCount(xml, md4);
    Success(Prune(WithDescription(md5, render)))
  }

  /** `make_ia_metadata` as the script runs it: one dictionary, updated section by section. */
  method MakeIaMetadata(xml: Record, render: Render) returns (r: Outcome<Record>)
    ensures r == Synthesize(xml, render)
    ensures r.Success? ==> forall k :: k in r.value ==> Truthy(r.value[k])
  {
    var id := Get(xml, "id");
    if !id.Text? {
      return Failure(AttributeError("split"));
    }
    if "journalabbrv" !in xml {
      return Failure(KeyError("journalabbrv"));
    }
    var md := BaseRecord(xml, "jstor-" + LastPart(id.s, '/')).value;
    var step := SetTitle(xml, md);
    if step.Failure? {
      return Failure(step.error);
    }
    step := SetCreator(xml, step.value);
    if step.Failure? {
      return Failure(step.error);
    }
    step := SetLanguage(xml, step.value);
    if step.Failure? {
      return Failure(step.error);
    }
    md := step.value;
    var ids := ExternalIdentifiers(ExternalIdSources(xml));
    md := md["external-identifier" := List(ids)];
    step := SetImageCount(xml, md);
    if step.Failure? {
      return Failure(step.error);
    }
    md := step.value;
    md := md["description" := Text(Description(md, render))];
    return Success(Prune(md));
  }

  /** The title section: a placeholder built from the journal, date and page range when there is no title. */
  method SetTitle(xml: Record, md: Record) returns (r: Outcome<Record>)
    requires "pagerange" in md && "journaltitle" in md && "date" in md
    requires md["pagerange"] == Get(xml, "pagerange") && md["journaltitle"] == Get(xml, "journaltitle")
    requires md["date"] == Get(xml, "pubdate")
    ensures r == WithTitle(xml, md)
  {
    if Get(xml, "title").Null? {
      var pagerange := md["pagerange"];
      if pagerange.Null? {
        return Failure(TypeError);
      }
      var journal, date, pages := Format(md["journaltitle"]), Format(md["date"]), Format(pagerange);
      var dash := if pagerange.Text? then '-' in pagerange.s else Plain("-") in pagerange.items;
      if !dash {
        return Success(md["title" := Text(UntitledPage(journal, date, pages))]);
      } else {
        return Success(md["title" := Text(UntitledPages(journal, date, pages))]);
      }
    }
    return Success(md["title" := Text(Format(xml["title"]))]);
  }

  /** The creator section: "Surname, Givennames", else the string name, else the surname. */
  method SetCreator(xml: Record, md: Record) returns (r: Outcome<Record>)
    ensures r == WithCreator(xml, md)
  {
    var authors := Get(xml, "authors");
    if !Truthy(authors) {
      return Success(md["creator" := Null]);
    }
    if !authors.List? {
      return Failure(AttributeError("items"));
    }
    var authMd := MergeAuthorFields(authors.items);
    if authMd.Failure? {
      return Failure(authMd.error);
    }
    var fields := authMd.value;
    if "givennames" in fields {
      if "surname" !in fields {
        return Failure(KeyError("surname"));
      }
      return Success(md["creator" := Text(StripChars(fields["surname"], NameJunk) + ", " + StripChars(fields["givennames"], NameJunk))]);
    } else if "stringname" in fields && fields["stringname"] != "" {
      return Success(md["creator" := Text(StripChars(fields["stringname"], NameJunk))]);
    } else if "surname" in fields && fields["surname"] != "" {
      return Success(md["creator" := Text(StripChars(fields["surname"], NameJunk))]);
    }
    return Failure(NameError);
  }

  /** The language section: the first entry of the languages, stripped. */
  method SetLanguage(xml: Record, md: Record) returns (r: Outcome<Record>)
    ensures r == WithLanguage(xml, md)
  {
    var languages := Get(xml, "languages");
    if !Truthy(languages) {
      return Success(md);
    }
    if languages.Text? {
      return Success(md["language" := Text(Strip([languages.s[0]]))]);
    }
    if languages.items[0].Keyed? {
      return Failure(AttributeError("strip"));
    }
    return Success(md["language" := Text(Strip(languages.items[0].text))]);
  }

  /** The image-count section: "2" for a single page, last minus first plus two for a range, `None` when unparsable. */
  method SetImageCount(xml: Record, md: Record) returns (r: Outcome<Record>)
    ensures r == WithImageCount(xml, md)
  {
    var pagerange := Get(xml, "pagerange");
    if !Truthy(pagerange) {
      return Success(md);
    }
    if !pagerange.Text? {
      return Failure(AttributeError("split"));
    }
    var imagecount := PageCount(pagerange.s);
    return Success(md["imagecount" := imagecount]);
  }

  /** The author subfields merged entry by entry, later ones overriding earlier ones. */
  method MergeAuthorFields(authors: seq<Item>) returns (r: Outcome<map<string, string>>)
    ensures r == AuthorFields(authors)
  {
    var fields: map<string, string> := map[];
    for i := 0 to |authors|
      invariant AuthorFields(authors[..i]) == Success(fields)
    {
      assert authors[..i + 1][..i] == authors[..i];
      match authors[i]
      case Plain(_) =>
        AuthorFieldsFailurePrefix(authors, i + 1);
        assert authors[..|authors|] == authors;
        return Failure(AttributeError("items"));
      case Keyed(k, v) =>
        fields := fields[k := v];
    }
    assert authors[..|authors|] == authors;
    return Success(fields);
  }

  /** The external-identifier list, appending one URN per truthy source. */
  method ExternalIdentifiers(sources: seq<(string, Value)>) returns (ids: seq<Item>)
    ensures ids == UrnList(sources)
  {
    ids := [];
    for i := 0 to |sources|
      invariant ids == UrnList(sources[..i])
    {
      assert sources[..i + 1][..i] == sources[..i];
      var (k, v) := sources[i];
      if Truthy(v) {
        ids := ids + [Plain(Urn(k, v))];
      }
    }
    assert sources[..|sources|] == sources;
  }

  lemma {:induction false} AuthorFieldsFailurePrefix(authors: seq<Item>, i: nat)
    requires i <= |authors| && AuthorFields(authors[..i]) == Failure(AttributeError("items"))
    ensures AuthorFields(authors) == Failure(AttributeError("items"))
    decreases |authors|
  {
    if i < |authors| {
      assert authors[..|authors| - 1][..i] == authors[..i];
      AuthorFieldsFailurePrefix(authors[..|authors| - 1], i);
    } else {
      assert authors[..i] == authors;
    }
  }
}
