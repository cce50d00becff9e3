/**
  What `make_ia_metadata` promises about the dictionary it returns, stated over
  the rule functions of `IaMetadata` and proved from them.
*/
module IaMetadataProperties {
  import opened Wrappers
  import opened PyStr
  import opened Values
  import opened IaMetadata

  /** Every derivation rule that can raise succeeds on `xml`. */
  predicate RulesSucceed(xml: Record) {
    Identifier(xml).Success? && "journalabbrv" in xml && Title(xml).Success?
    && Creator(xml).Success? && Language(xml).Success? && ImageCount(xml).Success?
  }

  /** `key` survives pruning exactly when `v` is truthy, and then holds `v`. */
  predicate KeptIfTruthy(r: Record, key: string, v: Value) {
    (key in r <==> Truthy(v)) && (key in r ==> r[key] == v)
  }

  // ---- Success and the hard failures ----------------------------------------

  /** The synthesis succeeds exactly when no rule raises. */
  lemma SynthesizeSucceedsIff(xml: Record, render: Render)
    ensures Synthesize(xml, render).Success? <==> RulesSucceed(xml)
  {
  }

  /** A name subfield that is absent or empty. */
  predicate Blank(field: Option<string>) {
    field.None? || field.value == ""
  }

  /**
    The author list makes the creator rule raise: it is not a list, one of its
    entries is a string, it has given names but no surname, or it has none of
    the three name subfields with a non-empty value.
  */
  predicate CreatorRaises(authors: Value) {
    Truthy(authors) &&
    (!authors.List? || !AllKeyed(authors.items)
     || (LastValue(authors.items, "givennames").Some? && LastValue(authors.items, "surname").None?)
     || (LastValue(authors.items, "givennames").None? && Blank(LastValue(authors.items, "stringname"))
         && Blank(LastValue(authors.items, "surname"))))
  }

  /** The first language is a dictionary, which has no `strip`. */
  predicate LanguageRaises(languages: Value) {
    Truthy(languages) && languages.List? && languages.items[0].Keyed?
  }

  /** Some rule raises on `xml`, read off the record's own fields. */
  predicate RecordRaises(xml: Record) {
    || !Get(xml, "id").Text?
    || "journalabbrv" !in xml
    || (Get(xml, "title").Null? && Get(xml, "pagerange").Null?)
    || CreatorRaises(Get(xml, "authors"))
    || LanguageRaises(Get(xml, "languages"))
    || (Truthy(Get(xml, "pagerange")) && Get(xml, "pagerange").List?)
  }

  /** The creator rule raises exactly on the author lists `CreatorRaises` describes. */
  lemma CreatorFailsIff(xml: Record)
    ensures Creator(xml).Failure? <==> CreatorRaises(Get(xml, "authors"))
  {
    var authors := Get(xml, "authors");
    if Truthy(authors) && authors.List? {
      AuthorFieldsSucceedIff(authors.items);
      if AllKeyed(authors.items) {
        CreatorPriority(xml, authors.items, LastValue(authors.items, "givennames"),
          LastValue(authors.items, "stringname"), LastValue(authors.items, "surname"));
      }
    }
  }

  /** `make_ia_metadata` raises exactly on the records `RecordRaises` describes. */
  lemma SynthesizeFailsIff(xml: Record, render: Render)
    ensures Synthesize(xml, render).Failure? <==> RecordRaises(xml)
  {
    SynthesizeSucceedsIff(xml, render);
    CreatorFailsIff(xml);
  }

  /** A missing or non-string `id` fails first, then a missing `journalabbrv`, then an untitled record without a page range. */
  lemma SynthesizeHardFailures(xml: Record, render: Render)
    ensures !Get(xml, "id").Text? ==> Synthesize(xml, render) == Failure(AttributeError("split"))
    ensures Get(xml, "id").Text? && "journalabbrv" !in xml ==> Synthesize(xml, render) == Failure(KeyError("journalabbrv"))
    ensures Get(xml, "id").Text? && "journalabbrv" in xml && Get(xml, "title").Null? && Get(xml, "pagerange").Null?
      ==> Synthesize(xml, render) == Failure(TypeError)
  {
  }

  // ---- Identifier -----------------------------------------------------------

  /** The identifier is `jstor-` followed by the last `/`-separated segment of `id`. */
  lemma {:induction false} IdentifierShape(xml: Record, id: string)
    requires Get(xml, "id") == Text(id)
    ensures Identifier(xml).Success? && |Identifier(xml).value| >= 6 && Identifier(xml).value[..6] == "jstor-"
    ensures '/' !in Identifier(xml).value[6..]
    ensures exists pre :: id == pre + Identifier(xml).value[6..] && (pre == [] || pre[|pre| - 1] == '/')
  {
    SplitLastSuffix(id, '/');
    assert Identifier(xml).value[6..] == LastPart(id, '/');
  }

  // ---- The returned dictionary, entry by entry -----------------------------

  /** The dictionary just before the description: the base record updated with each rule's result, in order. */
  function Assemble(base: Record, title: string, creator: Value, language: Option<string>, ids: seq<Item>, count: Option<Value>): Record {
    var md := base["title" := Text(title)]["creator" := creator];
    var md := if language.Some? then md["language" := Text(language.value)] else md;
    var md := md["external-identifier" := List(ids)];
    if count.Some? then md["imagecount" := count.value] else md
  }

  /** The dictionary `xml` yields just before the description. */
  function Assembled(xml: Record): Record
    requires RulesSucceed(xml)
  {
    Assemble(BaseRecord(xml, Identifier(xml).value).value, Title(xml).value, Creator(xml).value,
      Language(xml).value, UrnList(ExternalIdSources(xml)), ImageCount(xml).value)
  }

  /** What `Synthesize` returns: the assembled dictionary with its description, pruned. */
  lemma SynthesizeAssembled(xml: Record, render: Render)
    requires RulesSucceed(xml)
    ensures Synthesize(xml, render) == Success(Prune(WithDescription(Assembled(xml), render)))
  {
  }

  /** Pruning after the description keeps every other entry exactly when it is truthy. */
  lemma PrunedEntries(md: Record, render: Render)
    ensures forall k :: k != "description" ==> KeptIfTruthy(Prune(WithDescription(md, render)), k, Get(md, k))
    ensures "description" in Prune(WithDescription(md, render)) ==>
      Prune(WithDescription(md, render))["description"] == Text(Description(md, render)) && Description(md, render) != ""
  {
  }

  /** The fixed entries of the base record. */
  predicate BaseFixed(base: Record, identifier: string, id: Value, journalabbrv: Value) {
    && Get(base, "identifier") == Text(identifier)
    && Get(base, "mediatype") == Text("texts")
    && Get(base, "contributor") == Text("JSTOR")
    && Get(base, "source") == Text(StableUrl + Format(id))
    && Get(base, "collection") == Collection(journalabbrv)
  }

  /** The entries the base record copies from the bibliographic record. */
  predicate BaseCopied(base: Record, xml: Record) {
    && Get(base, "publisher") == Get(xml, "journaltitle")
    && Get(base, "date") == Get(xml, "pubdate")
    && Get(base, "volume") == Get(xml, "volume")
    && Get(base, "pagerange") == Get(xml, "pagerange")
    && Get(base, "issn") == Get(xml, "issn")
    && Get(base, "article_type") == Get(xml, "type")
    && Get(base, "journaltitle") == Get(xml, "journaltitle")
    && Get(base, "journalabbrv") == Get(xml, "journalabbrv")
  }

  lemma BaseFixedEntries(xml: Record, identifier: string)
    requires "journalabbrv" in xml
    ensures BaseRecord(xml, identifier).Success?
    ensures BaseFixed(BaseRecord(xml, identifier).value, identifier, Get(xml, "id"), xml["journalabbrv"])
  {
  }

  lemma BaseCopiedEntries(xml: Record, identifier: string)
    requires "journalabbrv" in xml
    ensures BaseRecord(xml, identifier).Success? && BaseCopied(BaseRecord(xml, identifier).value, xml)
  {
    BaseCopiedIssue(xml, identifier);
    BaseCopiedJournal(xml, identifier);
  }

  /** The entries describing the issue and the article. */
  lemma BaseCopiedIssue(xml: Record, identifier: string)
    requires "journalabbrv" in xml
    ensures BaseRecord(xml, identifier).Success?
    ensures Get(BaseRecord(xml, identifier).value, "date") == Get(xml, "pubdate")
    ensures Get(BaseRecord(xml, identifier).value, "volume") == Get(xml, "volume")
    ensures Get(BaseRecord(xml, identifier).value, "pagerange") == Get(xml, "pagerange")
    ensures Get(BaseRecord(xml, identifier).value, "article_type") == Get(xml, "type")
  {
  }

  /** The entries describing the journal. */
  lemma BaseCopiedJournal(xml: Record, identifier: string)
    requires "journalabbrv" in xml
    ensures BaseRecord(xml, identifier).Success?
    ensures Get(BaseRecord(xml, identifier).value, "publisher") == Get(xml, "journaltitle")
    ensures Get(BaseRecord(xml, identifier).value, "issn") == Get(xml, "issn")
    ensures Get(BaseRecord(xml, identifier).value, "journaltitle") == Get(xml, "journaltitle")
    ensures Get(BaseRecord(xml, identifier).value, "journalabbrv") == Get(xml, "journalabbrv")
  {
  }

  /** The base record leaves the language and the image count to later rules. */
  lemma BaseLeavesDerived(xml: Record, identifier: string)
    requires "journalabbrv" in xml
    ensures BaseRecord(xml, identifier).Success?
    ensures "language" !in BaseRecord(xml, identifier).value && "imagecount" !in BaseRecord(xml, identifier).value
  {
  }

  /** The rules after the base record touch only their own entries. */
  lemma AssembleKeeps(base: Record, title: string, creator: Value, language: Option<string>, ids: seq<Item>, count: Option<Value>)
    ensures forall k ::
      k != "title" && k != "creator" && k != "language" && k != "external-identifier" && k != "imagecount"
      ==> Get(Assemble(base, title, creator, language, ids, count), k) == Get(base, k)
  {
  }

  lemma AssembleDerived(base: Record, title: string, creator: Value, language: Option<string>, ids: seq<Item>, count: Option<Value>)
    requires "language" !in base && "imagecount" !in base
    ensures Get(Assemble(base, title, creator, language, ids, count), "title") == Text(title)
    ensures Get(Assemble(base, title, creator, language, ids, count), "creator") == creator
    ensures Get(Assemble(base, title, creator, language, ids, count), "language") == (if language.Some? then Text(language.value) else Null)
    ensures Get(Assemble(base, title, creator, language, ids, count), "external-identifier") == List(ids)
    ensures Get(Assemble(base, title, creator, language, ids, count), "imagecount") == (if count.Some? then count.value else Null)
  {
  }

  /** The fixed entries, which are never pruned. */
  predicate FixedEntries(r: Record, identifier: string, id: Value, journalabbrv: Value) {
    && "identifier" in r && r["identifier"] == Text(identifier)
    && "mediatype" in r && r["mediatype"] == Text("texts")
    && "contributor" in r && r["contributor"] == Text("JSTOR")
    && "source" in r && r["source"] == Text(StableUrl + Format(id))
    && "collection" in r
    && r["collection"] == List([Plain("jstor_" + Format(journalabbrv)), Plain("jstor_ejc"), Plain("additional_collections")])
  }

  /** The identifier, media type, contributor, stable URL and exactly three collections are always present. */
  lemma SynthesizeFixedEntries(xml: Record, render: Render)
    requires Synthesize(xml, render).Success?
    ensures Identifier(xml).Success? && "journalabbrv" in xml
    ensures FixedEntries(Synthesize(xml, render).value, Identifier(xml).value, Get(xml, "id"), xml["journalabbrv"])
  {
    assert RulesSucceed(xml);
    SynthesizeAssembled(xml, render);
    BaseFixedEntries(xml, Identifier(xml).value);
    AssembledFixed(BaseRecord(xml, Identifier(xml).value).value, Title(xml).value, Creator(xml).value,
      Language(xml).value, UrnList(ExternalIdSources(xml)), ImageCount(xml).value, render,
      Identifier(xml).value, Get(xml, "id"), xml["journalabbrv"]);
  }

  /** The fixed entries of the base record survive the later rules, the description and pruning. */
  lemma AssembledFixed(base: Record, title: string, creator: Value, language: Option<string>, ids: seq<Item>,
                       count: Option<Value>, render: Render, identifier: string, id: Value, journalabbrv: Value)
    requires BaseFixed(base, identifier, id, journalabbrv) && identifier != ""
    ensures FixedEntries(Prune(WithDescription(Assemble(base, title, creator, language, ids, count), render)),
      identifier, id, journalabbrv)
  {
    AssembleKeeps(base, title, creator, language, ids, count);
    PrunedEntries(Assemble(base, title, creator, language, ids, count), render);
  }

  /** The entries copied from the record. */
  predicate CopiedEntries(r: Record, xml: Record) {
    && KeptIfTruthy(r, "publisher", Get(xml, "journaltitle"))
    && KeptIfTruthy(r, "date", Get(xml, "pubdate"))
    && KeptIfTruthy(r, "volume", Get(xml, "volume"))
    && KeptIfTruthy(r, "pagerange", Get(xml, "pagerange"))
    && KeptIfTruthy(r, "issn", Get(xml, "issn"))
    && KeptIfTruthy(r, "article_type", Get(xml, "type"))
    && KeptIfTruthy(r, "journaltitle", Get(xml, "journaltitle"))
    && KeptIfTruthy(r, "journalabbrv", Get(xml, "journalabbrv"))
  }

  /** The entries copied from the record are kept exactly when they are truthy. */
  lemma SynthesizeCopiedEntries(xml: Record, render: Render)
    requires Synthesize(xml, render).Success?
    ensures CopiedEntries(Synthesize(xml, render).value, xml)
  {
    assert RulesSucceed(xml);
    SynthesizeAssembled(xml, render);
    BaseCopiedEntries(xml, Identifier(xml).value);
    AssembledCopied(BaseRecord(xml, Identifier(xml).value).value, Title(xml).value, Creator(xml).value,
      Language(xml).value, UrnList(ExternalIdSources(xml)), ImageCount(xml).value, render, xml);
  }

  /** The copied entries of the base record survive the later rules and the description, and are pruned when falsy. */
  lemma AssembledCopied(base: Record, title: string, creator: Value, language: Option<string>, ids: seq<Item>,
                        count: Option<Value>, render: Render, xml: Record)
    requires BaseCopied(base, xml)
    ensures CopiedEntries(Prune(WithDescription(Assemble(base, title, creator, language, ids, count), render)), xml)
  {
    AssembleKeeps(base, title, creator, language, ids, count);
    PrunedEntries(Assemble(base, title, creator, language, ids, count), render);
  }

  /** The entries the rules derive, and the description. */
  predicate DerivedEntries(r: Record, title: string, creator: Value, language: Option<string>, ids: seq<Item>, count: Option<Value>) {
    && KeptIfTruthy(r, "title", Text(title))
    && KeptIfTruthy(r, "creator", creator)
    && KeptIfTruthy(r, "language", if language.Some? then Text(language.value) else Null)
    && KeptIfTruthy(r, "external-identifier", List(ids))
    && KeptIfTruthy(r, "imagecount", if count.Some? then count.value else Null)
    && ("description" in r ==>
          r["description"].Text? && r["description"].s != "" && '\n' !in r["description"].s
          && StrippedOf(r["description"].s, Whitespace))
  }

  /** Each rule's result is kept exactly when it is truthy; a kept description is one stripped line. */
  lemma SynthesizeDerivedEntries(xml: Record, render: Render)
    requires Synthesize(xml, render).Success?
    ensures RulesSucceed(xml)
    ensures DerivedEntries(Synthesize(xml, render).value, Title(xml).value, Creator(xml).value, Language(xml).value,
      UrnList(ExternalIdSources(xml)), ImageCount(xml).value)
  {
    assert RulesSucceed(xml);
    SynthesizeAssembled(xml, render);
    BaseLeavesDerived(xml, Identifier(xml).value);
    AssembleDerived(BaseRecord(xml, Identifier(xml).value).value, Title(xml).value, Creator(xml).value,
      Language(xml).value, UrnList(ExternalIdSources(xml)), ImageCount(xml).value);
    PrunedEntries(Assembled(xml), render);
  }

  /** The names the script writes. */
  const Names: set<string> := {
    "identifier", "mediatype", "publisher", "contributor", "collection", "date", "volume",
    "pagerange", "issn", "source", "article_type", "journaltitle", "journalabbrv", "title",
    "creator", "language", "external-identifier", "imagecount", "description"}

  /** No entry other than the ones the script writes. */
  lemma SynthesizeKeys(xml: Record, render: Render)
    requires Synthesize(xml, render).Success?
    ensures Synthesize(xml, render).value.Keys <= Names
  {
    assert RulesSucceed(xml);
    SynthesizeAssembled(xml, render);
    BaseKeys(xml, Identifier(xml).value);
    AssembledKeys(BaseRecord(xml, Identifier(xml).value).value, Title(xml).value, Creator(xml).value,
      Language(xml).value, UrnList(ExternalIdSources(xml)), ImageCount(xml).value, render);
  }

  lemma BaseKeys(xml: Record, identifier: string)
    requires "journalabbrv" in xml
    ensures BaseRecord(xml, identifier).Success? && BaseRecord(xml, identifier).value.Keys <= Names
  {
  }

  lemma AssembledKeys(base: Record, title: string, creator: Value, language: Option<string>, ids: seq<Item>,
                      count: Option<Value>, render: Render)
    requires base.Keys <= Names
    ensures Prune(WithDescription(Assemble(base, title, creator, language, ids, count), render)).Keys <= Names
  {
  }

  // ---- Title ----------------------------------------------------------------

  /** Without a source title, the title is the placeholder, chosen by whether the page range holds a dash. */
  lemma SynthesizeUntitled(xml: Record, render: Render)
    requires Synthesize(xml, render).Success? && Get(xml, "title").Null?
    ensures !Get(xml, "pagerange").Null?
    ensures "title" in Synthesize(xml, render).value
    ensures Synthesize(xml, render).value["title"] == Text(
      if DashIn(Get(xml, "pagerange")).value
      then UntitledPages(Format(Get(xml, "journaltitle")), Format(Get(xml, "pubdate")), Format(Get(xml, "pagerange")))
      else UntitledPage(Format(Get(xml, "journaltitle")), Format(Get(xml, "pubdate")), Format(Get(xml, "pagerange"))))
  {
    SynthesizeDerivedEntries(xml, render);
  }

  /** A non-empty source title is used unchanged. */
  lemma SynthesizeSourceTitle(xml: Record, render: Render, title: string)
    requires Synthesize(xml, render).Success? && Get(xml, "title") == Text(title) && title != ""
    ensures "title" in Synthesize(xml, render).value && Synthesize(xml, render).value["title"] == Text(title)
  {
    SynthesizeDerivedEntries(xml, render);
  }

  /** An untitled record whose journal title, date and page range are strings. */
  lemma TitleUntitledText(xml: Record, journal: string, date: string, pages: string)
    requires Get(xml, "title").Null? && Get(xml, "journaltitle") == Text(journal) && Get(xml, "pubdate") == Text(date)
    requires Get(xml, "pagerange") == Text(pages)
    ensures Title(xml) == Success(if '-' in pages then UntitledPages(journal, date, pages) else UntitledPage(journal, date, pages))
  {
  }

  /** The single-page placeholder for the journal "Acme" of 1920. */
  lemma UntitledSinglePage(xml: Record)
    requires Get(xml, "title").Null? && Get(xml, "journaltitle") == Text("Acme") && Get(xml, "pubdate") == Text("1920")
    requires Get(xml, "pagerange") == Text("5")
    ensures Title(xml) == Success("[untitled] Acme (1920), page 5")
  {
    TitleUntitledText(xml, "Acme", "1920", "5");
    assert '-' !in "5";
    assert UntitledPage("Acme", "1920", "5") == "[untitled] Acme (1920), page 5";
  }

  /** The page-range placeholder for the same journal. */
  lemma UntitledPageRange(xml: Record)
    requires Get(xml, "title").Null? && Get(xml, "journaltitle") == Text("Acme") && Get(xml, "pubdate") == Text("1920")
    requires Get(xml, "pagerange") == Text("5-9")
    ensures Title(xml) == Success("[untitled] Acme, (1920), pages 5-9")
  {
    TitleUntitledText(xml, "Acme", "1920", "5-9");
    assert "5-9"[1] == '-';
    assert UntitledPages("Acme", "1920", "5-9") == "[untitled] Acme, (1920), pages 5-9";
  }

  // ---- Creator --------------------------------------------------------------

  /** The text of the last author entry keyed `k`, if any: an independent reading of the merge. */
  function LastValue(items: seq<Item>, k: string): Option<string> {
    if |items| == 0 then None
    else if items[|items| - 1].Keyed? && items[|items| - 1].key == k then Some(items[|items| - 1].text)
    else LastValue(items[..|items| - 1], k)
  }

  predicate AllKeyed(items: seq<Item>) {
    forall i :: 0 <= i < |items| ==> items[i].Keyed?
  }

  /** Merging the author subfields succeeds exactly when every entry is a one-key dictionary. */
  lemma {:induction false} AuthorFieldsSucceedIff(items: seq<Item>)
    ensures AuthorFields(items).Success? <==> AllKeyed(items)
  {
    if |items| > 0 {
      var init := items[..|items| - 1];
      AuthorFieldsSucceedIff(init);
      if AllKeyed(items) {
        assert forall i :: 0 <= i < |init| ==> init[i] == items[i];
      } else if AllKeyed(init) {
        assert !items[|items| - 1].Keyed?;
      }
    }
  }

  /** A later occurrence of a subfield overrides an earlier one: the merged value is the last one. */
  lemma {:induction false} AuthorFieldsLastWins(items: seq<Item>, k: string)
    requires AuthorFields(items).Success?
    ensures k in AuthorFields(items).value <==> LastValue(items, k).Some?
    ensures k in AuthorFields(items).value ==> AuthorFields(items).value[k] == LastValue(items, k).value
  {
    if |items| > 0 {
      AuthorFieldsLastWins(items[..|items| - 1], k);
    }
  }

  /** The creator's priority, read off the author entries: given names with surname, else string name, else surname. */
  lemma CreatorPriority(xml: Record, items: seq<Item>, given: Option<string>, stringname: Option<string>, surname: Option<string>)
    requires Get(xml, "authors") == List(items) && items != [] && AllKeyed(items)
    requires given == LastValue(items, "givennames") && stringname == LastValue(items, "stringname")
    requires surname == LastValue(items, "surname")
    ensures given.Some? && surname.Some? ==>
      Creator(xml) == Success(Text(StripChars(surname.value, NameJunk) + ", " + StripChars(given.value, NameJunk)))
    ensures given.Some? && surname.None? ==> Creator(xml) == Failure(KeyError("surname"))
    ensures given.None? && stringname.Some? && stringname.value != "" ==>
      Creator(xml) == Success(Text(StripChars(stringname.value, NameJunk)))
    ensures given.None? && (stringname.None? || stringname.value == "") && surname.Some? && surname.value != "" ==>
      Creator(xml) == Success(Text(StripChars(surname.value, NameJunk)))
    ensures given.None? && (stringname.None? || stringname.value == "") && (surname.None? || surname.value == "") ==>
      Creator(xml) == Failure(NameError)
  {
    AuthorFieldsSucceedIff(items);
    AuthorFieldsLastWins(items, "givennames");
    AuthorFieldsLastWins(items, "stringname");
    AuthorFieldsLastWins(items, "surname");
  }

  lemma {:induction false} NoKeyNoValue(items: seq<Item>, k: string)
    requires forall i :: 0 <= i < |items| ==> !(items[i].Keyed? && items[i].key == k)
    ensures LastValue(items, k).None?
  {
    if |items| > 0 {
      NoKeyNoValue(items[..|items| - 1], k);
    }
  }

  /** A non-empty author list with none of the three name subfields raises `NameError`. */
  lemma NoNameFields(xml: Record, items: seq<Item>)
    requires Get(xml, "authors") == List(items) && items != [] && AllKeyed(items)
    requires forall i :: 0 <= i < |items| ==>
      items[i].key != "givennames" && items[i].key != "stringname" && items[i].key != "surname"
    ensures Creator(xml) == Failure(NameError)
  {
    NoKeyNoValue(items, "givennames");
    NoKeyNoValue(items, "stringname");
    NoKeyNoValue(items, "surname");
    CreatorPriority(xml, items, None, None, None);
  }

  /** Without authors the creator is `None`, which pruning removes. */
  lemma SynthesizeNoAuthors(xml: Record, render: Render)
    requires Synthesize(xml, render).Success? && !Truthy(Get(xml, "authors"))
    ensures "creator" !in Synthesize(xml, render).value
  {
    SynthesizeDerivedEntries(xml, render);
  }

  // ---- Language -------------------------------------------------------------

  /** The language, when set, is the first language stripped of surrounding whitespace. */
  lemma LanguageStripped(xml: Record, render: Render)
    requires Synthesize(xml, render).Success? && "language" in Synthesize(xml, render).value
    ensures Synthesize(xml, render).value["language"].Text?
    ensures Synthesize(xml, render).value["language"].s != ""
    ensures StrippedOf(Synthesize(xml, render).value["language"].s, Whitespace)
    ensures Get(xml, "languages").List? ==>
      Get(xml, "languages").items != [] &&
      Synthesize(xml, render).value["language"].s == Strip(Get(xml, "languages").items[0].text)
    ensures Get(xml, "languages").Text? ==>
      Get(xml, "languages").s != "" &&
      Synthesize(xml, render).value["language"].s == Strip([Get(xml, "languages").s[0]])
  {
    SynthesizeDerivedEntries(xml, render);
  }

  // ---- External identifiers -------------------------------------------------

  /** One URN per truthy source and nothing else. */
  lemma UrnListMembers(sources: seq<(string, Value)>)
    ensures |UrnList(sources)| <= |sources|
    ensures forall i :: 0 <= i < |sources| && Truthy(sources[i].1) ==> Plain(Urn(sources[i].0, sources[i].1)) in UrnList(sources)
    ensures forall item :: item in UrnList(sources) ==>
      exists i :: 0 <= i < |sources| && Truthy(sources[i].1) && item == Plain(Urn(sources[i].0, sources[i].1))
  {
    UrnListLength(sources);
    forall i | 0 <= i < |sources| && Truthy(sources[i].1)
      ensures Plain(Urn(sources[i].0, sources[i].1)) in UrnList(sources)
    {
      UrnListHas(sources, i);
    }
    UrnListSound(sources);
  }

  lemma {:induction false} UrnListLength(sources: seq<(string, Value)>)
    ensures |UrnList(sources)| <= |sources|
  {
    if |sources| > 0 {
      UrnListLength(sources[..|sources| - 1]);
    }
  }

  /** A truthy source's URN is in the list. */
  lemma {:induction false} UrnListHas(sources: seq<(string, Value)>, i: nat)
    requires i < |sources| && Truthy(sources[i].1)
    ensures Plain(Urn(sources[i].0, sources[i].1)) in UrnList(sources)
    decreases |sources|
  {
    var init := sources[..|sources| - 1];
    var last := sources[|sources| - 1];
    var tail := if Truthy(last.1) then [Plain(Urn(last.0, last.1))] else [];
    assert UrnList(sources) == UrnList(init) + tail;
    if i < |init| {
      assert init[i] == sources[i];
      UrnListHas(init, i);
      InLeft(Plain(Urn(sources[i].0, sources[i].1)), UrnList(init), tail);
    } else {
      assert last == sources[i];
    }
  }

  lemma InLeft<T>(x: T, a: seq<T>, b: seq<T>)
    requires x in a
    ensures x in a + b
  {
  }

  lemma {:induction false} UrnListSound(sources: seq<(string, Value)>)
    ensures forall item :: item in UrnList(sources) ==>
      exists i :: 0 <= i < |sources| && Truthy(sources[i].1) && item == Plain(Urn(sources[i].0, sources[i].1))
  {
    if |sources| > 0 {
      var init := sources[..|sources| - 1];
      UrnListSound(init);
      assert forall i :: 0 <= i < |init| ==> init[i] == sources[i];
    }
  }

  /** Two URNs differ when their keys start with different letters. */
  lemma UrnKeysDiffer(k1: string, v1: Value, k2: string, v2: Value)
    requires k1 != "" && k2 != "" && k1[0] != k2[0]
    ensures Urn(k1, v1) != Urn(k2, v2)
  {
    assert Urn(k1, v1)[10] == k1[0];
    assert Urn(k2, v2)[10] == k2[0];
  }

  /** A source whose key starts with a letter no other key starts with is listed exactly when its value is truthy. */
  lemma UrnListIff(sources: seq<(string, Value)>, n: nat)
    requires n < |sources| && sources[n].0 != ""
    requires forall j :: 0 <= j < |sources| && j != n ==> sources[j].0 != "" && sources[j].0[0] != sources[n].0[0]
    ensures Plain(Urn(sources[n].0, sources[n].1)) in UrnList(sources) <==> Truthy(sources[n].1)
  {
    UrnListMembers(sources);
    var item := Plain(Urn(sources[n].0, sources[n].1));
    if item in UrnList(sources) {
      var i :| 0 <= i < |sources| && Truthy(sources[i].1) && item == Plain(Urn(sources[i].0, sources[i].1));
      if i != n {
        UrnKeysDiffer(sources[i].0, sources[i].1, sources[n].0, sources[n].1);
      }
    }
  }

  /** At most four identifiers, one `urn:jstor-<key>:<value>` for each truthy source and only those. */
  lemma ExternalIds(xml: Record, ids: seq<Item>)
    requires ids == UrnList(ExternalIdSources(xml))
    ensures |ids| <= 4
    ensures Plain(Urn("headid", Get(xml, "headid"))) in ids <==> Truthy(Get(xml, "headid"))
    ensures Plain(Urn("journalid", Get(xml, "journalid"))) in ids <==> Truthy(Get(xml, "journalid"))
    ensures Plain(Urn("issueid", Get(xml, "issueid"))) in ids <==> Truthy(Get(xml, "issueid"))
    ensures Plain(Urn("articleid", Get(xml, "id"))) in ids <==> Truthy(Get(xml, "id"))
  {
    var sources := ExternalIdSources(xml);
    UrnListMembers(sources);
    assert sources[0].0[0] == 'h' && sources[1].0[0] == 'j' && sources[2].0[0] == 'i' && sources[3].0[0] == 'a';
    UrnListIff(sources, 0);
    UrnListIff(sources, 1);
    UrnListIff(sources, 2);
    UrnListIff(sources, 3);
  }

  // ---- Image count ----------------------------------------------------------

  /** A page range without a dash counts one page plus the cover: "2". */
  lemma PageCountSinglePage(s: string)
    requires '-' !in s
    ensures PageCount(s) == Text("2")
  {
    SplitNoSeparator(s, '-');
  }

  /** The count when the last two parts read as the integers `a` and `b`. */
  lemma PageCountOfRange(s: string, parts: seq<string>, a: int, b: int)
    requires parts == Split(s, '-') && |parts| >= 2
    requires ParseInt(parts[|parts| - 2]) == Some(a) && ParseInt(parts[|parts| - 1]) == Some(b)
    ensures PageCount(s) == Text(IntToString(b - a + 2))
  {
    var last, first := ParseInt(parts[|parts| - 1]), ParseInt(parts[|parts| - 2]);
    assert Split(s, '-') == parts;
    assert last == Some(b) && first == Some(a);
    var n := b - a + 2;
    assert n == last.value - first.value + 2;
  }

  lemma DigitsHaveNoDash(d: string)
    requires AllDigits(d)
    ensures '-' !in d
  {
  }

  /** A range "a-b" counts `b - a + 2` images. */
  lemma PageCountRange(a: nat, b: nat)
    ensures PageCount(NatToString(a) + "-" + NatToString(b)) == Text(IntToString(b - a + 2))
  {
    var first, last := NatToString(a), NatToString(b);
    DigitsHaveNoDash(first);
    DigitsHaveNoDash(last);
    SplitTwo(first, last, '-');
    assert first + "-" + last == first + ['-'] + last;
    ParseIntToString(a);
    ParseIntToString(b);
    assert IntToString(a) == first && IntToString(b) == last;
    PageCountOfRange(first + "-" + last, [first, last], a, b);
  }

  /** A last part without a digit cannot be read as a number, so the count is `None`. */
  lemma PageCountUnparsable(s: string, parts: seq<string>)
    requires parts == Split(s, '-') && |parts| >= 2 && !HasDigit(parts[|parts| - 1])
    ensures PageCount(s) == Null
  {
    ParseIntNoDigit(parts[|parts| - 1]);
  }

  /** A range counts exactly when both of its last two parts read as integers; otherwise the `ValueError` gives `None`. */
  lemma PageCountNullIff(s: string)
    requires |Split(s, '-')| >= 2
    ensures PageCount(s).Null? <==>
      ParseInt(Split(s, '-')[|Split(s, '-')| - 1]).None? || ParseInt(Split(s, '-')[|Split(s, '-')| - 2]).None?
    ensures PageCount(s).Null? || PageCount(s).Text?
  {
  }

  /** "foo-9": a first part that is not a number gives `None`. */
  lemma PageCountFooNine()
    ensures PageCount("foo-9") == Null
  {
    SplitTwo("foo", "9", '-');
    assert "foo" + ['-'] + "9" == "foo-9";
    assert !HasDigit("foo") by {
      assert forall i :: 0 <= i < 3 ==> !IsDigit("foo"[i]);
    }
    ParseIntNoDigit("foo");
    PageCountNullIff("foo-9");
  }

  /** "5-9a": a last part with a digit that is still not a number gives `None`. */
  lemma PageCountTrailingLetter()
    ensures PageCount("5-9a") == Null
  {
    SplitTwo("5", "9a", '-');
    assert "5" + ['-'] + "9a" == "5-9a";
    StripCharsNoop("9a", Whitespace);
    assert Strip("9a") == "9a";
    assert !AllDigits("9a") by {
      assert !IsDigit("9a"[1]);
    }
    assert ReadUnsigned("9a") == None;
    PageCountNullIff("5-9a");
  }

  /** `int(' + 3')`-style reading: whitespace after the sign is allowed. */
  lemma ParseIntSpacedSign()
    ensures ParseInt("+ 3") == Some(3)
  {
    StripCharsNoop("+ 3", Whitespace);
    assert "+ 3" == "+" + " " + "3";
    ReadIntLiteral("+ 3", "+", " ", "3");
    assert DecimalValue("3") == 3;
  }

  lemma ParseIntOne()
    ensures ParseInt("1") == Some(1)
  {
    StripCharsNoop("1", Whitespace);
    assert "1" == "" + "" + "1";
    ReadIntLiteral("1", "", "", "1");
    assert DecimalValue("1") == 1;
  }

  /** "1-+ 3": `int()` allows whitespace after the sign, so the count is "4". */
  lemma PageCountSpacedSign()
    ensures PageCount("1-+ 3") == Text("4")
  {
    SplitTwo("1", "+ 3", '-');
    assert "1" + ['-'] + "+ 3" == "1-+ 3";
    ParseIntOne();
    ParseIntSpacedSign();
    PageCountOfRange("1-+ 3", ["1", "+ 3"], 1, 3);
    assert IntToString(4) == "4";
  }

  /** "5-9" counts six images. */
  lemma PageCountFiveToNine()
    ensures PageCount("5-9") == Text("6")
  {
    PageCountRange(5, 9);
    assert NatToString(5) + "-" + NatToString(9) == "5-9";
    assert IntToString(6) == "6";
  }

  /** "foo-bar" cannot be read, so the count is `None` and pruning drops it. */
  lemma PageCountFooBar()
    ensures PageCount("foo-bar") == Null
  {
    SplitTwo("foo", "bar", '-');
    assert "foo" + ['-'] + "bar" == "foo-bar";
    assert !HasDigit("bar") by {
      assert forall i :: 0 <= i < 3 ==> !IsDigit("bar"[i]);
    }
    PageCountUnparsable("foo-bar", ["foo", "bar"]);
  }

  /** A count that is a string is never empty, so only an unparsable range's `None` is pruned. */
  lemma PageCountTextNonEmpty(s: string)
    ensures PageCount(s).Text? ==> PageCount(s).s != ""
    ensures Truthy(PageCount(s)) <==> PageCount(s).Text?
  {
  }

  /**
    With a page range, the stored image count is the page-count estimate of
    that range; it is written exactly when the estimate is a string, and the
    `None` of an unparsable range is pruned.
  */
  lemma SynthesizeImageCount(xml: Record, render: Render, s: string)
    requires Get(xml, "pagerange") == Text(s) && s != ""
    ensures Synthesize(xml, render).Success? ==>
      ("imagecount" in Synthesize(xml, render).value <==> PageCount(s).Text?)
    ensures Synthesize(xml, render).Success? && "imagecount" in Synthesize(xml, render).value ==>
      Synthesize(xml, render).value["imagecount"] == PageCount(s)
  {
    if !Synthesize(xml, render).Success? { return; }
    SynthesizeDerivedEntries(xml, render);
    var r := Synthesize(xml, render).value;
    assert ImageCount(xml).value == Some(PageCount(s));
    assert KeptIfTruthy(r, "imagecount", PageCount(s));
    PageCountTextNonEmpty(s);
  }

  /** Without a page range no count is set. */
  lemma SynthesizeNoPageRange(xml: Record, render: Render)
    requires Synthesize(xml, render).Success? && !Truthy(Get(xml, "pagerange"))
    ensures "imagecount" !in Synthesize(xml, render).value
  {
    SynthesizeDerivedEntries(xml, render);
  }
}
