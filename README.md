# freestor: JSTOR article metadata for the Internet Archive, in Dafny

`freestor.py` uploads JSTOR "Early Journal Content" articles to the Internet
Archive. Its decision logic is three functions, and this project models each
of them and proves what they promise:

- `parse_article_xml` flattens an article's XML record into a dictionary from
  tag to value. A leaf element gives its stripped text. An element with
  children gives a list of its children's non-empty texts and one-key
  dictionaries `{tag: text}` for its grandchildren. The layout element
  `pages` is dropped.
- `make_ia_metadata` turns that dictionary into the Internet Archive's
  metadata. It builds:
  - the identifier, collections and stable URL;
  - a placeholder title for untitled articles;
  - a creator chosen by priority among the author subfields;
  - the language;
  - `urn:jstor-…` external identifiers;
  - an image-count estimate from the page range;
  - a rendered description.

  Then it drops every empty entry.
- The pure middle of `modify_ia_metadata` lays the desired metadata over the
  item's current metadata and diffs the two into JSON Patch operations. It
  reshapes each operation into the draft-02 form `{op: path, "value": value}`
  the metadata endpoint accepts. It answers "No changes made to metadata."
  when the patch is empty.

Python's semantics are written out rather than assumed:

- truthiness;
- `dict.get` giving `None`;
- `str.strip()` over the six ASCII whitespace characters, and `strip(' ,')`;
- `split` on one character, `int()` and `str()` of integers;
- every exception the code can raise on a malformed record, as a `PyError`
  value: `AttributeError`, `KeyError`, `TypeError`, `NameError`.

Modules:

- `Wrappers`: `Option` and `Result`.
- `PyStr`: the Python string operations.
- `Values`: the values, records and errors the script handles.
- `ArticleXml`: `parse_article_xml`.
- `IaMetadata`: the rules of `make_ia_metadata`, the whole pipeline as a
  function (`Synthesize`), and the step-by-step method `MakeIaMetadata`
  that updates one dictionary the way the script does.
- `IaMetadataProperties`: the properties of the returned dictionary, proved
  over the rule functions.
- `MetadataPatch`: overlay, diff, draft-02 reshape and the reply.

Where the code does something a reader would not expect, the model follows
the code:

- An untitled record without a page range raises `TypeError`, because of
  `'-' not in None`.
- A page range that is a list has no `split`, so it raises `AttributeError`.
- A string `languages` value contributes only its first character.
- `givennames` without `surname` raises `KeyError`.
- `collection` always lists exactly three collections.
- Python 2's `int()` allows whitespace between the sign and the digits, so the page range "1-+ 3" counts four images.

## Model

| member | source | states |
|---|---|---|
| ArticleXml.Kept | freestor.py:45 | an element is kept exactly when it is one of the root's children whose tag is not `pages` |
| ArticleXml.KeptAppend | freestor.py:45 | the filter keeps document order and duplicates: filtering `a + b` is filtering `a`, then `b` |
| ArticleXml.StrippedText | freestor.py:50 | the result is `text.strip()`; it fails, with `AttributeError('strip')`, exactly when the element has no text |
| ArticleXml.GrandchildItems | freestor.py:59-60 | entry i is `{tag_i: text_i.strip()}` for the i-th grandchild, one per grandchild; the only failure is a grandchild without text |
| ArticleXml.ChildText | freestor.py:56-58 | a child contributes its stripped text exactly when that text exists and is not blank |
| ArticleXml.ChildEntries | freestor.py:56-60 | a child's contribution is built exactly when all its children have text, and has one entry per grandchild plus its own text, if any |
| ArticleXml.ChildItems | freestor.py:53-60 | every list entry is a non-empty stripped string or a dictionary; the only failure is a grandchild without text |
| ArticleXml.ChildItemsAppend | freestor.py:53-60 | the children contribute in document order: the list of `a + b` is the list of `a` followed by that of `b`, and it is built exactly when both are |
| ArticleXml.ChildItemsOne | freestor.py:56-60 | a single child's list is its own text, if any, followed by its grandchild dictionaries |
| ArticleXml.ElementValue | freestor.py:48-60 | a leaf gives `Text(text.strip())`, exactly when it has text; an element with children gives the list of its children, exactly when that list is built; the value is never `None` |
| ArticleXml.Flatten | freestor.py:44-61 | no contract of its own; `ParseArticleXml` is proved to compute it, and `ParsedKeys`, `ParsedLastWins` and `ParseSucceedsIff` state its keys, values and failure |
| ArticleXml.FlattenElements | freestor.py:47-60 | the only way the parse fails is `None.strip()` |
| ArticleXml.ParseArticleXml | freestor.py:42-61 | the loop fills the dictionary element by element and returns exactly the flattened record, or the strip error |
| ArticleXml.ElementList | freestor.py:52-60 | the inner loop's list equals the list value of the element's children |
| ArticleXml.GrandchildList | freestor.py:59-60 | the innermost loop appends exactly the grandchild dictionaries |
| ArticleXml.ParsedKeys | freestor.py:44-52 | the keys of the parsed record are exactly the tags of the top-level elements other than `pages`; `pages` is never a key |
| ArticleXml.ParsedLastWins | freestor.py:44-61 | a tag's entry in the parsed record is the value of the last top-level element carrying that tag |
| ArticleXml.ParseSucceedsIff | freestor.py:44-60 | the parse succeeds exactly when every kept element has a value |
| ArticleXml.FlattenSucceedsIff | freestor.py:47-60 | flattening succeeds exactly when each element's value does |
| ArticleXml.FlattenKeys | freestor.py:47-52 | the key set is the set of element tags |
| ArticleXml.FlattenLastWins | freestor.py:50-52 | a tag maps to the value of the last element carrying it |
| ArticleXml.ChildItemsOrder | freestor.py:53-60 | the list holds, in document order, the children's non-empty stripped texts and, for every grandchild, the pair (its tag, its stripped text) |
| ArticleXml.GrandchildItemsOrder | freestor.py:59-60 | the grandchild dictionaries are the pairs (tag, stripped text) of the grandchildren, in order, and no plain string |
| ArticleXml.ChildEntriesLayout | freestor.py:56-60 | one child contributes its own stripped text, if any, first, and then its grandchild dictionaries in order |
| ArticleXml.ChildEntriesOrder | freestor.py:56-60 | one child's dictionaries are its grandchildren's (tag, stripped text) pairs, in order, and its only plain string is its own text, if any |
| ArticleXml.ChildItemsSucceedIff | freestor.py:53-60 | the list is built exactly when every grandchild has text |
| ArticleXml.GrandchildSucceedIff | freestor.py:59-60 | the grandchild entries are built exactly when each grandchild has text |
| PyStr.StripChars | freestor.py:110-116 | `s.strip(cs)` has neither end in `cs`, is a contiguous part of `s`, and only characters of `cs` were removed on either side |
| PyStr.StripCharsIsStrip | freestor.py:50 | `strip` cuts exactly the characters of `cs` off both ends of `s` |
| PyStr.StripUnique | freestor.py:50 | only one string is `s` with the characters of `cs` cut off both ends, so that description determines `strip` |
| PyStr.StripCharsNoop | freestor.py:125 | an already stripped string is unchanged |
| PyStr.Split | freestor.py:144 | a split is never empty and no part contains the separator |
| PyStr.JoinSplit | freestor.py:144 | joining the parts back gives the original string |
| PyStr.SplitJoin | freestor.py:144 | splitting a join of separator-free parts gives the parts back |
| PyStr.LastPart | freestor.py:70 | `split('/')[-1]` contains no `/` |
| PyStr.SplitLastSuffix | freestor.py:70 | the last part of `split('/')` is a suffix, preceded by `/` unless it is the whole string |
| PyStr.RemoveChar | freestor.py:157 | `replace('\n', '')` removes every newline, leaves a string without one unchanged, and keeps every other character with its multiplicity |
| PyStr.RemoveCharAppend | freestor.py:157 | removal works character by character, in order: removing from `a + b` is removing from `a`, then from `b` |
| PyStr.NatToString | freestor.py:150 | `str(n)` is a non-empty digit string whose decimal value is `n` |
| PyStr.NatToStringLeadingDigit | freestor.py:150 | `str(n)` starts with `0` only for zero: there is no leading zero |
| PyStr.ParseIntIff | freestor.py:149-152 | `int(s)` succeeds exactly when `s`, stripped, is an optional sign, whitespace only after a sign, and a non-empty run of digits; it then reads the digits, negated after `-` |
| PyStr.ReadIntLiteral | freestor.py:149 | every such literal is read to its signed value, whatever whitespace follows the sign |
| PyStr.ReadIntIsLiteral | freestor.py:149-152 | a stripped string that reads as an integer is such a literal |
| PyStr.ReadUnsignedSkips | freestor.py:149 | the unsigned part skips the whitespace before its digits |
| PyStr.ParseIntToString | freestor.py:149-150 | `int(str(n)) == n`, for negative `n` too |
| PyStr.ParseIntNeedsDigit | freestor.py:149-152 | `int()` of a string without a digit raises `ValueError` |
| Values.Get | freestor.py:70-88 | `d.get(k)` is the entry under `k`, or `None` when there is none |
| IaMetadata.Identifier | freestor.py:70 | the identifier exists exactly when `id` is a string, is `jstor-` followed by a segment without `/`, and otherwise `split` raises `AttributeError` |
| IaMetadata.BaseRecord | freestor.py:68-90 | the starting dictionary is built exactly when `journalabbrv` is present, and otherwise raises `KeyError('journalabbrv')` |
| IaMetadata.DashIn | freestor.py:94 | `'-' in v` raises `TypeError` exactly when `v` is `None` |
| IaMetadata.Title | freestor.py:93-103 | the title fails, with `TypeError`, exactly when there is neither a title nor a page range; a source title is used as it is |
| IaMetadata.CreatorFrom | freestor.py:109-118 | the creator is a string; it fails exactly when there are given names without a surname, or none of the three name fields is usable |
| IaMetadata.Creator | freestor.py:106-120 | the creator is `None` exactly when there are no authors, and a string otherwise; it can fail only when there are authors |
| IaMetadata.Language | freestor.py:123-125 | a language is set exactly when the languages are truthy, and is `languages[0].strip()`: the first entry of a list, or the first character of a string; the rule fails, with `AttributeError('strip')`, exactly when the first entry is a dictionary |
| IaMetadata.ImageCount | freestor.py:142-152 | a count is set exactly when the page range is truthy, and is then the page-count estimate of that string; the rule fails, with `AttributeError('split')`, exactly when the page range is a non-empty list |
| IaMetadata.PageCount | freestor.py:144-152 | no contract of its own; its lemmas state it: `PageCountSinglePage` ("2" without a dash), `PageCountOfRange` and `PageCountRange` (`str(b - a + 2)`), `PageCountNullIff` (`None` exactly when `int()` raises), `PageCountTextNonEmpty` |
| IaMetadata.Collection | freestor.py:75-79 | no contract of its own; `BaseFixedEntries` and `SynthesizeFixedEntries` state that the collection is exactly `jstor_<journalabbrv>`, `jstor_ejc`, `additional_collections` |
| IaMetadata.AuthorFields | freestor.py:108 | no contract of its own; `AuthorFieldsSucceedIff` (merging succeeds exactly when every entry is a dictionary) and `AuthorFieldsLastWins` (a subfield holds the last entry's text, against the separate `LastValue`) state it |
| IaMetadata.ExternalIdSources | freestor.py:128-133 | no contract of its own; the four sources `headid`, `journalid`, `issueid` and `articleid` (from `id`), whose URNs `ExternalIds` states |
| IaMetadata.Urn | freestor.py:138 | no contract of its own; `UrnKeysDiffer` (different key initials give different URNs) and `ExternalIds` (`urn:jstor-<key>:<value>`) state it |
| IaMetadata.UrnList | freestor.py:135-139 | no contract of its own; `UrnListMembers` (one URN per truthy source and nothing else) and `UrnListIff` (listed exactly when truthy) state it, and the loop `ExternalIdentifiers` is proved equal to it |
| IaMetadata.WithTitle | freestor.py:93-103 | the title step succeeds exactly when the title rule does, adds `title` and changes no other entry |
| IaMetadata.WithCreator | freestor.py:106-120 | the creator step succeeds exactly when the creator rule does, adds `creator` and changes no other entry |
| IaMetadata.WithLanguage | freestor.py:123-125 | the language step succeeds exactly when the language rule does, stores the rule's language under `language` when there is one and otherwise changes nothing, and changes no other entry |
| IaMetadata.WithExternalIds | freestor.py:135-139 | the identifier step adds `external-identifier` and changes no other entry |
| IaMetadata.WithImageCount | freestor.py:142-152 | the image-count step succeeds exactly when the image-count rule does, stores the rule's count under `imagecount` when there is one and otherwise changes nothing, and changes no other entry |
| IaMetadata.WithDescription | freestor.py:157 | the description step adds `description` and changes no other entry |
| IaMetadata.Synthesize | freestor.py:64-160 | every value in the returned dictionary is truthy |
| IaMetadata.Description | freestor.py:157 | the description is the rendered text with its newlines removed and exactly its surrounding whitespace cut off; it has no newline and no surrounding whitespace |
| IaMetadata.Prune | freestor.py:160 | exactly the entries with a truthy value are kept, unchanged |
| IaMetadata.MakeIaMetadata | freestor.py:64-160 | the step-by-step dictionary updates give the result of the rules applied in order, or the first rule's error; every returned value is truthy |
| IaMetadata.SetTitle | freestor.py:93-103 | the title section stores the source title, or a placeholder chosen by `'-' in pagerange`; `TypeError` when the page range is `None` |
| IaMetadata.SetCreator | freestor.py:106-120 | the creator section stores the creator rule's value, `None` without authors, or raises its error |
| IaMetadata.SetLanguage | freestor.py:123-125 | the language section stores the first language, stripped, and nothing without languages |
| IaMetadata.SetImageCount | freestor.py:142-152 | the image-count section stores the page-count estimate, and nothing without a page range |
| IaMetadata.MergeAuthorFields | freestor.py:108 | the loop merges the author dictionaries in order; a string entry raises `AttributeError('items')` |
| IaMetadata.ExternalIdentifiers | freestor.py:135-139 | the loop appends one URN per truthy source, in order |
| IaMetadataProperties.SynthesizeFailsIff | freestor.py:64-160 | the script raises exactly when `id` is not a string, or `journalabbrv` is missing, or there is neither title nor page range, or the authors are unusable, or the first language is a dictionary, or the page range is a non-empty list |
| IaMetadataProperties.CreatorFailsIff | freestor.py:106-120 | the creator rule raises exactly when the authors are truthy and are not a list, hold a string, have given names but no surname, or have none of the three name fields non-empty |
| IaMetadataProperties.SynthesizeHardFailures | freestor.py:70-94 | a missing `id` raises `AttributeError`, then a missing `journalabbrv` raises `KeyError`, then an untitled record without a page range raises `TypeError` |
| IaMetadataProperties.IdentifierShape | freestor.py:70 | the identifier is `jstor-` followed by the last `/`-separated segment of `id` |
| IaMetadataProperties.BaseFixedEntries | freestor.py:68-85 | the starting dictionary has the identifier, `texts`, `JSTOR`, the stable URL, and the three collections |
| IaMetadataProperties.BaseCopiedEntries | freestor.py:72-89 | the starting dictionary copies publisher, date, volume, pagerange, issn, type, journal title and abbreviation from the record |
| IaMetadataProperties.BaseLeavesDerived | freestor.py:68-90 | the starting dictionary has no language and no image count |
| IaMetadataProperties.PrunedEntries | freestor.py:157-160 | after pruning, each entry other than the description is present exactly when truthy; a kept description is the rendered one and non-empty |
| IaMetadataProperties.AssembledFixed | freestor.py:92-160 | the fixed entries survive the later sections, the description and pruning |
| IaMetadataProperties.AssembledCopied | freestor.py:92-160 | a copied entry survives the later sections and the description, and is kept exactly when truthy |
| IaMetadataProperties.SynthesizeFixedEntries | freestor.py:68-85 | every result has the identifier, media type `texts`, contributor `JSTOR`, the stable URL, and exactly three collections: `jstor_<journalabbrv>`, `jstor_ejc`, `additional_collections` |
| IaMetadataProperties.SynthesizeCopiedEntries | freestor.py:72-89 | each copied field is in the result exactly when its source value is truthy, and then equals it |
| IaMetadataProperties.SynthesizeDerivedEntries | freestor.py:92-160 | title, creator, language, external identifiers and image count are in the result exactly when truthy and equal the rules' values; a kept description is one stripped line |
| IaMetadataProperties.SynthesizeKeys | freestor.py:68-157 | the result has no keys beyond the nineteen the script writes |
| IaMetadataProperties.SynthesizeUntitled | freestor.py:93-101 | without a source title the page range is present, and the title is the one-page or the page-range placeholder, chosen by whether it holds a dash |
| IaMetadataProperties.SynthesizeSourceTitle | freestor.py:102-103 | a non-empty source title is used unchanged |
| IaMetadataProperties.TitleUntitledText | freestor.py:93-101 | the placeholder for string fields, chosen by `'-' in pagerange` |
| IaMetadataProperties.UntitledSinglePage | freestor.py:94-97 | journal "Acme", 1920, page "5" gives `[untitled] Acme (1920), page 5` |
| IaMetadataProperties.UntitledPageRange | freestor.py:98-101 | pages "5-9" give `[untitled] Acme, (1920), pages 5-9` |
| IaMetadataProperties.AuthorFieldsSucceedIff | freestor.py:108 | merging succeeds exactly when every author entry is a dictionary |
| IaMetadataProperties.AuthorFieldsLastWins | freestor.py:108 | a merged subfield is present exactly when some entry has it, and holds the last such entry's text |
| IaMetadataProperties.CreatorPriority | freestor.py:109-118 | `surname, givennames`, or `KeyError` without a surname; else a non-empty string name; else a non-empty surname; else `NameError`; each stripped of `' ,'` |
| IaMetadataProperties.NoNameFields | freestor.py:117-118 | authors with none of the three subfields raise `NameError` |
| IaMetadataProperties.SynthesizeNoAuthors | freestor.py:119-120 | without authors the result has no creator |
| IaMetadataProperties.LanguageStripped | freestor.py:123-125 | a kept language is a non-empty string without surrounding whitespace, and is the first language stripped: the first list entry, or the first character of a string |
| IaMetadataProperties.UrnListMembers | freestor.py:135-139 | one URN per truthy source and nothing else; no more entries than sources |
| IaMetadataProperties.UrnKeysDiffer | freestor.py:138 | URNs whose keys start with different letters differ |
| IaMetadataProperties.UrnListIff | freestor.py:136-139 | a source's URN is listed exactly when its value is truthy |
| IaMetadataProperties.ExternalIds | freestor.py:128-139 | at most four identifiers; `urn:jstor-<key>:<value>` for headid, journalid, issueid and articleid is listed exactly when that value is truthy |
| IaMetadataProperties.PageCountSinglePage | freestor.py:145-146 | a page range without a dash counts "2" |
| IaMetadataProperties.PageCountOfRange | freestor.py:144-150 | when the last two parts read as `a` and `b`, the count is `str(b - a + 2)` |
| IaMetadataProperties.PageCountRange | freestor.py:144-150 | "a-b" counts `str(b - a + 2)` |
| IaMetadataProperties.PageCountFiveToNine | freestor.py:144-150 | "5-9" counts "6" |
| IaMetadataProperties.PageCountUnparsable | freestor.py:149-152 | a last part without a digit makes the count `None`, with no exception |
| IaMetadataProperties.PageCountFooBar | freestor.py:149-152 | "foo-bar" makes the count `None` |
| IaMetadataProperties.PageCountNullIff | freestor.py:144-152 | a page range with a dash counts `None` exactly when one of its last two parts does not read as an integer, and a string otherwise |
| IaMetadataProperties.PageCountFooNine | freestor.py:149-152 | "foo-9": a first part that is not a number makes the count `None` |
| IaMetadataProperties.PageCountTrailingLetter | freestor.py:149-152 | "5-9a": a last part with a digit that is still not a number makes the count `None` |
| IaMetadataProperties.PageCountSpacedSign | freestor.py:144-150 | "1-+ 3" counts "4", because `int()` allows whitespace after the sign |
| IaMetadataProperties.ParseIntSpacedSign | freestor.py:149 | `int("+ 3") == 3` |
| IaMetadataProperties.PageCountTextNonEmpty | freestor.py:144-152 | a count that is a string is never empty, so the count is truthy exactly when it is a string |
| IaMetadataProperties.SynthesizeImageCount | freestor.py:142-160 | with a string page range, the result's `imagecount` is the page-count estimate of that range; it is present exactly when the estimate is a string, and the `None` of an unparsable range is pruned |
| IaMetadataProperties.SynthesizeNoPageRange | freestor.py:142 | without a page range the result has no image count |
| MetadataPatch.Overlay | freestor.py:174 | the target keeps every current key, adds the desired ones, and the desired values override |
| MetadataPatch.Escape | freestor.py:175 | an escaped key contains no `/`, so its path has one reference token |
| MetadataPatch.UnescapeEscape | freestor.py:175 | unescaping an escaped key gives the key back |
| MetadataPatch.EscapePlain | freestor.py:175 | a key without `~` or `/` is its own token |
| MetadataPatch.Pointer | freestor.py:175 | a path is `/` followed by one token |
| MetadataPatch.PointerRoundTrip | freestor.py:175 | a path names the key it was made from |
| MetadataPatch.PointerInjective | freestor.py:175 | distinct keys get distinct paths |
| MetadataPatch.DiffOp | freestor.py:175 | an operation is `add` exactly for a key the source lacks, `replace` otherwise; its path names the key and it carries the desired value |
| MetadataPatch.FlatDiff | freestor.py:175 | the diff has at most one operation per visited key |
| MetadataPatch.FlatDiffSound | freestor.py:175 | every operation adds or replaces a key whose value changed |
| MetadataPatch.FlatDiffComplete | freestor.py:175 | every changed key has its operation |
| MetadataPatch.FlatDiffEmptyIff | freestor.py:175 | the diff is empty exactly when no visited key changed |
| MetadataPatch.OverlayChanged | freestor.py:174-175 | against the overlay only desired entries that differ from the current ones change |
| MetadataPatch.OverlayDiffOps | freestor.py:174-175 | each operation carries a desired value; it is `add` exactly for a key the current metadata lacks, and otherwise `replace` of a different value |
| MetadataPatch.OverlayNoChangesIff | freestor.py:174-177 | the patch is empty exactly when every desired entry already holds its value |
| MetadataPatch.ApplyFlatDiff | freestor.py:175 | applying the diff sets exactly the changed entries |
| MetadataPatch.ApplyOverlayDiff | freestor.py:174-175 | applying the diff to the current metadata yields the overlay |
| MetadataPatch.Reshape | freestor.py:176 | a reshaped operation has exactly two keys, the operation's name and `value` |
| MetadataPatch.UnshapeReshape | freestor.py:176 | a draft-02 operation reads back as the operation it came from |
| MetadataPatch.ReshapeAll | freestor.py:176 | the patch has one draft-02 operation per diff operation |
| MetadataPatch.ReshapeAllIndex | freestor.py:176 | the i-th draft-02 operation is the reshape of the i-th operation |
| MetadataPatch.ApplyReshaped | freestor.py:176 | reshaping changes the operations' form and not their effect |
| MetadataPatch.Reconcile | freestor.py:173-178 | the reply is the no-changes message, or a non-empty request for the given target with one operation per diff operation |
| MetadataPatch.ReconcileNoChangesIff | freestor.py:173-179 | the reply is "No changes made to metadata." exactly when every desired entry is current; otherwise it is a request for the given target |
| MetadataPatch.ReconcileShape | freestor.py:176 | every operation sent is `{op: path, 'value': value}` for a diff operation |
| MetadataPatch.ReconcileApplies | freestor.py:174-179 | the request, applied by its receiver, turns the current metadata into the overlay |
| MetadataPatch.ReconcileReplaceOne | freestor.py:174-179 | changing one plain key sends a single `replace` of `/key` with the new value |
| MetadataPatch.SameTitleNoChanges | freestor.py:177-178 | `{"title": "X"}` over `{"title": "X"}` gives the no-changes message |
| MetadataPatch.NewTitleReplaces | freestor.py:174-179 | `{"title": "Y"}` over `{"title": "X"}` sends one `replace` of `/title` with "Y" |

## Left out

- `pdf_iterator` (freestor.py:24-39) walks the file system. It is I/O.
- Reading the XML file and parsing it with lxml: the model starts from the parsed element tree.
- The description template: Jinja2 rendering is a function parameter (`render`). The `unicode`/UTF-8 conversions (freestor.py:108, 156) are not modelled; strings are sequences of characters.
- The unused `file_md` parameter of `make_ia_metadata` is not modelled.
- The network side of `modify_ia_metadata`: the metadata fetch, the session cookies from the environment, JSON serialisation and the PATCH request. The current metadata is a parameter, and the request is returned as a value.
- `upload_article`, `upload_status` and the concurrent main loop (freestor.py:184-229) wrap the remote upload library and a thread pool. They are I/O and concurrency.
- Python 2 dictionary iteration order: the external identifiers are listed in a fixed order. The diff takes the visiting order as a parameter, and the lemmas about it hold in any order that covers the desired keys.
- `Values.Format`: the string of a list value approximates Python's `repr`, without escaping or `u''` prefixes.
- `PyStr.Strip`: covers only the six ASCII whitespace characters, not Unicode whitespace. `PyStr.ParseInt`: reads ASCII digits only.
- MetadataPatch.FlatDiff: models `jsonpatch.make_patch` as a flat diff of top-level keys. The library is foreign code. It diffs nested values recursively, giving deeper paths, and it may emit other operations. None of that is modelled.
- MetadataPatch.ApplyDraft02: the receiving side is a reference model for flat objects only. It is not the server's implementation.
