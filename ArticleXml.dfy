/**
  `parse_article_xml`: flattening a parsed JSTOR article record into a
  dictionary from tag to value.  The document is given already parsed, as a
  tree of elements; reading and parsing the file is not modelled.
*/
module ArticleXml {
  import opened Wrappers
  import opened PyStr
  import opened Values

  /** An XML element: its tag, its text (absent when the element has none) and its child elements. */
  datatype Element = Element(tag: string, text: Option<string>, children: seq<Element>)

  /** The tag whose element carries layout data only and is dropped. */
  const PagesTag := "pages"

  /** What `None.strip()` raises: the only error the parser can produce. */
  const StripError := AttributeError("strip")

  /** `[e for e in elements if e.tag != 'pages']`. */
  function Kept(elements: seq<Element>): (r: seq<Element>)
    ensures forall e :: e in r <==> e in elements && e.tag != PagesTag
  {
    if |elements| == 0 then []
    else (if elements[0].tag != PagesTag then [elements[0]] else []) + Kept(elements[1..])
  }

  /** The filter keeps document order and duplicates: it distributes over concatenation. */
  lemma {:induction false} KeptAppend(a: seq<Element>, b: seq<Element>)
    ensures Kept(a + b) == Kept(a) + Kept(b)
  {
    if |a| > 0 {
      var x, rest := a[0], a[1..];
      ConsSplit(a, b);
      KeptCons(x, rest);
      KeptCons(x, rest + b);
      KeptAppend(rest, b);
      var head, p, q := Kept([x]), Kept(rest), Kept(b);
      assert head + (p + q) == (head + p) + q;
    } else {
      assert a + b == b;
    }
  }

  lemma KeptCons(x: Element, s: seq<Element>)
    ensures Kept([x] + s) == Kept([x]) + Kept(s)
  {
    assert ([x] + s)[0] == x && ([x] + s)[1..] == s;
    KeptOne(x);
  }

  lemma KeptOne(e: Element)
    ensures Kept([e]) == if e.tag != PagesTag then [e] else []
  {
    assert [e][1..] == [];
  }

  /** `text.strip()`, which raises when the text is absent. */
  function StrippedText(text: Option<string>): (r: Outcome<string>)
    ensures r.Failure? <==> text.None?
    ensures r.Failure? ==> r.error == StripError
    ensures r.Success? ==> r.value == Strip(text.value) && StrippedOf(r.value, Whitespace)
  {
    match text
    case None => Failure(StripError)
    case Some(t) => Success(Strip(t))
  }

  /** The entries a list value may hold: non-empty stripped strings and dictionaries of stripped text. */
  predicate WellFormedItem(item: Item) {
    match item
    case Plain(t) => t != "" && StrippedOf(t, Whitespace)
    case Keyed(_, t) => StrippedOf(t, Whitespace)
  }

  /** `{x.tag: x.text.strip()}` for each grandchild `x`, in order. */
  function GrandchildItems(gs: seq<Element>): (r: Outcome<seq<Item>>)
    ensures r.Failure? ==> r.error == StripError
    ensures r.Success? ==> |r.value| == |gs| && forall i :: 0 <= i < |gs| ==> r.value[i].Keyed? && WellFormedItem(r.value[i])
    ensures r.Success? ==> forall i :: 0 <= i < |gs| ==>
      gs[i].text.Some? && r.value[i] == Keyed(gs[i].tag, Strip(gs[i].text.value))
  {
    if |gs| == 0 then Success([])
    else
      var front :- GrandchildItems(gs[..|gs| - 1]);
      var t :- StrippedText(gs[|gs| - 1].text);
      assert forall i :: 0 <= i < |gs| - 1 ==> gs[..|gs| - 1][i] == gs[i];
      Success(front + [Keyed(gs[|gs| - 1].tag, t)])
  }

  /** The child's own stripped text, kept only when it is non-empty. */
  function ChildText(child: Element): (r: seq<Item>)
    ensures |r| <= 1
    ensures |r| == 1 <==> child.text.Some? && Strip(child.text.value) != ""
    ensures |r| == 1 ==> r[0] == Plain(Strip(child.text.value))
  {
    if child.text.Some? && Strip(child.text.value) != "" then [Plain(Strip(child.text.value))] else []
  }

  /** What one child contributes to its parent's list: its text, then its own children. */
  function ChildEntries(child: Element): (r: Outcome<seq<Item>>)
    ensures r.Failure? ==> r.error == StripError
    ensures r.Success? <==> AllHaveText(child.children)
    ensures r.Success? ==> |r.value| == |ChildText(child)| + |child.children|
  {
    GrandchildSucceedIff(child.children);
    var g :- GrandchildItems(child.children);
    Success(ChildText(child) + g)
  }

  /** The list value of an element that has children. */
  function ChildItems(cs: seq<Element>): (r: Outcome<seq<Item>>)
    ensures r.Failure? ==> r.error == StripError
    ensures r.Success? ==> forall i :: 0 <= i < |r.value| ==> WellFormedItem(r.value[i])
  {
    if |cs| == 0 then Success([])
    else
      var front :- ChildItems(cs[..|cs| - 1]);
      var last :- ChildEntries(cs[|cs| - 1]);
      assert forall i :: 0 <= i < |last| ==> WellFormedItem(last[i]);
      Success(front + last)
  }

  /** The value a top-level element contributes: its stripped text when it is a leaf, otherwise its list. */
  function ElementValue(e: Element): (r: Outcome<Value>)
    ensures r.Failure? ==> r.error == StripError
    ensures |e.children| == 0 ==> (r.Success? <==> e.text.Some?)
    ensures r.Success? ==> (r.value.Text? <==> |e.children| == 0) && !r.value.Null?
    ensures r.Success? && r.value.Text? ==> StrippedOf(r.value.s, Whitespace)
    ensures r.Success? && r.value.List? ==> forall i :: 0 <= i < |r.value.items| ==> WellFormedItem(r.value.items[i])
    ensures r.Success? && |e.children| == 0 ==> r.value == Text(Strip(e.text.value))
    ensures |e.children| > 0 ==> (r.Success? <==> ChildItems(e.children).Success?)
    ensures r.Success? && |e.children| > 0 ==> r.value == List(ChildItems(e.children).value)
  {
    if |e.children| == 0 then
      var t :- StrippedText(e.text);
      Success(Text(t))
    else
      var items :- ChildItems(e.children);
      Success(List(items))
  }

  /** The dictionary built from `es` in order; a later element replaces an earlier one with the same tag. */
  function FlattenElements(es: seq<Element>): (r: Outcome<Record>)
    ensures r.Failure? ==> r.error == StripError
  {
    if |es| == 0 then Success(map[])
    else
      var md :- FlattenElements(es[..|es| - 1]);
      var v :- ElementValue(es[|es| - 1]);
      Success(md[es[|es| - 1].tag := v])
  }

  /** What `parse_article_xml` returns for a document whose root element is `root`. */
  function Flatten(root: Element): Outcome<Record> {
    FlattenElements(Kept(root.children))
  }

  /** `parse_article_xml`: fills the dictionary element by element. */
  method ParseArticleXml(root: Element) returns (r: Outcome<Record>)
    ensures r == Flatten(root)
  {
    var elements := Kept(root.children);
    var md: Record := map[];
    var i := 0;
    while i < |elements|
      invariant 0 <= i <= |elements|
      invariant FlattenElements(elements[..i]) == Success(md)
    {
      var element := elements[i];
      if |element.children| == 0 {
        if element.text.None? {
          FlattenStepFails(elements, i);
          FlattenFailurePrefix(elements, i + 1);
          return Failure(StripError);
        }
        FlattenStep(elements, i, md, Text(Strip(element.text.value)));
        md := md[element.tag := Text(Strip(element.text.value))];
      } else {
        var list := ElementList(element.children);
        if list.Failure? {
          FlattenStepFails(elements, i);
          FlattenFailurePrefix(elements, i + 1);
          return Failure(StripError);
        }
        FlattenStep(elements, i, md, List(list.value));
        md := md[element.tag := List(list.value)];
      }
      i := i + 1;
    }
    assert elements[..i] == elements;
    return Success(md);
  }

  /** One more element adds its tag with its value. */
  lemma FlattenStep(es: seq<Element>, i: nat, md: Record, v: Value)
    requires i < |es| && FlattenElements(es[..i]) == Success(md) && ElementValue(es[i]) == Success(v)
    ensures FlattenElements(es[..i + 1]) == Success(md[es[i].tag := v])
  {
    var prefix := es[..i + 1];
    assert prefix[..|prefix| - 1] == es[..i];
    assert prefix[|prefix| - 1] == es[i];
  }

  /** An element without a value makes the whole flattening fail. */
  lemma FlattenStepFails(es: seq<Element>, i: nat)
    requires i < |es| && ElementValue(es[i]).Failure?
    ensures FlattenElements(es[..i + 1]).Failure?
  {
    var prefix := es[..i + 1];
    assert prefix[|prefix| - 1] == es[i];
  }

  /** The list `parse_article_xml` builds for an element with children `cElements`, appending entry by entry. */
  method ElementList(cElements: seq<Element>) returns (r: Outcome<seq<Item>>)
    ensures r == ChildItems(cElements)
  {
    var list: seq<Item> := [];
    var j := 0;
    while j < |cElements|
      invariant 0 <= j <= |cElements|
      invariant ChildItems(cElements[..j]) == Success(list)
    {
      var child := cElements[j];
      var text: seq<Item> := [];
      if child.text.Some? {
        var t := Strip(child.text.value);
        if t != "" {
          text := [Plain(t)];
        }
      }
      var grand := GrandchildList(child.children);
      if grand.Failure? {
        ChildStepFails(cElements, j);
        ChildFailurePrefix(cElements, j + 1);
        return Failure(StripError);
      }
      ChildStep(cElements, j, list, grand.value);
      list := list + (text + grand.value);
      j := j + 1;
    }
    assert cElements[..j] == cElements;
    return Success(list);
  }

  /** The entries `{x.tag: x.text.strip()}` appended for the grandchildren `grand`, one by one. */
  method GrandchildList(grand: seq<Element>) returns (r: Outcome<seq<Item>>)
    ensures r == GrandchildItems(grand)
  {
    var list: seq<Item> := [];
    var k := 0;
    while k < |grand|
      invariant 0 <= k <= |grand|
      invariant GrandchildItems(grand[..k]) == Success(list)
    {
      var x := grand[k];
      assert grand[..k + 1][..k] == grand[..k];
      if x.text.None? {
        GrandchildFailurePrefix(grand, k + 1);
        assert grand[..|grand|] == grand;
        return Failure(StripError);
      }
      list := list + [Keyed(x.tag, Strip(x.text.value))];
      k := k + 1;
    }
    assert grand[..k] == grand;
    return Success(list);
  }

  /** One more child extends the list by its text and then its grandchildren. */
  lemma ChildStep(cs: seq<Element>, j: nat, list: seq<Item>, grand: seq<Item>)
    requires j < |cs| && ChildItems(cs[..j]) == Success(list) && GrandchildItems(cs[j].children) == Success(grand)
    ensures ChildItems(cs[..j + 1]) == Success(list + (ChildText(cs[j]) + grand))
  {
    ChildEntriesOf(cs[j], grand);
    ChildSnoc(cs, j, list, ChildText(cs[j]) + grand);
  }

  lemma ChildEntriesOf(c: Element, grand: seq<Item>)
    requires GrandchildItems(c.children) == Success(grand)
    ensures ChildEntries(c) == Success(ChildText(c) + grand)
  {
  }

  lemma ChildSnoc(cs: seq<Element>, j: nat, list: seq<Item>, entries: seq<Item>)
    requires j < |cs| && ChildItems(cs[..j]) == Success(list) && ChildEntries(cs[j]) == Success(entries)
    ensures ChildItems(cs[..j + 1]) == Success(list + entries)
  {
    var prefix := cs[..j + 1];
    assert prefix[..|prefix| - 1] == cs[..j];
    assert prefix[|prefix| - 1] == cs[j];
    ChildSplit(prefix);
  }

  /** A child whose grandchildren fail makes the list fail from that child on. */
  lemma ChildStepFails(cs: seq<Element>, j: nat)
    requires j < |cs| && GrandchildItems(cs[j].children).Failure?
    ensures ChildItems(cs[..j + 1]).Failure?
  {
    var prefix := cs[..j + 1];
    assert prefix[|prefix| - 1] == cs[j];
    assert ChildEntries(cs[j]).Failure?;
  }

  lemma {:induction false} GrandchildFailurePrefix(gs: seq<Element>, k: nat)
    requires k <= |gs| && GrandchildItems(gs[..k]).Failure?
    ensures GrandchildItems(gs).Failure?
    decreases |gs|
  {
    if k < |gs| {
      assert gs[..|gs| - 1][..k] == gs[..k];
      GrandchildFailurePrefix(gs[..|gs| - 1], k);
    } else {
      assert gs[..k] == gs;
    }
  }

  lemma {:induction false} ChildFailurePrefix(cs: seq<Element>, j: nat)
    requires j <= |cs| && ChildItems(cs[..j]).Failure?
    ensures ChildItems(cs).Failure?
    decreases |cs|
  {
    if j < |cs| {
      assert cs[..|cs| - 1][..j] == cs[..j];
      ChildFailurePrefix(cs[..|cs| - 1], j);
    } else {
      assert cs[..j] == cs;
    }
  }

  lemma {:induction false} FlattenFailurePrefix(es: seq<Element>, i: nat)
    requires i <= |es| && FlattenElements(es[..i]).Failure?
    ensures FlattenElements(es).Failure?
    decreases |es|
  {
    if i < |es| {
      assert es[..|es| - 1][..i] == es[..i];
      FlattenFailurePrefix(es[..|es| - 1], i);
    } else {
      assert es[..i] == es;
    }
  }

  /** The parse succeeds exactly when every element it keeps has its value. */
  lemma {:induction false} FlattenSucceedsIff(es: seq<Element>)
    ensures FlattenElements(es).Success? <==> forall e :: e in es ==> ElementValue(e).Success?
  {
    if |es| > 0 {
      var front := es[..|es| - 1];
      FlattenSucceedsIff(front);
      assert es == front + [es[|es| - 1]];
      assert forall e :: e in es <==> e in front || e == es[|es| - 1];
    }
  }

  /** The keys of the dictionary are exactly the tags of the elements. */
  lemma {:induction false} FlattenKeys(es: seq<Element>)
    requires FlattenElements(es).Success?
    ensures FlattenElements(es).value.Keys == set e | e in es :: e.tag
  {
    if |es| > 0 {
      var front := es[..|es| - 1];
      FlattenKeys(front);
      assert es == front + [es[|es| - 1]];
      assert forall e :: e in es <==> e in front || e == es[|es| - 1];
    }
  }

  /** A tag maps to the value of the last element carrying it. */
  lemma {:induction false} FlattenLastWins(es: seq<Element>, i: nat)
    requires FlattenElements(es).Success?
    requires i < |es|
    requires forall j :: i < j < |es| ==> es[j].tag != es[i].tag
    ensures ElementValue(es[i]).Success? && es[i].tag in FlattenElements(es).value
    ensures FlattenElements(es).value[es[i].tag] == ElementValue(es[i]).value
  {
    var front := es[..|es| - 1];
    var last := es[|es| - 1];
    assert FlattenElements(front).Success? && ElementValue(last).Success?;
    assert FlattenElements(es).value == FlattenElements(front).value[last.tag := ElementValue(last).value];
    if i < |es| - 1 {
      assert front[i] == es[i];
      assert forall j :: i < j < |front| ==> front[j] == es[j];
      FlattenLastWins(front, i);
      assert last.tag != es[i].tag;
    }
  }

  /** In the document itself, a kept tag maps to the value of its last element. */
  lemma ParsedLastWins(root: Element, i: nat)
    requires Flatten(root).Success?
    requires i < |root.children| && root.children[i].tag != PagesTag
    requires forall j :: i < j < |root.children| ==> root.children[j].tag != root.children[i].tag
    ensures ElementValue(root.children[i]).Success? && root.children[i].tag in Flatten(root).value
    ensures Flatten(root).value[root.children[i].tag] == ElementValue(root.children[i]).value
  {
    var cs := root.children;
    var e := cs[i];
    var a, b := cs[..i], cs[i + 1..];
    assert cs == a + [e] + b;
    KeptAppend(a + [e], b);
    KeptAppend(a, [e]);
    KeptOne(e);
    var kept := Kept(cs);
    assert kept == Kept(a) + [e] + Kept(b);
    var n := |Kept(a)|;
    var kb := Kept(b);
    LaterTagsDiffer(cs, i);
    forall j | n < j < |kept|
      ensures kept[j].tag != e.tag
    {
      assert kept[j] == kb[j - n - 1];
      assert kept[j] in kb;
    }
    FlattenLastWins(kept, n);
  }

  lemma LaterTagsDiffer(cs: seq<Element>, i: nat)
    requires i < |cs| && forall j :: i < j < |cs| ==> cs[j].tag != cs[i].tag
    ensures forall x :: x in cs[i + 1..] ==> x.tag != cs[i].tag
  {
    forall x | x in cs[i + 1..]
      ensures x.tag != cs[i].tag
    {
      var m :| 0 <= m < |cs[i + 1..]| && cs[i + 1..][m] == x;
      assert x == cs[i + 1 + m];
    }
  }

  /** What `parse_article_xml` keeps: the tag of every top-level element except `pages`, and nothing else. */
  lemma ParsedKeys(root: Element)
    requires Flatten(root).Success?
    ensures Flatten(root).value.Keys == set e | e in root.children && e.tag != PagesTag :: e.tag
    ensures PagesTag !in Flatten(root).value
  {
    FlattenKeys(Kept(root.children));
  }

  /** The parse of `root` succeeds exactly when each kept element has its value. */
  lemma ParseSucceedsIff(root: Element)
    ensures Flatten(root).Success? <==> forall e :: e in root.children && e.tag != PagesTag ==> ElementValue(e).Success?
  {
    FlattenSucceedsIff(Kept(root.children));
  }

  /** The `(key, text)` pairs of the dictionary entries of a list, in order. */
  function KeyedEntries(items: seq<Item>): seq<(string, string)> {
    if |items| == 0 then []
    else
      var last := items[|items| - 1];
      KeyedEntries(items[..|items| - 1]) + (if last.Keyed? then [(last.key, last.text)] else [])
  }

  /** The strings of a list, in order. */
  function PlainTexts(items: seq<Item>): seq<string> {
    if |items| == 0 then []
    else PlainTexts(items[..|items| - 1]) + (if items[|items| - 1].Plain? then [items[|items| - 1].text] else [])
  }

  /** A grandchild's tag and stripped text (empty when it has none). */
  function TagAndText(g: Element): (string, string) {
    (g.tag, if g.text.Some? then Strip(g.text.value) else "")
  }

  function TagsAndTexts(gs: seq<Element>): seq<(string, string)> {
    if |gs| == 0 then [] else TagsAndTexts(gs[..|gs| - 1]) + [TagAndText(gs[|gs| - 1])]
  }

  /** The tags and stripped texts of all grandchildren, child by child, in document order. */
  function GrandchildEntries(cs: seq<Element>): seq<(string, string)> {
    if |cs| == 0 then []
    else GrandchildEntries(cs[..|cs| - 1]) + TagsAndTexts(cs[|cs| - 1].children)
  }

  /** The non-empty stripped texts of the children, in document order. */
  function ChildTexts(cs: seq<Element>): seq<string> {
    if |cs| == 0 then []
    else
      var c := cs[|cs| - 1];
      ChildTexts(cs[..|cs| - 1]) + (if c.text.Some? && Strip(c.text.value) != "" then [Strip(c.text.value)] else [])
  }

  lemma {:induction false} KeyedEntriesAppend(a: seq<Item>, b: seq<Item>)
    ensures KeyedEntries(a + b) == KeyedEntries(a) + KeyedEntries(b)
    decreases |b|
  {
    if |b| == 0 {
      assert a + b == a;
    } else {
      var b' := b[..|b| - 1];
      KeyedEntriesAppend(a, b');
      assert (a + b)[..|a + b| - 1] == a + b';
      assert (a + b)[|a + b| - 1] == b[|b| - 1];
    }
  }

  lemma {:induction false} PlainTextsAppend(a: seq<Item>, b: seq<Item>)
    ensures PlainTexts(a + b) == PlainTexts(a) + PlainTexts(b)
    decreases |b|
  {
    if |b| == 0 {
      assert a + b == a;
    } else {
      var b' := b[..|b| - 1];
      PlainTextsAppend(a, b');
      assert (a + b)[..|a + b| - 1] == a + b';
      assert (a + b)[|a + b| - 1] == b[|b| - 1];
    }
  }

  /** The grandchild dictionaries carry, in order, each grandchild's tag and stripped text. */
  lemma {:induction false} GrandchildItemsOrder(gs: seq<Element>)
    requires GrandchildItems(gs).Success?
    ensures KeyedEntries(GrandchildItems(gs).value) == TagsAndTexts(gs)
    ensures PlainTexts(GrandchildItems(gs).value) == []
  {
    if |gs| > 0 {
      var front := GrandchildItems(gs[..|gs| - 1]).value;
      var last := Keyed(gs[|gs| - 1].tag, Strip(gs[|gs| - 1].text.value));
      GrandchildItemsOrder(gs[..|gs| - 1]);
      KeyedEntriesAppend(front, [last]);
      PlainTextsAppend(front, [last]);
      assert [last][..0] == [];
    }
  }

  /** One child contributes its own text, if any, first, and then its grandchild dictionaries. */
  lemma ChildEntriesLayout(c: Element)
    requires ChildEntries(c).Success?
    ensures GrandchildItems(c.children).Success?
    ensures ChildEntries(c).value == ChildText(c) + GrandchildItems(c.children).value
  {
    GrandchildSucceedIff(c.children);
    ChildEntriesOf(c, GrandchildItems(c.children).value);
  }

  /** The entries one child contributes: its own text, if any, then its grandchildren's pairs. */
  lemma ChildEntriesOrder(c: Element)
    requires ChildEntries(c).Success?
    ensures KeyedEntries(ChildEntries(c).value) == TagsAndTexts(c.children)
    ensures PlainTexts(ChildEntries(c).value) == ChildTexts([c])
  {
    var t := ChildText(c);
    var g := GrandchildItems(c.children).value;
    GrandchildItemsOrder(c.children);
    KeyedEntriesAppend(t, g);
    PlainTextsAppend(t, g);
    assert t == [] || (|t| == 1 && t[..0] == []);
    assert [c][..0] == [];
  }

  /** The same pair of summaries grows by one child in step with the list. */
  lemma SummariesSnoc(cs: seq<Element>)
    requires |cs| > 0
    ensures GrandchildEntries(cs) == GrandchildEntries(cs[..|cs| - 1]) + TagsAndTexts(cs[|cs| - 1].children)
    ensures ChildTexts(cs) == ChildTexts(cs[..|cs| - 1]) + ChildTexts([cs[|cs| - 1]])
  {
    assert [cs[|cs| - 1]][..0] == [];
  }

  /**
    The list of an element with children holds, in document order, the
    non-empty stripped texts of the children and one dictionary per
    grandchild, holding the grandchild's tag and stripped text.
  */
  lemma {:induction false} ChildItemsOrder(cs: seq<Element>)
    requires ChildItems(cs).Success?
    ensures KeyedEntries(ChildItems(cs).value) == GrandchildEntries(cs)
    ensures PlainTexts(ChildItems(cs).value) == ChildTexts(cs)
  {
    if |cs| > 0 {
      var c := cs[|cs| - 1];
      ChildSplit(cs);
      var front := ChildItems(cs[..|cs| - 1]).value;
      var last := ChildEntries(c).value;
      ChildItemsOrder(cs[..|cs| - 1]);
      ChildEntriesOrder(c);
      KeyedEntriesAppend(front, last);
      PlainTextsAppend(front, last);
      SummariesSnoc(cs);
    }
  }

  /** The list of `a + b` is the list of `a` followed by the list of `b`: children contribute in document order. */
  lemma {:induction false} ChildItemsAppend(a: seq<Element>, b: seq<Element>)
    ensures ChildItems(a + b).Success? <==> ChildItems(a).Success? && ChildItems(b).Success?
    ensures ChildItems(a + b).Success? ==> ChildItems(a + b).value == ChildItems(a).value + ChildItems(b).value
    decreases |b|
  {
    if |b| > 0 {
      var b' := b[..|b| - 1];
      var c := b[|b| - 1];
      ChildItemsAppend(a, b');
      assert (a + b)[..|a + b| - 1] == a + b';
      assert (a + b)[|a + b| - 1] == c;
      ChildSplit(a + b);
      ChildSplit(b);
      if ChildItems(a + b).Success? {
        var x, y, z := ChildItems(a).value, ChildItems(b').value, ChildEntries(c).value;
        assert (x + y) + z == x + (y + z);
      }
    } else {
      assert a + b == a;
    }
  }

  /** `ChildItems` on a non-empty sequence, unfolded once. */
  lemma ChildSplit(cs: seq<Element>)
    requires |cs| > 0
    ensures ChildItems(cs).Success? <==> ChildItems(cs[..|cs| - 1]).Success? && ChildEntries(cs[|cs| - 1]).Success?
    ensures ChildItems(cs).Success? ==>
      ChildItems(cs).value == ChildItems(cs[..|cs| - 1]).value + ChildEntries(cs[|cs| - 1]).value
  {
  }

  /** A single child's list is its text, if non-empty, followed by one dictionary per grandchild. */
  lemma ChildItemsOne(c: Element)
    ensures ChildItems([c]) == ChildEntries(c)
  {
    assert [c][..0] == [];
    assert ChildItems([c][..0]) == Success([]);
    if ChildEntries(c).Success? {
      assert [] + ChildEntries(c).value == ChildEntries(c).value;
    }
  }

  /** Every element of `gs` has text. */
  predicate AllHaveText(gs: seq<Element>) {
    forall j :: 0 <= j < |gs| ==> gs[j].text.Some?
  }

  /** An element with children has a list value exactly when every grandchild has text. */
  lemma {:induction false} ChildItemsSucceedIff(cs: seq<Element>)
    ensures ChildItems(cs).Success? <==> forall i :: 0 <= i < |cs| ==> AllHaveText(cs[i].children)
  {
    if |cs| > 0 {
      var front := cs[..|cs| - 1];
      var last := cs[|cs| - 1];
      ChildItemsSucceedIff(front);
      ChildSplit(cs);
      assert ChildEntries(last).Success? <==> AllHaveText(last.children);
      assert forall i :: 0 <= i < |front| ==> front[i] == cs[i];
    }
  }

  lemma {:induction false} GrandchildSucceedIff(gs: seq<Element>)
    ensures GrandchildItems(gs).Success? <==> AllHaveText(gs)
  {
    if |gs| > 0 {
      var front := gs[..|gs| - 1];
      GrandchildSucceedIff(front);
      assert forall j :: 0 <= j < |front| ==> front[j] == gs[j];
    }
  }
}
