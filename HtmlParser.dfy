/**
 * The HTML parser adapter over Jsoup. Parsing and CSS selection belong to
 * Jsoup and are given as the two functions of a `Jsoup` value, each returning
 * None where the library throws. What the adapter adds is modelled here:
 * argument checks, the link filter, the metadata merge, the attribute map
 * and the fallbacks to an empty result.
 */
module HtmlParser {
  import opened Wrappers
  import opened JavaLang

  /** A key with its value: an element attribute, or a metadata entry. */
  datatype Pair = Pair(key: string, value: string)

  /** An element as Jsoup presents it: tag name, text and attributes in order. */
  datatype Element = Element(tagName: string, text: string, attributes: seq<Pair>)

  /** A parsed document: its title, its text and all its elements in document order. */
  datatype Document = Document(title: string, text: string, elements: seq<Element>)

  /**
   * The library itself: `parse` is Jsoup.parse, `select` is Document.select
   * with a CSS selector; None stands for an exception from the library.
   */
  datatype Jsoup = Jsoup(
    parse: string -> Option<Document>,
    select: (Document, string) -> Option<seq<Element>>)

  /** The exceptions the parser throws. */
  datatype Error =
    | NullHtml       // IllegalArgumentException: the HTML is null
    | BlankSelector  // IllegalArgumentException: the selector is null or blank
    | ParseFailed    // RuntimeException wrapping a failure of Jsoup.parse

  // ---------------------------------------------------------------------
  // Maps built by successive puts
  // ---------------------------------------------------------------------

  /** Index i holds the last entry for key. */
  predicate IsLastFor(entries: seq<Pair>, key: string, i: int)
  {
    0 <= i < |entries| && entries[i].key == key
    && forall j :: i < j < |entries| ==> entries[j].key != key
  }

  /** The value of the last entry for key, if there is one. */
  function LastValue(entries: seq<Pair>, key: string): (r: Option<string>)
    ensures r.Some? ==> Pair(key, r.value) in entries
    decreases |entries|
  {
    if entries == [] then None
    else
      var n := |entries| - 1;
      if entries[n].key == key then Some(entries[n].value) else LastValue(entries[..n], key)
  }

  /** LastValue finds nothing exactly when no entry has the key. */
  lemma {:induction false} LastValueNone(entries: seq<Pair>, key: string)
    ensures LastValue(entries, key).None? <==> forall i :: 0 <= i < |entries| ==> entries[i].key != key
    decreases |entries|
  {
    if entries != [] {
      var n := |entries| - 1;
      LastValueNone(entries[..n], key);
      assert forall i :: 0 <= i < n ==> entries[..n][i] == entries[i];
    }
  }

  /** What LastValue finds is the value of the last entry with the key. */
  lemma {:induction false} LastValueSome(entries: seq<Pair>, key: string)
    requires LastValue(entries, key).Some?
    ensures exists i :: IsLastFor(entries, key, i) && entries[i].value == LastValue(entries, key).value
    decreases |entries|
  {
    var n := |entries| - 1;
    if entries[n].key == key {
      assert IsLastFor(entries, key, n);
    } else {
      LastValueSome(entries[..n], key);
      var i :| IsLastFor(entries[..n], key, i) && entries[..n][i].value == LastValue(entries[..n], key).value;
      assert IsLastFor(entries, key, i);
    }
  }

  /**
   * The map m after `put(key, value)` of every entry in order, as a Java
   * HashMap does it: a later put for a key overwrites an earlier one.
   */
  function Inserted(m: map<string, string>, entries: seq<Pair>): (r: map<string, string>)
    ensures m.Keys <= r.Keys
    ensures forall p :: p in entries ==> p.key in r
    decreases |entries|
  {
    if entries == [] then m
    else
      var n := |entries| - 1;
      Inserted(m, entries[..n])[entries[n].key := entries[n].value]
  }

  /** A key is in the map after the puts when it was before or some entry has it,
      and it then maps to the last entry's value, or else to its old value. */
  lemma {:induction false} InsertedLookup(m: map<string, string>, entries: seq<Pair>, key: string)
    ensures key in Inserted(m, entries) <==> key in m || LastValue(entries, key).Some?
    ensures key in Inserted(m, entries) ==>
      Inserted(m, entries)[key] == if LastValue(entries, key).Some? then LastValue(entries, key).value else m[key]
    decreases |entries|
  {
    if entries != [] {
      InsertedLookup(m, entries[..|entries| - 1], key);
    }
  }

  /** One more put at the end. */
  lemma InsertedSnoc(m: map<string, string>, entries: seq<Pair>, p: Pair)
    ensures Inserted(m, entries + [p]) == Inserted(m, entries)[p.key := p.value]
  {
    assert (entries + [p])[..|entries|] == entries;
  }

  // ---------------------------------------------------------------------
  // Elements, attributes and the fixed selectors
  // ---------------------------------------------------------------------

  /** Element.attr(key): the attribute's value, or "" when it has none. */
  function Attr(e: Element, key: string): (r: string)
    ensures r != "" ==> Pair(key, r) in e.attributes
  {
    match LastValue(e.attributes, key)
    case Some(v) => v
    case None => ""
  }

  predicate HasAttribute(e: Element, key: string)
  {
    LastValue(e.attributes, key).Some?
  }

  /**
   * Jsoup's `tag[attr]` selector: the elements with that tag name and that
   * attribute, in document order.
   */
  function Select(elements: seq<Element>, tag: string, attr: string): (r: seq<Element>)
    ensures |r| <= |elements|
    decreases |elements|
  {
    if elements == [] then []
    else
      var n := |elements| - 1;
      var e := elements[n];
      Select(elements[..n], tag, attr) + (if e.tagName == tag && HasAttribute(e, attr) then [e] else [])
  }

  /** The selection holds exactly the elements with the tag and the attribute. */
  lemma {:induction false} SelectMembers(elements: seq<Element>, tag: string, attr: string, e: Element)
    ensures e in Select(elements, tag, attr) <==> e in elements && e.tagName == tag && HasAttribute(e, attr)
    decreases |elements|
  {
    if elements != [] {
      var n := |elements| - 1;
      assert elements == elements[..n] + [elements[n]];
      SelectMembers(elements[..n], tag, attr, e);
    }
  }

  /** Selecting from a concatenation is concatenating the selections. */
  lemma {:induction false} SelectAppend(a: seq<Element>, b: seq<Element>, tag: string, attr: string)
    ensures Select(a + b, tag, attr) == Select(a, tag, attr) + Select(b, tag, attr)
    decreases |b|
  {
    if b != [] {
      var n := |b| - 1;
      assert (a + b)[..|a| + n] == a + b[..n];
      assert (a + b)[|a| + n] == b[n];
      SelectAppend(a, b[..n], tag, attr);
    } else {
      assert a + b == a;
    }
  }

  // ---------------------------------------------------------------------
  // Links
  // ---------------------------------------------------------------------

  /** The href of an anchor. */
  function Href(anchor: Element): string
  {
    Attr(anchor, "href")
  }

  /** `map(link -> link.attr("href"))`: the href of each anchor, in order. */
  function Hrefs(anchors: seq<Element>): (r: seq<string>)
    ensures |r| == |anchors|
    ensures forall i :: 0 <= i < |anchors| ==> r[i] == Href(anchors[i])
    decreases |anchors|
  {
    if anchors == [] then [] else
      var n := |anchors| - 1;
      Hrefs(anchors[..n]) + [Href(anchors[n])]
  }

  /** `filter(href -> !href.isEmpty())`: the non-empty strings, in order. */
  function NonEmpty(hrefs: seq<string>): (r: seq<string>)
    ensures |r| <= |hrefs|
    ensures forall s :: s in r ==> s != ""
    decreases |hrefs|
  {
    if hrefs == [] then [] else
      var n := |hrefs| - 1;
      NonEmpty(hrefs[..n]) + (if hrefs[n] != "" then [hrefs[n]] else [])
  }

  /** The filter keeps exactly the non-empty strings. */
  lemma {:induction false} NonEmptyMembers(hrefs: seq<string>, s: string)
    ensures s in NonEmpty(hrefs) <==> s in hrefs && s != ""
    decreases |hrefs|
  {
    if hrefs != [] {
      var n := |hrefs| - 1;
      assert hrefs == hrefs[..n] + [hrefs[n]];
      NonEmptyMembers(hrefs[..n], s);
    }
  }

  /** The filter drops nothing exactly when no string is empty. */
  lemma {:induction false} NonEmptyKeepAll(hrefs: seq<string>)
    ensures |NonEmpty(hrefs)| == |hrefs| <==> forall i :: 0 <= i < |hrefs| ==> hrefs[i] != ""
    decreases |hrefs|
  {
    if hrefs != [] {
      var n := |hrefs| - 1;
      NonEmptyKeepAll(hrefs[..n]);
      assert forall i :: 0 <= i < n ==> hrefs[..n][i] == hrefs[i];
    }
  }

  /** The filter of a concatenation is the concatenation of the filters. */
  lemma {:induction false} NonEmptyAppend(a: seq<string>, b: seq<string>)
    ensures NonEmpty(a + b) == NonEmpty(a) + NonEmpty(b)
    decreases |b|
  {
    if b != [] {
      var n := |b| - 1;
      assert (a + b)[..|a| + n] == a + b[..n];
      assert (a + b)[|a| + n] == b[n];
      NonEmptyAppend(a, b[..n]);
    } else {
      assert a + b == a;
    }
  }

  /** The links of some anchors: their hrefs, leaving out the empty ones. */
  function Links(anchors: seq<Element>): (r: seq<string>)
    ensures |r| <= |anchors|
    ensures forall s :: s in r ==> s != ""
  {
    NonEmpty(Hrefs(anchors))
  }

  /** A string is a link exactly when some anchor has it as its non-empty href. */
  lemma LinksMembers(anchors: seq<Element>, s: string)
    ensures s in Links(anchors) <==> exists i :: 0 <= i < |anchors| && Href(anchors[i]) == s && s != ""
  {
    var hrefs := Hrefs(anchors);
    NonEmptyMembers(hrefs, s);
    if s in hrefs {
      var i :| 0 <= i < |hrefs| && hrefs[i] == s;
      assert Href(anchors[i]) == s;
    }
  }

  /** No link is dropped exactly when every anchor has a non-empty href. */
  lemma LinksKeepAll(anchors: seq<Element>)
    ensures |Links(anchors)| == |anchors| <==> forall i :: 0 <= i < |anchors| ==> Href(anchors[i]) != ""
  {
    NonEmptyKeepAll(Hrefs(anchors));
  }

  /** The links of a concatenation are the concatenated links: order is kept. */
  lemma LinksAppend(a: seq<Element>, b: seq<Element>)
    ensures Links(a + b) == Links(a) + Links(b)
  {
    assert Hrefs(a + b) == Hrefs(a) + Hrefs(b);
    NonEmptyAppend(Hrefs(a), Hrefs(b));
  }

  // ---------------------------------------------------------------------
  // Metadata
  // ---------------------------------------------------------------------

  /**
   * The puts one metadata pass makes over the selected meta elements: the
   * value of attribute `key` with the `content` value, when both are non-empty.
   */
  function MetaEntries(metas: seq<Element>, key: string): (r: seq<Pair>)
    ensures |r| <= |metas|
    ensures forall i :: 0 <= i < |r| ==> r[i].key != "" && r[i].value != ""
    decreases |metas|
  {
    if metas == [] then []
    else
      var n := |metas| - 1;
      var name, content := Attr(metas[n], key), Attr(metas[n], "content");
      MetaEntries(metas[..n], key) + (if name != "" && content != "" then [Pair(name, content)] else [])
  }

  /** One more selected meta element at the end. */
  lemma MetaEntriesSnoc(metas: seq<Element>, e: Element, key: string)
    ensures MetaEntries(metas + [e], key)
         == MetaEntries(metas, key) + (if Attr(e, key) != "" && Attr(e, "content") != ""
                                       then [Pair(Attr(e, key), Attr(e, "content"))] else [])
  {
    assert (metas + [e])[..|metas|] == metas;
  }

  /** The entry list of a concatenation is the concatenated entry lists. */
  lemma {:induction false} MetaEntriesAppend(a: seq<Element>, b: seq<Element>, key: string)
    ensures MetaEntries(a + b, key) == MetaEntries(a, key) + MetaEntries(b, key)
    decreases |b|
  {
    if b != [] {
      var n := |b| - 1;
      assert (a + b)[..|a| + n] == a + b[..n];
      assert (a + b)[|a| + n] == b[n];
      MetaEntriesAppend(a, b[..n], key);
    } else {
      assert a + b == a;
    }
  }

  /** The puts of the `meta[name]` pass. */
  function NameEntries(doc: Document): seq<Pair>
  {
    MetaEntries(Select(doc.elements, "meta", "name"), "name")
  }

  /** The puts of the `meta[property]` pass. */
  function PropertyEntries(doc: Document): seq<Pair>
  {
    MetaEntries(Select(doc.elements, "meta", "property"), "property")
  }

  /** getMetadata as a value: the name pass, then the property pass, into one map. */
  function MetadataOf(doc: Document): (r: map<string, string>)
    ensures Inserted(map[], NameEntries(doc)).Keys <= r.Keys
    ensures forall p :: p in PropertyEntries(doc) ==> p.key in r
  {
    Inserted(Inserted(map[], NameEntries(doc)), PropertyEntries(doc))
  }

  /** Every metadata entry has a non-empty key and a non-empty value. */
  lemma MetadataNonEmpty(doc: Document)
    ensures forall k :: k in MetadataOf(doc) ==> k != "" && MetadataOf(doc)[k] != ""
  {
    var names, props := NameEntries(doc), PropertyEntries(doc);
    forall k | k in MetadataOf(doc) ensures k != "" && MetadataOf(doc)[k] != "" {
      InsertedLookup(Inserted(map[], names), props, k);
      InsertedLookup(map[], names, k);
      if LastValue(props, k).Some? {
        LastValueSome(props, k);
        var i :| IsLastFor(props, k, i) && props[i].value == LastValue(props, k).value;
      } else {
        LastValueSome(names, k);
        var i :| IsLastFor(names, k, i) && names[i].value == LastValue(names, k).value;
      }
    }
  }

  /** Each put of a pass comes from a selected element's attribute and its content. */
  lemma {:induction false} MetaEntriesFrom(metas: seq<Element>, key: string, p: Pair)
    requires p in MetaEntries(metas, key)
    ensures exists e :: e in metas && Attr(e, key) == p.key && Attr(e, "content") == p.value
    decreases |metas|
  {
    var n := |metas| - 1;
    if p in MetaEntries(metas[..n], key) {
      MetaEntriesFrom(metas[..n], key, p);
      var e :| e in metas[..n] && Attr(e, key) == p.key && Attr(e, "content") == p.value;
      assert e in metas;
    } else {
      assert metas[n] in metas;
    }
  }

  /** Every metadata entry is the name or property of a meta element, with its content. */
  lemma MetadataFromMeta(doc: Document, k: string)
    requires k in MetadataOf(doc)
    ensures exists e :: e in doc.elements && e.tagName == "meta"
                     && (Attr(e, "name") == k || Attr(e, "property") == k)
                     && Attr(e, "content") == MetadataOf(doc)[k]
  {
    var names, props := NameEntries(doc), PropertyEntries(doc);
    InsertedLookup(Inserted(map[], names), props, k);
    InsertedLookup(map[], names, k);
    var attr: string := if LastValue(props, k).Some? then "property" else "name";
    var entries := MetaEntries(Select(doc.elements, "meta", attr), attr);
    assert entries == if attr == "property" then props else names;
    LastValueSome(entries, k);
    var i :| IsLastFor(entries, k, i) && entries[i].value == LastValue(entries, k).value;
    MetaEntriesFrom(Select(doc.elements, "meta", attr), attr, entries[i]);
    var e :| e in Select(doc.elements, "meta", attr) && Attr(e, attr) == k && Attr(e, "content") == entries[i].value;
    SelectMembers(doc.elements, "meta", attr, e);
  }

  /** A key the property pass puts takes the property pass's last value for it. */
  lemma PropertyOverridesName(doc: Document, key: string)
    requires LastValue(PropertyEntries(doc), key).Some?
    ensures key in MetadataOf(doc)
    ensures MetadataOf(doc)[key] == LastValue(PropertyEntries(doc), key).value
  {
    InsertedLookup(Inserted(map[], NameEntries(doc)), PropertyEntries(doc), key);
  }

  /** A key the property pass never puts keeps what the name pass left. */
  lemma NameWithoutProperty(doc: Document, key: string)
    requires LastValue(PropertyEntries(doc), key).None?
    ensures key in MetadataOf(doc) <==> LastValue(NameEntries(doc), key).Some?
    ensures key in MetadataOf(doc) ==> MetadataOf(doc)[key] == LastValue(NameEntries(doc), key).value
  {
    InsertedLookup(Inserted(map[], NameEntries(doc)), PropertyEntries(doc), key);
    InsertedLookup(map[], NameEntries(doc), key);
  }

  /**
   * An element that neither pass would put anything for (not a meta element,
   * or one whose name/property or content is empty) leaves the metadata unchanged,
   * wherever it stands in the document.
   */
  lemma SkippedElementLeavesMetadata(title: string, text: string, a: seq<Element>, e: Element, b: seq<Element>)
    requires e.tagName != "meta" || ((Attr(e, "name") == "" || Attr(e, "content") == "")
                                   && (Attr(e, "property") == "" || Attr(e, "content") == ""))
    ensures MetadataOf(Document(title, text, a + [e] + b)) == MetadataOf(Document(title, text, a + b))
  {
    var meta := "meta";
    SkippedPass(a, e, b, meta, "name");
    SkippedPass(a, e, b, meta, "property");
  }

  /** A single element a pass puts nothing for contributes no entry. */
  lemma SkippedSingle(e: Element, tag: string, key: string)
    requires e.tagName != tag || Attr(e, key) == "" || Attr(e, "content") == ""
    ensures MetaEntries(Select([e], tag, key), key) == []
  {
    assert [e][..0] == [];
    if e.tagName == tag && HasAttribute(e, key) {
      assert Select([e], tag, key) == [e];
      MetaEntriesSnoc([], e, key);
      assert [] + [e] == [e];
    } else {
      assert Select([e], tag, key) == [];
    }
  }

  /** One pass over a + [e] + b puts what it puts over a + b when it puts nothing for e. */
  lemma SkippedPass(a: seq<Element>, e: Element, b: seq<Element>, tag: string, key: string)
    requires e.tagName != tag || Attr(e, key) == "" || Attr(e, "content") == ""
    ensures MetaEntries(Select(a + [e] + b, tag, key), key) == MetaEntries(Select(a + b, tag, key), key)
  {
    var sa, se, sb := Select(a, tag, key), Select([e], tag, key), Select(b, tag, key);
    SelectAppend(a + [e], b, tag, key);
    SelectAppend(a, [e], tag, key);
    SelectAppend(a, b, tag, key);
    MetaEntriesAppend(sa + se, sb, key);
    MetaEntriesAppend(sa, se, key);
    MetaEntriesAppend(sa, sb, key);
    SkippedSingle(e, tag, key);
    var ea := MetaEntries(sa, key);
    assert ea + [] == ea;
  }

  /** One metadata pass: a put for each selected meta element whose two values are non-empty. */
  method PutPass(start: map<string, string>, metas: seq<Element>, key: string)
    returns (metadata: map<string, string>)
    ensures metadata == Inserted(start, MetaEntries(metas, key))
  {
    metadata := start;
    for i := 0 to |metas|
      invariant metadata == Inserted(start, MetaEntries(metas[..i], key))
    {
      var meta := metas[i];
      var name := Attr(meta, key);
      var content := Attr(meta, "content");
      assert metas[..i + 1] == metas[..i] + [meta];
      MetaEntriesSnoc(metas[..i], meta, key);
      if name != "" && content != "" {
        InsertedSnoc(start, MetaEntries(metas[..i], key), Pair(name, content));
        metadata := metadata[name := content];
      } else {
        assert MetaEntries(metas[..i] + [meta], key) == MetaEntries(metas[..i], key) + [];
        assert MetaEntries(metas[..i], key) + [] == MetaEntries(metas[..i], key);
      }
    }
    assert metas[..|metas|] == metas;
  }

  /** JsoupParseResult.getMetadata: the `meta[name]` pass, then the `meta[property]` pass. */
  method GetMetadata(doc: Document) returns (metadata: map<string, string>)
    ensures metadata == MetadataOf(doc)
    ensures forall k :: k in metadata ==> k != "" && metadata[k] != ""
  {
    metadata := PutPass(map[], Select(doc.elements, "meta", "name"), "name");
    metadata := PutPass(metadata, Select(doc.elements, "meta", "property"), "property");
    MetadataNonEmpty(doc);
  }

  /** JsoupElement.getAttributes: a put for each attribute, in order. */
  method GetAttributes(e: Element) returns (attributes: map<string, string>)
    ensures attributes == Inserted(map[], e.attributes)
    ensures attributes.Keys == set a | a in e.attributes :: a.key
    ensures forall k :: k in attributes ==> attributes[k] == Attr(e, k)
  {
    attributes := map[];
    for i := 0 to |e.attributes|
      invariant attributes == Inserted(map[], e.attributes[..i])
    {
      var attribute := e.attributes[i];
      assert e.attributes[..i + 1] == e.attributes[..i] + [attribute];
      InsertedSnoc(map[], e.attributes[..i], attribute);
      attributes := attributes[attribute.key := attribute.value];
    }
    assert e.attributes[..|e.attributes|] == e.attributes;
    forall k ensures k in attributes <==> k in (set a | a in e.attributes :: a.key) {
      InsertedLookup(map[], e.attributes, k);
      LastValueNone(e.attributes, k);
      if k in (set a | a in e.attributes :: a.key) {
        var a :| a in e.attributes && a.key == k;
        var j :| 0 <= j < |e.attributes| && e.attributes[j] == a;
      }
    }
    forall k | k in attributes ensures attributes[k] == Attr(e, k) {
      InsertedLookup(map[], e.attributes, k);
    }
  }

  // ---------------------------------------------------------------------
  // The four public operations
  // ---------------------------------------------------------------------

  /** parseHtml: null is rejected; a failure of Jsoup.parse is rethrown. */
  function ParseHtml(jsoup: Jsoup, html: Option<string>): (r: Result<Document, Error>)
    ensures html.None? ==> r == Failure(NullHtml)
    ensures html.Some? ==> (r.Failure? <==> jsoup.parse(html.value).None?)
    ensures html.Some? && r.Failure? ==> r.error == ParseFailed
    ensures r.Success? ==> jsoup.parse(html.value) == Some(r.value)
  {
    match html
    case None => Failure(NullHtml)
    case Some(h) =>
      match jsoup.parse(h)
      case None => Failure(ParseFailed)
      case Some(doc) => Success(doc)
  }

  /** Jsoup.parse followed by Document.select; None if either throws. */
  function JsoupSelect(jsoup: Jsoup, html: string, selector: string): Option<seq<Element>>
  {
    match jsoup.parse(html)
    case None => None
    case Some(doc) => jsoup.select(doc, selector)
  }

  /** selectElements: argument checks, then the selection or, on failure, []. */
  function SelectElements(jsoup: Jsoup, html: Option<string>, selector: Option<string>): (r: Result<seq<Element>, Error>)
    ensures html.None? ==> r == Failure(NullHtml)
    ensures html.Some? && (selector.None? || IsBlank(selector.value)) ==> r == Failure(BlankSelector)
    ensures html.Some? && selector.Some? && !IsBlank(selector.value) ==> r.Success?
    ensures r.Success? ==> r.value == match JsoupSelect(jsoup, html.value, selector.value)
                                     case Some(elements) => elements
                                     case None => []
  {
    if html.None? then Failure(NullHtml)
    else if selector.None? || IsBlank(selector.value) then Failure(BlankSelector)
    else
      match JsoupSelect(jsoup, html.value, selector.value)
      case Some(elements) => Success(elements)
      case None => Success([])
  }

  /** extractText: null is rejected; the document's text, or "" on failure. */
  function ExtractText(jsoup: Jsoup, html: Option<string>): (r: Result<string, Error>)
    ensures html.None? ==> r == Failure(NullHtml)
    ensures html.Some? ==> r.Success?
    ensures r.Success? ==> r.value == match jsoup.parse(html.value)
                                     case Some(doc) => doc.text
                                     case None => ""
  {
    match html
    case None => Failure(NullHtml)
    case Some(h) =>
      match jsoup.parse(h)
      case None => Success("")
      case Some(doc) => Success(doc.text)
  }

  /** extractLinks: null is rejected; the non-empty hrefs of `a[href]`, or [] on failure. */
  function ExtractLinks(jsoup: Jsoup, html: Option<string>): (r: Result<seq<string>, Error>)
    ensures html.None? ==> r == Failure(NullHtml)
    ensures html.Some? ==> r.Success?
    ensures r.Success? ==> forall s :: s in r.value ==> s != ""
    ensures r.Success? ==> r.value == match JsoupSelect(jsoup, html.value, "a[href]")
                                     case Some(anchors) => Links(anchors)
                                     case None => []
  {
    match html
    case None => Failure(NullHtml)
    case Some(h) =>
      match JsoupSelect(jsoup, h, "a[href]")
      case None => Success([])
      case Some(anchors) => Success(Links(anchors))
  }

  /**
   * Jsoup's `select` with a fixed `tag[attr]` selector never throws and
   * returns exactly the elements the `Select` filter keeps.
   */
  ghost predicate SelectsByTagAndAttribute(jsoup: Jsoup, selector: string, tag: string, attr: string)
  {
    forall d: Document :: jsoup.select(d, selector) == Some(Select(d.elements, tag, attr))
  }

  /** The text extracted from some HTML is the text of the document parseHtml gives. */
  lemma ExtractTextAgreesWithParse(jsoup: Jsoup, html: string)
    requires ParseHtml(jsoup, Some(html)).Success?
    ensures ExtractText(jsoup, Some(html)) == Success(ParseHtml(jsoup, Some(html)).value.text)
  {
  }

  /** extractLinks filters what selectElements returns for the selector `a[href]`. */
  lemma ExtractLinksFiltersSelection(jsoup: Jsoup, html: string, selector: string)
    requires selector == "a[href]"
    ensures SelectElements(jsoup, Some(html), Some(selector)).Success?
    ensures ExtractLinks(jsoup, Some(html)) == Success(Links(SelectElements(jsoup, Some(html), Some(selector)).value))
  {
    assert !IsTrimmed(selector[0]);
  }

  /** Every link comes from an anchor of the document with that non-empty href. */
  lemma LinksFromAnchors(jsoup: Jsoup, html: string, doc: Document, link: string)
    requires SelectsByTagAndAttribute(jsoup, "a[href]", "a", "href")
    requires jsoup.parse(html) == Some(doc)
    requires ExtractLinks(jsoup, Some(html)).Success? && link in ExtractLinks(jsoup, Some(html)).value
    ensures exists e :: e in doc.elements && e.tagName == "a" && Href(e) == link
  {
    var anchors := Select(doc.elements, "a", "href");
    assert jsoup.select(doc, "a[href]") == Some(anchors);
    LinksMembers(anchors, link);
    var i :| 0 <= i < |anchors| && Href(anchors[i]) == link && link != "";
    SelectMembers(doc.elements, "a", "href", anchors[i]);
  }
}
