/** What the relationship search promises: the meaning of each filter, which
    elements are kept, what each record holds, and how a failing file or a
    raising filter affects the result list. */
module SearchProperties {
  import opened Wrappers
  import opened Strings
  import opened Xml
  import opened RelationshipSearch

  // ---------------------------------------------------------------------
  // Keyword filter

  /** An element passes the keyword filter exactly when every keyword,
      lowered, occurs in its lowered serialization. */
  lemma {:induction false} KeywordsMatchIff(keywords: seq<string>, entityText: string)
    ensures KeywordsMatch(keywords, entityText)
            <==> forall k :: k in keywords ==> Contains(Lower(entityText), Lower(k))
  {
    if keywords != [] {
      KeywordsMatchIff(keywords[1..], entityText);
      assert forall k :: k in keywords <==> k == keywords[0] || k in keywords[1..];
    }
  }

  /** No keywords, or only empty keywords, let every element through. */
  lemma EmptyKeywordsMatch(keywords: seq<string>, entityText: string)
    requires forall k :: k in keywords ==> k == ""
    ensures KeywordsMatch(keywords, entityText)
  {
    KeywordsMatchIff(keywords, entityText);
    forall k | k in keywords
      ensures Contains(Lower(entityText), Lower(k))
    {
      assert Lower(k) == "";
      EmptyContained(Lower(entityText));
    }
  }

  /** The serialization of an element shows its own tag and text. */
  lemma SerializeShowsOwn(e: Element)
    ensures Contains(Serialize(e), e.tag)
    ensures Contains(Serialize(e), Written(e.text))
  {
    var open := "<" + e.tag;
    var attrs := SerializeAttributes(e.attributes);
    var body := if !HasText(e.text) && e.children == [] then " />"
                else ">" + Written(e.text) + SerializeAll(e.children) + "</" + e.tag + ">";
    assert Serialize(e) == open + attrs + body + Written(e.tail);
    assert open[1..1 + |e.tag|] == e.tag;
    OccursAtContains(open, e.tag, 1);
    ContainsAppend(open, attrs, e.tag);
    ContainsAppend(open + attrs, body, e.tag);
    ContainsAppend(open + attrs + body, Written(e.tail), e.tag);
    if HasText(e.text) {
      var w := Written(e.text);
      assert (">" + w)[1..1 + |w|] == w;
      OccursAtContains(">" + w, w, 1);
      ContainsAppend(">" + w, SerializeAll(e.children), w);
      ContainsAppend(">" + w + SerializeAll(e.children), "</", w);
      ContainsAppend(">" + w + SerializeAll(e.children) + "</", e.tag, w);
      ContainsAppend(">" + w + SerializeAll(e.children) + "</" + e.tag, ">", w);
      ContainsAppend(open + attrs, body, w);
      ContainsAppend(open + attrs + body, Written(e.tail), w);
    } else {
      EmptyContained(Serialize(e));
    }
  }

  /** The serialization of an element shows the serialization of its
      children. */
  lemma SerializeShowsChildren(e: Element)
    ensures Contains(Serialize(e), SerializeAll(e.children))
  {
    if e.children == [] {
      EmptyContained(Serialize(e));
    } else {
      var open := "<" + e.tag + SerializeAttributes(e.attributes);
      var w := Written(e.text);
      var all := SerializeAll(e.children);
      var body := ">" + w + all + "</" + e.tag + ">";
      assert Serialize(e) == open + body + Written(e.tail);
      assert (">" + w + all)[|">" + w|..|">" + w| + |all|] == all;
      OccursAtContains(">" + w + all, all, |">" + w|);
      ContainsAppend(">" + w + all, "</", all);
      ContainsAppend(">" + w + all + "</", e.tag, all);
      ContainsAppend(">" + w + all + "</" + e.tag, ">", all);
      ContainsAppend(open, body, all);
      ContainsAppend(open + body, Written(e.tail), all);
    }
  }

  /** The serialization of an element shows the tag and the text of the
      element itself and of every descendant. */
  lemma {:induction false} SerializeShows(e: Element, d: Element)
    requires d == e || d in Descendants(e)
    ensures Contains(Serialize(e), d.tag)
    ensures Contains(Serialize(e), Written(d.text))
    decreases e, 1
  {
    if d == e {
      SerializeShowsOwn(e);
    } else {
      SerializeAllShows(e.children, d);
      SerializeShowsChildren(e);
      ContainsTrans(Serialize(e), SerializeAll(e.children), d.tag);
      ContainsTrans(Serialize(e), SerializeAll(e.children), Written(d.text));
    }
  }

  /** The serialization of a run of siblings shows the tag and text of each
      sibling and of each of their descendants. */
  lemma {:induction false} SerializeAllShows(cs: seq<Element>, d: Element)
    requires d in cs || d in DescendantsOfAll(cs)
    ensures Contains(SerializeAll(cs), d.tag)
    ensures Contains(SerializeAll(cs), Written(d.text))
    decreases cs, 0
  {
    if d == cs[0] || d in Descendants(cs[0]) {
      SerializeShows(cs[0], d);
      ContainsAppend(Serialize(cs[0]), SerializeAll(cs[1..]), d.tag);
      ContainsAppend(Serialize(cs[0]), SerializeAll(cs[1..]), Written(d.text));
    } else {
      assert d in cs[1..] || d in DescendantsOfAll(cs[1..]);
      SerializeAllShows(cs[1..], d);
      ContainsAppend(Serialize(cs[0]), SerializeAll(cs[1..]), d.tag);
      ContainsAppend(Serialize(cs[0]), SerializeAll(cs[1..]), Written(d.text));
    }
  }

  /** A keyword found, in any case, in the tag or the text of the element or
      of any of its descendants passes the keyword filter. In particular
      `entityrelationship` passes every candidate. */
  lemma KeywordInSubtree(e: Element, d: Element, keyword: string)
    requires d == e || d in Descendants(e)
    requires Contains(Lower(d.tag), Lower(keyword)) || Contains(Lower(Written(d.text)), Lower(keyword))
    ensures KeywordsMatch([keyword], Serialize(e))
  {
    SerializeShows(e, d);
    if Contains(Lower(d.tag), Lower(keyword)) {
      ContainsLower(Serialize(e), d.tag);
      ContainsTrans(Lower(Serialize(e)), Lower(d.tag), Lower(keyword));
    } else {
      ContainsLower(Serialize(e), Written(d.text));
      ContainsTrans(Lower(Serialize(e)), Lower(Written(d.text)), Lower(keyword));
    }
    KeywordsMatchIff([keyword], Serialize(e));
  }

  // ---------------------------------------------------------------------
  // Prefix and suffix filters

  /** `any(startswith)` holds exactly when some entry is a prefix. */
  lemma {:induction false} AnyPrefixIff(startings: seq<string>, text: string)
    ensures AnyPrefix(startings, text) <==> exists p :: p in startings && StartsWith(text, p)
  {
    if startings != [] {
      AnyPrefixIff(startings[1..], text);
      assert forall p :: p in startings <==> p == startings[0] || p in startings[1..];
    }
  }

  /** `any(endswith)` holds exactly when some entry is a suffix. */
  lemma {:induction false} AnySuffixIff(endings: seq<string>, text: string)
    ensures AnySuffix(endings, text) <==> exists x :: x in endings && EndsWith(text, x)
  {
    if endings != [] {
      AnySuffixIff(endings[1..], text);
      assert forall x :: x in endings <==> x == endings[0] || x in endings[1..];
    }
  }

  /** The suffix filter on pre-lowered endings is a case-insensitive test
      against the caller's endings. */
  lemma NotEndingsIff(notEndings: seq<string>, text: string)
    ensures AnySuffix(LowerAll(notEndings), Lower(text))
            <==> exists x :: x in notEndings && EndsWith(Lower(text), Lower(x))
  {
    AnySuffixIff(LowerAll(notEndings), Lower(text));
    if AnySuffix(LowerAll(notEndings), Lower(text)) {
      var y :| y in LowerAll(notEndings) && EndsWith(Lower(text), y);
      var i :| 0 <= i < |notEndings| && LowerAll(notEndings)[i] == y;
      assert notEndings[i] in notEndings;
    }
    forall x | x in notEndings && EndsWith(Lower(text), Lower(x))
      ensures AnySuffix(LowerAll(notEndings), Lower(text))
    {
      var i :| 0 <= i < |notEndings| && notEndings[i] == x;
      assert LowerAll(notEndings)[i] in LowerAll(notEndings);
    }
  }

  /** The prefix filter admits `text`: no startings, or one of them is a
      case-sensitive prefix. */
  ghost predicate PassesStartings(q: Query, text: string) {
    q.startings == [] || exists p :: p in q.startings && StartsWith(text, p)
  }

  /** The suffix filter admits `text`: it ends with no entry of
      `notEndings`, both sides lowered. */
  ghost predicate PassesEndings(q: Query, text: string) {
    forall x :: x in q.notEndings ==> !EndsWith(Lower(text), Lower(x))
  }

  // ---------------------------------------------------------------------
  // One candidate

  /** A candidate yields a record exactly when it passes the keyword filter
      and either no prefix or suffix filter is given, or its search text
      exists and passes both; the record is the element's projection. */
  lemma StepEmitIff(e: Element, q: Query, path: string)
    ensures Step(e, q, path).Emit? <==>
              KeywordsMatch(q.keywords, Serialize(e)) &&
              ((q.startings == [] && q.notEndings == []) ||
               (SearchText(e).Some? && PassesStartings(q, SearchText(e).value)
                && PassesEndings(q, SearchText(e).value)))
    ensures Step(e, q, path).Emit? ==> Step(e, q, path).record == RecordOf(e, path, AllFields(q))
  {
    var text := SearchText(e);
    if text.Some? {
      AnyPrefixIff(q.startings, text.value);
      NotEndingsIff(q.notEndings, text.value);
    }
  }

  /** A candidate raises exactly when it passes the keyword filter, a prefix
      or suffix filter is given, and its `ReferencingAttributeName` child
      exists but has no text. */
  lemma StepRaiseIff(e: Element, q: Query, path: string)
    ensures Step(e, q, path).Raise? <==>
              KeywordsMatch(q.keywords, Serialize(e)) &&
              (q.startings != [] || q.notEndings != []) &&
              FindChild(e, SearchField).Some? && FindChild(e, SearchField).value.text.None?
  {
  }

  /** A candidate without a `ReferencingAttributeName` child is tested as
      `''`: it never raises, and it is kept exactly when it passes the keyword
      filter, `startings` is empty or holds `''`, and `notEndings` holds no
      `''`. */
  lemma MissingSearchField(e: Element, q: Query, path: string)
    requires forall c :: c in e.children ==> c.tag != SearchField
    ensures !Step(e, q, path).Raise?
    ensures Step(e, q, path).Emit? <==>
              KeywordsMatch(q.keywords, Serialize(e)) &&
              (q.startings == [] || "" in q.startings) && "" !in q.notEndings
  {
    assert SearchText(e) == Some("");
    AnyPrefixIff(q.startings, "");
    NotEndingsIff(q.notEndings, "");
    assert Lower("") == "";
    assert forall x :: EndsWith("", Lower(x)) <==> x == "";
    assert forall p :: StartsWith("", p) <==> p == "";
  }

  /** An empty entry in `notEndings` rejects every candidate. */
  lemma EmptyEndingRejects(e: Element, q: Query, path: string)
    requires "" in q.notEndings
    ensures !Step(e, q, path).Emit?
  {
    StepEmitIff(e, q, path);
    if SearchText(e).Some? {
      assert Lower("") == "";
      assert EndsWith(Lower(SearchText(e).value), Lower(""));
    }
  }

  // ---------------------------------------------------------------------
  // Projection

  /** A projected field is the text of the first direct child with that tag,
      and `None` when no direct child has it, whatever deeper descendants
      hold. */
  lemma FieldValueIsFirstChild(e: Element, field: string)
    ensures (forall c :: c in e.children ==> c.tag != field) ==> FieldValue(e, field) == None
    ensures forall i :: 0 <= i < |e.children| && e.children[i].tag == field
                        && (forall j :: 0 <= j < i ==> e.children[j].tag != field)
                        ==> FieldValue(e, field) == e.children[i].text
  {
    forall i | 0 <= i < |e.children| && e.children[i].tag == field
               && (forall j :: 0 <= j < i ==> e.children[j].tag != field)
      ensures FieldValue(e, field) == e.children[i].text
    {
      assert e.children[i] in e.children;
      var r := FindChild(e, field);
      var k :| 0 <= k < |e.children| && e.children[k] == r.value && r.value.tag == field
               && forall j :: 0 <= j < k ==> e.children[j].tag != field;
      assert !(k < i) && !(i < k);
    }
  }

  /** A record has the key `file` and one key per field, and nothing else;
      each field holds its projected value, and `file` holds the path unless
      a field named `file` overwrote it. */
  lemma RecordShape(e: Element, path: string, fields: set<string>)
    ensures RecordOf(e, path, fields).Keys == fields + {FileKey}
    ensures forall f :: f in fields ==> RecordOf(e, path, fields)[f] == FieldValue(e, f)
    ensures FileKey !in fields ==> RecordOf(e, path, fields)[FileKey] == Some(path)
  {
  }

  /** The projected fields are the caller's attributes, duplicates collapsed,
      plus `ReferencingAttributeName` and `ReferencedEntityName`. */
  lemma AllFieldsMembers(q: Query, f: string)
    ensures f in AllFields(q) <==>
              f in q.attributes || f == "ReferencingAttributeName" || f == "ReferencedEntityName"
  {
  }

  // ---------------------------------------------------------------------
  // One file

  /** The records a file would yield if no candidate raised: one per kept
      candidate, in document order. */
  ghost function Kept(candidates: seq<Element>, q: Query, path: string): seq<Record> {
    if candidates == [] then []
    else
      (if Step(candidates[0], q, path).Emit? then [Step(candidates[0], q, path).record] else [])
      + Kept(candidates[1..], q, path)
  }

  /** The candidates are the proper descendants of the root tagged
      `EntityRelationship`, in document order: the root itself never is one. */
  lemma CandidatesOfRoot(root: Element, e: Element)
    ensures e in FindAll(root, RelationshipTag) <==> e in Descendants(root) && e.tag == RelationshipTag
    ensures root !in FindAll(root, RelationshipTag)
    ensures e in root.children && e.tag == RelationshipTag ==> e in FindAll(root, RelationshipTag)
    ensures forall d, c :: d in Descendants(root) && c in d.children && c.tag == RelationshipTag
                           ==> c in FindAll(root, RelationshipTag)
  {
  }

  /** Fail-soft within a file: when candidate `k` is the first to raise (or
      none does, `k` being the number of candidates), the file yields exactly
      the records of the kept candidates before `k`; the ones after it are
      never examined. */
  lemma {:induction false} FileRecordsUpToRaise(candidates: seq<Element>, q: Query, path: string, k: nat)
    requires k <= |candidates|
    requires forall j :: 0 <= j < k ==> !Step(candidates[j], q, path).Raise?
    requires k < |candidates| ==> Step(candidates[k], q, path).Raise?
    ensures FileRecords(candidates, q, path) == Kept(candidates[..k], q, path)
  {
    if k == 0 {
      assert candidates[..0] == [];
    } else {
      var rest := candidates[1..];
      assert candidates[..k][1..] == rest[..k - 1];
      assert !Step(candidates[0], q, path).Raise?;
      forall j | 0 <= j < k - 1
        ensures !Step(rest[j], q, path).Raise?
      {
        assert rest[j] == candidates[j + 1];
      }
      FileRecordsUpToRaise(rest, q, path, k - 1);
    }
  }

  /** `f` is a walked `.xml` file that parses, `e` one of its candidates, and
      `r` the record `e` yields. */
  ghost predicate Yields(f: FileEntry, q: Query, e: Element, r: Record) {
    IsXmlName(f.name) && f.document.Parsed?
    && e in FindAll(f.document.root, RelationshipTag)
    && Step(e, q, f.relPath) == Emit(r)
  }

  /** Every record of a file comes from one of the file's candidates. */
  lemma {:induction false} FileRecordsFrom(candidates: seq<Element>, q: Query, path: string, r: Record)
    requires r in FileRecords(candidates, q, path)
    ensures exists e :: e in candidates && Step(e, q, path) == Emit(r)
  {
    assert candidates != [];
    if r in FileRecords(candidates[1..], q, path) {
      FileRecordsFrom(candidates[1..], q, path, r);
      var e :| e in candidates[1..] && Step(e, q, path) == Emit(r);
      assert e in candidates;
    } else {
      assert Step(candidates[0], q, path) == Emit(r);
    }
  }

  // ---------------------------------------------------------------------
  // The whole search

  /** Every record comes from a candidate of a walked `.xml` file that
      parses, and that candidate passed every filter. */
  lemma {:induction false} SearchSound(files: seq<FileEntry>, q: Query, r: Record)
    requires r in Search(files, q)
    ensures exists i, e :: 0 <= i < |files| && Yields(files[i], q, e, r)
  {
    assert files != [];
    if r in FileResults(files[0], q) {
      var f := files[0];
      FileRecordsFrom(FindAll(f.document.root, RelationshipTag), q, f.relPath, r);
      var e :| e in FindAll(f.document.root, RelationshipTag) && Step(e, q, f.relPath) == Emit(r);
      assert Yields(files[0], q, e, r);
    } else {
      SearchSound(files[1..], q, r);
      var i, e :| 0 <= i < |files[1..]| && Yields(files[1..][i], q, e, r);
      assert Yields(files[i + 1], q, e, r);
    }
  }

  /** What a kept element satisfies: it is an `EntityRelationship` strictly
      below the root of a walked `.xml` file that parses, it passes the
      keyword filter, its search text passes the prefix and suffix filters
      whenever either is given, and its record is its projection over the
      caller's attributes and the two default fields. */
  ghost predicate Retained(f: FileEntry, q: Query, e: Element, r: Record) {
    IsXmlName(f.name) && f.document.Parsed?
    && e in Descendants(f.document.root) && e.tag == RelationshipTag
    && KeywordsMatch(q.keywords, Serialize(e))
    && ((q.startings == [] && q.notEndings == []) ||
        (SearchText(e).Some? && PassesStartings(q, SearchText(e).value)
         && PassesEndings(q, SearchText(e).value)))
    && r == RecordOf(e, f.relPath, AllFields(q))
  }

  /** A candidate that yields a record satisfies every filter. */
  lemma YieldsRetained(f: FileEntry, q: Query, e: Element, r: Record)
    requires Yields(f, q, e, r)
    ensures Retained(f, q, e, r)
  {
    StepEmitIff(e, q, f.relPath);
    CandidatesOfRoot(f.document.root, e);
  }

  /** Every record in the result list comes from a retained element. */
  lemma SearchRetained(files: seq<FileEntry>, q: Query, r: Record)
    requires r in Search(files, q)
    ensures exists i, e :: 0 <= i < |files| && Retained(files[i], q, e, r)
  {
    SearchSound(files, q, r);
    var i, e :| 0 <= i < |files| && Yields(files[i], q, e, r);
    YieldsRetained(files[i], q, e, r);
  }

  /** Every record has exactly the keys `file`, `ReferencingAttributeName`,
      `ReferencedEntityName` and the caller's attributes; unless an attribute
      is named `file`, `file` holds the relative path of an `.xml` file of the
      walk. */
  lemma SearchRecordKeys(files: seq<FileEntry>, q: Query, r: Record)
    requires r in Search(files, q)
    ensures r.Keys == AllFields(q) + {FileKey}
    ensures FileKey !in q.attributes ==>
              exists i :: 0 <= i < |files| && IsXmlName(files[i].name) && r[FileKey] == Some(files[i].relPath)
  {
    SearchRetained(files, q, r);
    var i, e :| 0 <= i < |files| && Retained(files[i], q, e, r);
    RecordShape(e, files[i].relPath, AllFields(q));
  }

  lemma SkippedFileAlone(f: FileEntry, q: Query)
    requires !IsXmlName(f.name) || f.document.Malformed?
    ensures Search([f], q) == []
  {
    assert [f][1..] == [];
  }

  /** A file that is not named `.xml`, or that does not parse, changes
      nothing: the records of the files around it are as if it were absent. */
  lemma SkippedFile(before: seq<FileEntry>, f: FileEntry, after: seq<FileEntry>, q: Query)
    requires !IsXmlName(f.name) || f.document.Malformed?
    ensures Search(before + [f] + after, q) == Search(before + after, q)
  {
    SkippedFileAlone(f, q);
    SearchAppend(before + [f], after, q);
    SearchAppend(before, [f], q);
    SearchAppend(before, after, q);
  }

  /** A walk with no `.xml` file yields no records. */
  lemma {:induction false} NoXmlNoResults(files: seq<FileEntry>, q: Query)
    requires forall i :: 0 <= i < |files| ==> !IsXmlName(files[i].name)
    ensures Search(files, q) == []
  {
    if files != [] {
      assert forall i :: 0 <= i < |files[1..]| ==> files[1..][i] == files[i + 1];
      NoXmlNoResults(files[1..], q);
    }
  }

  // ---------------------------------------------------------------------
  // Worked examples

  /** A leaf child `<tag>text</tag>`. */
  function Leaf(tag: string, text: Option<string>): Element {
    Element(tag, [], text, [], None)
  }

  /** A relationship whose `ReferencingAttributeName` holds `name`. */
  function Relationship(name: Option<string>): Element {
    Element(RelationshipTag, [], None,
            [Leaf(SearchField, name), Leaf("ReferencedEntityName", Some("contact"))], None)
  }

  /** A document root holding one relationship per name, in order. */
  function Relationships(names: seq<Option<string>>): seq<Element> {
    if names == [] then [] else [Relationship(names[0])] + Relationships(names[1..])
  }

  lemma {:induction false} WithTagAppend(a: seq<Element>, b: seq<Element>, tag: string)
    ensures WithTag(a + b, tag) == WithTag(a, tag) + WithTag(b, tag)
  {
    if a == [] {
      assert a + b == b;
    } else {
      assert (a + b)[1..] == a[1..] + b;
      WithTagAppend(a[1..], b, tag);
    }
  }

  /** The search text of a relationship is its `ReferencingAttributeName`. */
  lemma RelationshipSearchText(name: Option<string>)
    ensures SearchText(Relationship(name)) == name
  {
    assert FindChild(Relationship(name), SearchField) == Some(Leaf(SearchField, name));
  }

  /** The candidates below such a root are the relationships, in order. */
  lemma {:induction false} RelationshipCandidates(names: seq<Option<string>>)
    ensures WithTag(DescendantsOfAll(Relationships(names)), RelationshipTag) == Relationships(names)
  {
    if names != [] {
      var rs := Relationships(names);
      var r := Relationship(names[0]);
      var leaves := [Leaf(SearchField, names[0]), Leaf("ReferencedEntityName", Some("contact"))];
      assert rs[1..] == Relationships(names[1..]);
      assert leaves[1..] == [leaves[1]] && [leaves[1]][1..] == [];
      assert Descendants(leaves[0]) == [] && Descendants(leaves[1]) == [];
      assert DescendantsOfAll([leaves[1]]) == [leaves[1]];
      assert Descendants(r) == leaves;
      assert WithTag(leaves, RelationshipTag) == [];
      assert WithTag([r], RelationshipTag) == [r];
      WithTagAppend([r], Descendants(r), RelationshipTag);
      WithTagAppend([r] + Descendants(r), DescendantsOfAll(rs[1..]), RelationshipTag);
      RelationshipCandidates(names[1..]);
    }
  }

  lemma LowerExamples()
    ensures Lower("Id") == "id" && Lower("id") == "id"
    ensures Lower("mmpl_ContactId")[12..] == "id"
    ensures Lower("mmpl_EmployerId")[13..] == "id"
    ensures Lower("mmpl_Contact")[10..] != "id"
    ensures Lower("customizations.xml")[14..] == ".xml"
  {
    assert Lower("Id")[0] == 'i';
    assert Lower("mmpl_ContactId")[12] == 'i' && Lower("mmpl_ContactId")[13] == 'd';
    assert Lower("mmpl_EmployerId")[13] == 'i' && Lower("mmpl_EmployerId")[14] == 'd';
    assert Lower("mmpl_Contact")[10] == 'c';
    var x := Lower("customizations.xml");
    assert x[14] == '.' && x[15] == 'x' && x[16] == 'm' && x[17] == 'l';
  }

  /** The prefix and suffix filters on the names used below. */
  lemma ExampleFilters()
    ensures AnyPrefix(["mmpl_"], "mmpl_Contact") && !AnyPrefix(["mmpl_"], "Other_x")
    ensures AnySuffix(LowerAll(["Id"]), Lower("mmpl_ContactId"))
    ensures AnySuffix(LowerAll(["id"]), Lower("mmpl_ContactId"))
    ensures AnySuffix(LowerAll(["Id"]), Lower("mmpl_EmployerId"))
    ensures !AnySuffix(LowerAll(["Id"]), Lower("mmpl_Contact"))
  {
    assert "mmpl_" <= "mmpl_Contact";
    assert "Other_x"[0] != "mmpl_"[0];
    LowerExamples();
    assert LowerAll(["Id"]) == ["id"] && LowerAll(["id"]) == ["id"];
  }

  /** The example query: `startings = ["mmpl_"]`, `not_endings = ["Id"]`. */
  function ExampleQuery(): Query {
    Query([], [], ["Id"], ["mmpl_"])
  }

  /** The example's relationships, named `mmpl_Contact`, `mmpl_ContactId` and
      `mmpl_EmployerId`. */
  function ExampleNames(): seq<Option<string>> {
    [Some("mmpl_Contact"), Some("mmpl_ContactId"), Some("mmpl_EmployerId")]
  }

  function ExampleFile(): FileEntry {
    FileEntry("customizations.xml", "customizations.xml",
              Parsed(Element("ImportExportXml", [], None, Relationships(ExampleNames()), None)))
  }

  lemma ExampleCandidates()
    ensures FindAll(ExampleFile().document.root, RelationshipTag)
            == [Relationship(Some("mmpl_Contact")), Relationship(Some("mmpl_ContactId")),
                Relationship(Some("mmpl_EmployerId"))]
  {
    var names := ExampleNames();
    assert names[1..] == [names[1], names[2]] && names[1..][1..] == [names[2]] && names[1..][1..][1..] == [];
    RelationshipCandidates(names);
  }

  lemma ExampleSteps()
    ensures Step(Relationship(Some("mmpl_Contact")), ExampleQuery(), "customizations.xml")
            == Emit(RecordOf(Relationship(Some("mmpl_Contact")), "customizations.xml", AllFields(ExampleQuery())))
    ensures Step(Relationship(Some("mmpl_ContactId")), ExampleQuery(), "customizations.xml") == Skip
    ensures Step(Relationship(Some("mmpl_EmployerId")), ExampleQuery(), "customizations.xml") == Skip
  {
    ExampleFilters();
    RelationshipSearchText(Some("mmpl_Contact"));
    RelationshipSearchText(Some("mmpl_ContactId"));
    RelationshipSearchText(Some("mmpl_EmployerId"));
  }

  lemma ExampleFileRecords()
    ensures FileRecords([Relationship(Some("mmpl_Contact")), Relationship(Some("mmpl_ContactId")),
                         Relationship(Some("mmpl_EmployerId"))], ExampleQuery(), "customizations.xml")
            == [RecordOf(Relationship(Some("mmpl_Contact")), "customizations.xml", AllFields(ExampleQuery()))]
  {
    var r1, r2, r3 := Relationship(Some("mmpl_Contact")), Relationship(Some("mmpl_ContactId")),
                      Relationship(Some("mmpl_EmployerId"));
    ExampleSteps();
    assert [r1, r2, r3][1..] == [r2, r3] && [r2, r3][1..] == [r3] && [r3][1..] == [];
  }

  /** A walk of one parsed `.xml` file yields that file's records. */
  lemma SingleFileSearch(f: FileEntry, q: Query)
    requires IsXmlName(f.name) && f.document.Parsed?
    ensures Search([f], q) == FileRecords(FindAll(f.document.root, RelationshipTag), q, f.relPath)
  {
    assert [f][1..] == [];
  }

  lemma ExampleIsXml()
    ensures IsXmlName("customizations.xml")
    ensures IsXmlName("Customizations.XML")
    ensures !IsXmlName("customizations.xsd")
  {
    LowerExamples();
    assert Lower("Customizations.XML")[14..] == ".xml";
    assert Lower("customizations.xsd")[17] == 'd' != ".xml"[3];
  }

  /** A relationship grouped one level deeper, as in
      `ImportExportXml > EntityRelationships > EntityRelationship`, is a
      candidate as well. */
  lemma ExampleNestedCandidate()
    ensures var rel := Relationship(Some("mmpl_Contact"));
            var group := Element("EntityRelationships", [], None, [rel], None);
            rel in FindAll(Element("ImportExportXml", [], None, [group], None), RelationshipTag)
  {
    var rel := Relationship(Some("mmpl_Contact"));
    var group := Element("EntityRelationships", [], None, [rel], None);
    var root := Element("ImportExportXml", [], None, [group], None);
    assert group in root.children && rel in group.children;
    CandidatesOfRoot(root, rel);
  }

  lemma ExampleSearch()
    ensures Search([ExampleFile()], ExampleQuery())
            == [RecordOf(Relationship(Some("mmpl_Contact")), "customizations.xml", AllFields(ExampleQuery()))]
  {
    var f := ExampleFile();
    ExampleCandidates();
    ExampleFileRecords();
    ExampleIsXml();
    SingleFileSearch(f, ExampleQuery());
  }

  lemma ExampleRecord()
    ensures var rec := RecordOf(Relationship(Some("mmpl_Contact")), "customizations.xml", AllFields(ExampleQuery()));
            SearchField in rec && rec[SearchField] == Some("mmpl_Contact")
            && FileKey in rec && rec[FileKey] == Some("customizations.xml")
  {
    var r1, q := Relationship(Some("mmpl_Contact")), ExampleQuery();
    AllFieldsMembers(q, SearchField);
    AllFieldsMembers(q, FileKey);
    RecordShape(r1, "customizations.xml", AllFields(q));
    RelationshipSearchText(Some("mmpl_Contact"));
  }

  /** One `customizations.xml` holding three relationships named
      `mmpl_Contact`, `mmpl_ContactId` and `mmpl_EmployerId`, searched with
      `startings = ["mmpl_"]` and `not_endings = ["Id"]`, yields exactly one
      record, whose `ReferencingAttributeName` is `mmpl_Contact`. */
  lemma ExampleEndToEnd(results: seq<Record>)
    requires results == Search([ExampleFile()], ExampleQuery())
    ensures |results| == 1
    ensures SearchField in results[0] && results[0][SearchField] == Some("mmpl_Contact")
    ensures FileKey in results[0] && results[0][FileKey] == Some("customizations.xml")
  {
    ExampleSearch();
    ExampleRecord();
  }

  /** A `ReferencingAttributeName` child without text, under a prefix
      filter, raises: of three relationships `mmpl_A`, (no text), `mmpl_B`
      the file keeps the record of `mmpl_A` and loses `mmpl_B`, which would
      have passed. */
  lemma ExampleAbandoned(path: string)
    ensures var q := Query([], [], [], ["mmpl_"]);
            var rs := [Relationship(Some("mmpl_A")), Relationship(None), Relationship(Some("mmpl_B"))];
            FileRecords(rs, q, path) == [RecordOf(rs[0], path, AllFields(q))]
            && Step(rs[2], q, path).Emit?
  {
    var q := Query([], [], [], ["mmpl_"]);
    var r1, r2, r3 := Relationship(Some("mmpl_A")), Relationship(None), Relationship(Some("mmpl_B"));
    RelationshipSearchText(Some("mmpl_A"));
    RelationshipSearchText(None);
    RelationshipSearchText(Some("mmpl_B"));
    assert "mmpl_" <= "mmpl_A" && "mmpl_" <= "mmpl_B";
    assert Step(r1, q, path) == Emit(RecordOf(r1, path, AllFields(q)));
    assert Step(r2, q, path) == Raise;
    assert [r1, r2, r3][1..] == [r2, r3];
  }
}
