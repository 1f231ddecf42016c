/** The relationship search behind `POST /search`: over every `.xml` file the
    directory walk yields, take the `EntityRelationship` descendants of the
    document root, keep those that pass the keyword, prefix and suffix
    filters, and project each kept element into a result record. */
module RelationshipSearch {
  import opened Wrappers
  import opened Strings
  import opened Xml

  /** The tag of the elements the search examines. */
  const RelationshipTag: string := "EntityRelationship"

  /** The child whose text the prefix and suffix filters test. */
  const SearchField: string := "ReferencingAttributeName"

  /** The fields every record carries besides the caller's attributes. */
  const DefaultFields: set<string> := {"ReferencingAttributeName", "ReferencedEntityName"}

  /** The record key that holds the document's path. */
  const FileKey: string := "file"

  /** The parts of the request body the engine uses. `notEndings` is compared
      case-insensitively, `startings` case-sensitively. */
  datatype Query = Query(
    keywords: seq<string>,
    attributes: seq<string>,
    notEndings: seq<string>,
    startings: seq<string>)

  /** One file the directory walk yields under the searched folder: its base
      name, its path relative to the extraction directory, and what parsing it
      gives. */
  datatype FileEntry = FileEntry(name: string, relPath: string, document: Document)

  /** A result record: a dictionary from field name to text or `None`. */
  type Record = map<string, Option<string>>

  /** What happens to one candidate element: it is skipped by a filter, it
      yields a record, or evaluating a filter raises (a `None` text has no
      `startswith`/`lower`), which abandons the rest of the file. */
  datatype Outcome = Skip | Emit(record: Record) | Raise

  /** Only names that end in `.xml`, in any case, are parsed. */
  predicate IsXmlName(name: string) {
    EndsWith(Lower(name), ".xml")
  }

  /** `all(kw.lower() in entity_text.lower() for kw in keywords)` */
  predicate KeywordsMatch(keywords: seq<string>, entityText: string) {
    keywords == [] ||
    (Contains(Lower(entityText), Lower(keywords[0])) && KeywordsMatch(keywords[1..], entityText))
  }

  /** `any(text.startswith(prefix) for prefix in startings)` */
  predicate AnyPrefix(startings: seq<string>, text: string) {
    startings != [] && (StartsWith(text, startings[0]) || AnyPrefix(startings[1..], text))
  }

  /** `any(text.endswith(ending) for ending in endings)` */
  predicate AnySuffix(endings: seq<string>, text: string) {
    endings != [] && (EndsWith(text, endings[0]) || AnySuffix(endings[1..], text))
  }

  /** `[s.lower() for s in ss]` */
  function LowerAll(ss: seq<string>): (r: seq<string>)
    ensures |r| == |ss|
    ensures forall i :: 0 <= i < |ss| ==> r[i] == Lower(ss[i])
  {
    if ss == [] then [] else [Lower(ss[0])] + LowerAll(ss[1..])
  }

  /** The text the filters test: the `ReferencingAttributeName` child's text
      (`None` when that child has no text), or `''` when there is no such
      child. */
  function SearchText(e: Element): Option<string> {
    match FindChild(e, SearchField)
    case None => Some("")
    case Some(child) => child.text
  }

  /** `set(attributes) | set(default_fields)` */
  function AllFields(q: Query): set<string> {
    (set a | a in q.attributes) + DefaultFields
  }

  /** A projected value: the first direct child's text, or `None` when no
      direct child has that tag. */
  function FieldValue(e: Element, field: string): Option<string> {
    match FindChild(e, field)
    case None => None
    case Some(child) => child.text
  }

  /** The record for a kept element: `file` first, then every field, so that
      a field named `file` overwrites the path. */
  function RecordOf(e: Element, path: string, fields: set<string>): Record {
    map k | k in fields + {FileKey} :: if k in fields then FieldValue(e, k) else Some(path)
  }

  /** The filters applied to one candidate, in the order the loop body
      evaluates them. */
  function Step(e: Element, q: Query, path: string): Outcome {
    if !KeywordsMatch(q.keywords, Serialize(e)) then Skip
    else
      var text := SearchText(e);
      if q.startings != [] && text.None? then Raise
      else if q.startings != [] && !AnyPrefix(q.startings, text.value) then Skip
      else if q.notEndings != [] && text.None? then Raise
      else if q.notEndings != [] && AnySuffix(LowerAll(q.notEndings), Lower(text.value)) then Skip
      else Emit(RecordOf(e, path, AllFields(q)))
  }

  /** The records one file's candidates yield, in order; a `Raise` ends the
      file, keeping what was yielded before it. */
  function FileRecords(candidates: seq<Element>, q: Query, path: string): seq<Record> {
    if candidates == [] then []
    else
      match Step(candidates[0], q, path)
      case Raise => []
      case Skip => FileRecords(candidates[1..], q, path)
      case Emit(r) => [r] + FileRecords(candidates[1..], q, path)
  }

  /** The records one walked file contributes: none unless it is an `.xml`
      file that parses. */
  function FileResults(f: FileEntry, q: Query): seq<Record> {
    if !IsXmlName(f.name) then []
    else
      match f.document
      case Malformed => []
      case Parsed(root) => FileRecords(FindAll(root, RelationshipTag), q, f.relPath)
  }

  /** The whole result list: each file's records, in walk order. */
  function Search(files: seq<FileEntry>, q: Query): seq<Record> {
    if files == [] then [] else FileResults(files[0], q) + Search(files[1..], q)
  }

  /** Searching two runs of the walk one after the other gives the first
      run's records followed by the second's. */
  lemma {:induction false} SearchAppend(a: seq<FileEntry>, b: seq<FileEntry>, q: Query)
    ensures Search(a + b, q) == Search(a, q) + Search(b, q)
  {
    if a == [] {
      assert a + b == b;
    } else {
      assert (a + b)[1..] == a[1..] + b;
      SearchAppend(a[1..], b, q);
    }
  }

  /** `Search` over one more file of the walk. */
  lemma SearchPrefix(files: seq<FileEntry>, i: nat, q: Query)
    requires i < |files|
    ensures Search(files[..i + 1], q) == Search(files[..i], q) + FileResults(files[i], q)
    ensures !IsXmlName(files[i].name) || files[i].document.Malformed? ==> FileResults(files[i], q) == []
  {
    assert files[..i + 1] == files[..i] + [files[i]];
    assert [files[i]][1..] == [];
    SearchAppend(files[..i], [files[i]], q);
  }

  /** Builds one record field by field, `file` first. The fields are visited
      in an arbitrary order, as iterating a Python set does. */
  method Project(e: Element, path: string, fields: set<string>) returns (record: Record)
    ensures record.Keys == fields + {FileKey}
    ensures forall f :: f in fields ==> record[f] == FieldValue(e, f)
    ensures FileKey !in fields ==> record[FileKey] == Some(path)
    ensures record == RecordOf(e, path, fields)
  {
    record := map[FileKey := Some(path)];
    var todo := fields;
    while todo != {}
      invariant todo <= fields
      invariant record.Keys == (fields - todo) + {FileKey}
      invariant forall k :: k in fields - todo ==> record[k] == FieldValue(e, k)
      invariant FileKey !in fields - todo ==> record[FileKey] == Some(path)
      decreases todo
    {
      var field :| field in todo;
      var elem := FindChild(e, field);
      record := record[field := if elem.Some? then elem.value.text else None];
      todo := todo - {field};
    }
  }

  lemma AppendAssociates<T>(a: seq<T>, b: seq<T>, c: seq<T>)
    ensures a + (b + c) == (a + b) + c
  {
  }

  /** `FileRecords` over a suffix of the candidates, unrolled once. */
  lemma FileRecordsAt(candidates: seq<Element>, j: nat, q: Query, path: string)
    requires j < |candidates|
    ensures FileRecords(candidates[j..], q, path) ==
              match Step(candidates[j], q, path)
              case Raise => []
              case Skip => FileRecords(candidates[j + 1..], q, path)
              case Emit(r) => [r] + FileRecords(candidates[j + 1..], q, path)
  {
    assert candidates[j..][1..] == candidates[j + 1..];
  }

  /** The loop body for one candidate: the keyword filter, the search text,
      the prefix and suffix filters, then the projection. A `return` of `Skip`
      is the source's `continue`; `Raise` is a filter calling a string method
      on a `None` text. */
  method Examine(entity: Element, q: Query, path: string, notEndings: seq<string>, fields: set<string>)
    returns (outcome: Outcome)
    requires notEndings == LowerAll(q.notEndings)
    requires fields == AllFields(q)
    ensures outcome == Step(entity, q, path)
  {
    var entityText := Serialize(entity);
    if !KeywordsMatch(q.keywords, entityText) {
      return Skip;
    }
    var child := FindChild(entity, SearchField);
    var referencing := if child.Some? then child.value.text else Some("");
    if q.startings != [] {
      if referencing.None? {
        return Raise;
      }
      if !AnyPrefix(q.startings, referencing.value) {
        return Skip;
      }
    }
    if notEndings != [] {
      if referencing.None? {
        return Raise;
      }
      if AnySuffix(notEndings, Lower(referencing.value)) {
        return Skip;
      }
    }
    var record := Project(entity, path, fields);
    return Emit(record);
  }

  /** The body of the `try` for one parsed file: append a record for every
      candidate that passes the filters, in document order. A filter that
      raises leaves the loop, keeping what was appended before it.
      `notEndings` and `fields` are the lowered endings and the field set the
      caller prepared once for the whole search. */
  method ScanFile(results: seq<Record>, relationships: seq<Element>, q: Query, path: string,
                  notEndings: seq<string>, fields: set<string>)
    returns (updated: seq<Record>)
    requires notEndings == LowerAll(q.notEndings)
    requires fields == AllFields(q)
    ensures updated == results + FileRecords(relationships, q, path)
  {
    updated := results;
    var j := 0;
    while j < |relationships|
      invariant 0 <= j <= |relationships|
      invariant updated + FileRecords(relationships[j..], q, path)
                == results + FileRecords(relationships, q, path)
    {
      FileRecordsAt(relationships, j, q, path);
      var outcome := Examine(relationships[j], q, path, notEndings, fields);
      match outcome {
        case Raise =>
          break;
        case Skip =>
        case Emit(record) =>
          AppendAssociates(updated, [record], FileRecords(relationships[j + 1..], q, path));
          updated := updated + [record];
      }
      j := j + 1;
    }
  }

  /** The search loop: walk the files and run the filters over the
      `EntityRelationship` elements of every `.xml` file that parses; a file
      that does not parse contributes nothing. */
  method Scan(files: seq<FileEntry>, q: Query) returns (results: seq<Record>)
    ensures results == Search(files, q)
  {
    var notEndings := LowerAll(q.notEndings);
    var allFields := AllFields(q);
    results := [];
    var i := 0;
    while i < |files|
      invariant 0 <= i <= |files|
      invariant results == Search(files[..i], q)
    {
      var file := files[i];
      SearchPrefix(files, i, q);
      if IsXmlName(file.name) {
        match file.document
        case Malformed =>
        case Parsed(root) =>
          var relationships := FindAll(root, RelationshipTag);
          results := ScanFile(results, relationships, q, file.relPath, notEndings, allFields);
      }
      i := i + 1;
    }
    assert files[..i] == files;
  }
}
