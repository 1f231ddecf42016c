# Relationship search over extracted XML documents

This project models, in Dafny, the search engine behind `POST /search` of a
small Flask service (`app.py`). The service unpacks an uploaded archive of
XML documents. A search then walks a folder of the extracted tree and does
the following:

- It parses every file whose lower-cased name ends in `.xml`.
- It takes the `EntityRelationship` elements below each document root.
- It keeps the elements that pass three filters:
  - every keyword occurs, case-insensitively, in the element's serialized text;
  - when `startings` is non-empty, the text of the `ReferencingAttributeName`
    child starts with one of its entries, compared case-sensitively;
  - when `not_endings` is non-empty, that text ends with none of its entries,
    compared case-insensitively.
  The keyword test comes first; the other two are evaluated only for an
  element that passes it.
- It turns each kept element into a record. The record holds `file` (the
  document path relative to the extraction directory) and one value per
  field of `set(attributes) | {ReferencingAttributeName, ReferencedEntityName}`.
  Each value is the text of the first direct child with that tag, or `None`.

A file that fails to parse contributes nothing. The filter and projection
code sits inside one `try` per file. An exception there abandons the rest of
that file, and the records already appended from it stay. A
`ReferencingAttributeName` child that exists but has no text causes such an
exception when a prefix or suffix filter is given and the element has passed
the keyword filter, because `None` has no `startswith` or `lower`. An element
that fails the keyword filter is skipped without that child being read.

Modules:

- `Wrappers` (`wrappers.dfy`): `Option`, standing for Python's `None`-or-value.
- `Strings` (`strings.dfy`): the `str` operations the filters use. These are
  `lower()` over ASCII, `startswith`, `endswith` and the `in` substring test,
  with lemmas relating the left-to-right substring scan to the positional
  definition.
- `Xml` (`xml.dfy`): the parsed tree (`Element`: tag, attributes, text,
  children, tail) and the three ElementTree queries the search makes. These
  are serialization (`ET.tostring`), `findall('.//EntityRelationship')` as a
  pre-order walk of the proper descendants, and `find(tag)` as the first
  direct child with that tag. A `Document` is either a parsed tree or
  `Malformed`.
- `RelationshipSearch` (`search.dfy`): the query, the three filters as
  predicates, and the projection. `Step` says what one candidate does, and
  `FileRecords`/`FileResults`/`Search` say what a file and a whole walk yield.
  Four methods mirror the loops of the source and are each proved equal to
  those functions:
  - `Project` fills a record field by field;
  - `Examine` is the loop body for one element;
  - `ScanFile` is the element loop inside the `try`;
  - `Scan` is the walk over files.
- `SearchProperties` (`properties.dfy`): what the search promises, as lemmas.

Behaviour of the code worth noting, all of which the model keeps:

- The field the prefix and suffix filters test is always
  `ReferencingAttributeName`.
- The projected fields are exactly `set(attributes)` plus the two default
  fields `ReferencingAttributeName` and `ReferencedEntityName`.
- Every field is looked up among the direct children only (`find(tag)`), and
  a field without such a child is `None`.
- A relationship without a `ReferencingAttributeName` child is filtered as if
  its text were `''`.
- Once the element passes the keyword filter, a `ReferencingAttributeName`
  child without text raises as described above when a prefix or suffix filter
  is given. With neither filter given, such an element is kept once it passes
  the keyword filter, with `None` as that field's value.

## Model

| member | source | states |
|---|---|---|
| `Strings.LowerChar` | app.py:65 | ASCII case folding: the result is never an upper-case letter, an upper-case letter maps to its lower-case letter, and anything else is unchanged |
| `Strings.Lower` | app.py:65 | `str.lower()` character by character; meaning: `LowerChar`'s ensures pointwise, `ContainsLower` |
| `Strings.StartsWith` | app.py:69 | `str.startswith`, case-sensitive; meaning: `AnyPrefixIff` |
| `Strings.EndsWith` | app.py:72 | `str.endswith`; meaning: `AnySuffixIff`, `NotEndingsIff` |
| `Strings.Contains` | app.py:65 | the `in` substring test; meaning: `ContainsIff` |
| `Strings.ContainsIff` | app.py:65 | the `in` test as a left-to-right scan holds exactly when the substring occurs at some position |
| `Strings.ContainsLower` | app.py:65 | an occurrence survives lowering both strings |
| `Strings.ContainsTrans` | app.py:64-65 | a substring of a substring is a substring |
| `Xml.Serialize` | app.py:64 | the serialized element starts with `<` and its tag |
| `Xml.Descendants` | app.py:63 | every element the descendant walk yields is strictly inside the root, so the root never is one; every direct child is yielded, and every child of a yielded element is yielded, so elements at any depth are |
| `Xml.WithTag` | app.py:63 | the filtered walk keeps exactly the elements with the tag, and no more than the walk has |
| `Xml.FirstWithTag` | app.py:76-77 | `find`: `None` exactly when no direct child has the tag; otherwise a child with the tag that no earlier child has |
| `Xml.FindAll` | app.py:63 | `findall('.//EntityRelationship')`; meaning: `CandidatesOfRoot`, `ExampleNestedCandidate` |
| `Xml.FindChild` | app.py:66-67 | `find(tag)` on the direct children; meaning: `FirstWithTag`'s ensures, `FieldValueIsFirstChild` |
| `RelationshipSearch.IsXmlName` | app.py:57 | the case-insensitive `.xml` name test; meaning: `ExampleIsXml`, `SkippedFile`, `NoXmlNoResults` |
| `RelationshipSearch.KeywordsMatch` | app.py:65 | `all(kw.lower() in entity_text.lower() ...)`; meaning: `KeywordsMatchIff`, `EmptyKeywordsMatch`, `KeywordInSubtree` |
| `RelationshipSearch.AnyPrefix` | app.py:69 | `any(... startswith ...)`; meaning: `AnyPrefixIff` |
| `RelationshipSearch.AnySuffix` | app.py:72 | `any(... endswith ...)`; meaning: `AnySuffixIff`, `NotEndingsIff` |
| `RelationshipSearch.SearchText` | app.py:66-67 | the tested text: the child's text, `None` for a text-less child, `''` without a child; meaning: `StepRaiseIff`, `MissingSearchField` |
| `RelationshipSearch.AllFields` | app.py:49-50 | the projected field set; meaning: `AllFieldsMembers` |
| `RelationshipSearch.FieldValue` | app.py:76-77 | one projected value; meaning: `FieldValueIsFirstChild` |
| `RelationshipSearch.RecordOf` | app.py:74-77 | the record of a kept element; meaning: `RecordShape`, `Project` |
| `RelationshipSearch.Step` | app.py:64-78 | what one candidate does (skip, record or raise); meaning: `StepEmitIff`, `StepRaiseIff`, `MissingSearchField`, `EmptyEndingRejects`, `Examine` |
| `RelationshipSearch.FileRecords` | app.py:59-80 | the records of one file's candidates, ending at the first raise; meaning: `FileRecordsUpToRaise`, `FileRecordsFrom`, `ScanFile` |
| `RelationshipSearch.FileResults` | app.py:57-80 | one walked file's records, none unless an `.xml` file that parses; meaning: `SkippedFile`, `CandidatesOfRoot` |
| `RelationshipSearch.Search` | app.py:53-81 | the whole result list in walk order; meaning: `SearchAppend`, `SearchSound`, `SearchRetained`, `SearchRecordKeys`, `Scan` |
| `RelationshipSearch.LowerAll` | app.py:46 | `not_endings` is lowered entry by entry, length kept |
| `RelationshipSearch.SearchAppend` | app.py:55-58 | the records of two runs of the walk are the first run's followed by the second's |
| `RelationshipSearch.Project` | app.py:74-77 | the record has exactly the keys `file` and the fields; each field holds the first direct child's text or `None`; `file` holds the path unless a field named `file` overwrote it |
| `RelationshipSearch.Examine` | app.py:64-77 | the loop body for one element yields what `Step` says: skip, record or raise |
| `RelationshipSearch.ScanFile` | app.py:59-80 | the element loop appends exactly the file's records in document order, stopping at the first raising element and keeping what it appended before |
| `RelationshipSearch.Scan` | app.py:53-81 | the whole loop returns the records of every walked `.xml` file that parses, file by file in walk order |
| `SearchProperties.KeywordsMatchIff` | app.py:65 | an element passes the keyword filter exactly when every lowered keyword occurs in its lowered serialization |
| `SearchProperties.EmptyKeywordsMatch` | app.py:44-65 | no keywords, or only `''` keywords, pass every element |
| `SearchProperties.SerializeShows` | app.py:64 | the serialization shows the tag and text of the element and of every descendant |
| `SearchProperties.KeywordInSubtree` | app.py:64-65 | a keyword found case-insensitively in the tag or text of the element or any descendant passes the keyword filter (so `entityrelationship` passes every candidate) |
| `SearchProperties.AnyPrefixIff` | app.py:69 | `any(startswith)` holds exactly when some entry is a case-sensitive prefix |
| `SearchProperties.AnySuffixIff` | app.py:72 | `any(endswith)` holds exactly when some entry is a suffix |
| `SearchProperties.NotEndingsIff` | app.py:46-72 | the suffix test on pre-lowered endings holds exactly when the lowered text ends with some lowered caller entry |
| `SearchProperties.StepEmitIff` | app.py:64-78 | an element yields a record exactly when it passes the keyword filter and either no prefix/suffix filter is given or its search text exists and passes both; the record is its projection |
| `SearchProperties.StepRaiseIff` | app.py:66-80 | an element raises exactly when it passes the keyword filter, a prefix or suffix filter is given, and its `ReferencingAttributeName` child has no text |
| `SearchProperties.MissingSearchField` | app.py:66-73 | without a `ReferencingAttributeName` child an element never raises, and is kept exactly when it passes the keywords, `startings` is empty or holds `''`, and `not_endings` holds no `''` |
| `SearchProperties.EmptyEndingRejects` | app.py:72-73 | a `''` entry in `not_endings` rejects every element |
| `SearchProperties.FieldValueIsFirstChild` | app.py:76-77 | a projected value is the text of the first direct child with that tag, and `None` when no direct child has it, whatever deeper descendants hold |
| `SearchProperties.RecordShape` | app.py:74-77 | a record's keys are the fields plus `file`; each field holds its value; `file` holds the path unless overwritten |
| `SearchProperties.AllFieldsMembers` | app.py:49-50 | the projected fields are the caller's attributes, duplicates collapsed, plus the two default fields |
| `SearchProperties.CandidatesOfRoot` | app.py:61-63 | the candidates are exactly the proper descendants tagged `EntityRelationship`; the root is never one; a direct child with that tag, and any child with that tag of a descendant, is one |
| `SearchProperties.FileRecordsUpToRaise` | app.py:59-80 | when candidate `k` is the first to raise, the file yields exactly the records of the kept candidates before `k` |
| `SearchProperties.FileRecordsFrom` | app.py:63-78 | every record of a file comes from one of its candidates that yields it |
| `SearchProperties.SearchSound` | app.py:55-78 | every record comes from a candidate of a walked `.xml` file that parses |
| `SearchProperties.YieldsRetained` | app.py:57-78 | a candidate that yields a record satisfies every filter and the record is its projection |
| `SearchProperties.SearchRetained` | app.py:55-78 | every record comes from an `EntityRelationship` below the root of a parsed `.xml` file that passed the keyword, prefix and suffix filters |
| `SearchProperties.SearchRecordKeys` | app.py:49-77 | every record has exactly the keys `file`, the two default fields and the attributes; without an attribute named `file`, `file` is the path of an `.xml` file of the walk |
| `SearchProperties.SkippedFile` | app.py:57-80 | a file not named `.xml`, or one that fails to parse, changes nothing in the result list |
| `SearchProperties.NoXmlNoResults` | app.py:55-81 | a walk without `.xml` files yields an empty result list |
| `SearchProperties.ExampleFilters` | app.py:69-73 | `mmpl_Contact` passes `startings=["mmpl_"]` and `Other_x` does not; `mmpl_ContactId` is rejected by `not_endings` `["Id"]` and `["id"]`; `mmpl_Contact` is not |
| `SearchProperties.ExampleIsXml` | app.py:57 | `customizations.xml` and `Customizations.XML` are parsed; `customizations.xsd` is not |
| `SearchProperties.ExampleNestedCandidate` | app.py:63 | a relationship under `ImportExportXml > EntityRelationships` is a candidate |
| `SearchProperties.ExampleEndToEnd` | app.py:53-81 | three relationships `mmpl_Contact`, `mmpl_ContactId`, `mmpl_EmployerId` under `startings=["mmpl_"]`, `not_endings=["Id"]` yield exactly one record, for `mmpl_Contact` |
| `SearchProperties.ExampleAbandoned` | app.py:66-80 | a text-less `ReferencingAttributeName` under a prefix filter ends the file: the earlier record stays and a later element that would pass is lost |

## Left out

- Flask routing, reading `request.json`, `jsonify`, the `index` route and the
  HTTP 400 answer when `extract_path` or `folder` is missing
  (app.py:8-10, 24-30, 39-43, 51-52, 83-88). These are request plumbing; the
  model starts from an already validated query.
- Saving the upload and `zipfile.extractall` (app.py:31-35). Extraction is a
  foreign call into the file system. app.py adds no check of its own on the
  archive's member names; `zipfile.extractall` sanitizes them itself.
- `get_folder_structure` (app.py:13-22). It is a thin wrapper over `os.walk`.
- `os.walk`, `os.path.join` and `os.path.relpath` (app.py:53, 55, 58, 74). The
  walk is given as a sequence of files, each with its base name and its path
  relative to the extraction directory, in walk order.
- `ET.parse` (app.py:60) is a foreign call. Each file comes with its outcome,
  either a tree or `Malformed`. Namespaces, comments and processing
  instructions are not part of the tree.
- `ET.tostring` (app.py:64) is modelled as the concatenation of start tag,
  attributes, text, children, end tag and tail, with the short form for an
  element without text or children. Its escaping is not modelled: `&`, `<`,
  `>` and quotes, and inside attribute values also carriage return, line feed
  and tab (written as `&#13;`, `&#10;` and `&#09;`). A keyword containing
  those characters may therefore match differently than in the source.
- `str.lower` folds only ASCII letters here. Python folds all of Unicode.
- Field names are plain tags. ElementPath syntax in an attribute name passed
  to `find` (app.py:76) is not interpreted. A name that is not a valid path
  would raise inside the `try` and abandon the file; the model does not cover
  that.
- The request's lists are taken to be lists of strings. Non-string entries in
  `keywords`, `startings`, `not_endings` or `attributes` would raise
  `TypeError` or `AttributeError`. A JSON `null` given for `keywords` makes
  the keyword test raise inside the `try`, so every file is abandoned at its
  first candidate and the result is `[]`. A plain string given for
  `keywords` or `startings` is iterated character by character. The model
  covers none of these.
- A record is a map, so no key order is modelled. The source fills its
  `result` dict with `file` first and then in the set's iteration order, and
  `jsonify` (app.py:81) sorts the keys by default. The model keeps neither
  order.
