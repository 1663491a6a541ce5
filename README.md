# rddb-playground, modelled in Dafny

This project models the core of rddb-playground, a small Ruby experiment. The
core has two parts.

- `ActiveRddb::Base` (`lib/rddb_playground.rb`) is an ActiveRecord-like layer
  over an in-memory Rddb document store. A record wraps an `Rddb::Document`
  whose attribute hash carries a `:clazz` tag. Dynamic setters and getters go
  through `method_missing`. `save` appends the document to one shared
  database. `find` derives a query name from the options, builds a cached view
  once, and maps the view's answer back to records. The view filters on
  conditions (string equality, regexp match, range or array inclusion) and can
  sort by an `:order` list of attributes.
- The vendored CouchDb-Ruby client (`vendor/gems/CouchDb-Ruby/src/couchdb/`).
  The model covers the pieces that are logic rather than HTTP:
  - `Doc`: dynamic fields, XML building through `hash2docxml` and `val2xml`,
    and parsing through `parse_doc`;
  - `Utils.parse_val`;
  - `Table` and `Row`;
  - from `Db`: `fix_name`, `format_table_options`, and the request paths that
    `put`, `get`, `table` and `designs` send.

Each module is one file:

| file | module | models |
|---|---|---|
| `wrappers.dfy` | `Wrappers` | `Option` and `Result` |
| `text.dfy` | `Text` | string helpers: Ruby `$` line anchors, `Array#join`, decimal text |
| `ordered_hash.dfy` | `OrderedHash` | Ruby's insertion-ordered `Hash` as a sequence of pairs |
| `ruby_value.dfy` | `RubyValue` | the Ruby values the query layer handles, truthiness, `<=>` on strings, integers and arrays |
| `rddb_document.dfy` | `RddbDocument` | `Rddb::Document`: an attribute hash read with `send` and written with `[]=` |
| `query_filter.dfy` | `QueryFilter` | `build_query_name`, the filter block of `build_query`, the `:order` split and the `sort_by` |
| `rddb_store.dfy` | `Rddb` | `Rddb::Database`: appending documents, creating views, `reduce_with`, `query` |
| `active_rddb.dfy` | `ActiveRddb` | `ActiveRddb::Base`: records, `method_missing`, `save`, `update_attributes`, `create`, `from_document`, `find`, `build_query` |
| `couch_xml.dfy` | `CouchXml` | the XML element tree the CouchDb client reads and writes, its tag constants and its values |
| `couch_utils.dfy` | `CouchUtils` | `Utils.parse_val` |
| `couch_doc.dfy` | `CouchDoc` | `Doc`: `method_missing`, `hash2docxml`/`val2xml`, `parse_doc`, `initialize`, `create` |
| `couch_table.dfy` | `CouchTable` | `Row` (a `Hash` with an id and `to_s`), `Table`, `parse_tr`, `parse_table` |
| `couch_db.dfy` | `CouchDb` | `fix_name`, `format_table_options`, request paths |

Some parts of the source are imperative: an object whose fields change, a
string appended to in place, or a loop. Those are Dafny classes and methods
proved against specification functions, e.g. `Rddb.Database`,
`CouchDoc.Doc`, `CouchTable.Row`, `CouchDb.FormatTableOptions` and
`QueryFilter.SortBy`. The rest is functions and lemmas.

The Rddb gem itself (`Rddb::Database`, `Rddb::Document`) is not part of this
model's sources. Its behaviour is modelled as `rddb_playground.rb` uses it.
Those rows cite the lines where the store is called.

The main results:
- A record's kept documents are exactly the documents of its class that
  satisfy every condition, in store order (`Rddb.KeptSelects`,
  `Rddb.KeptInStoreOrder`, `ActiveRddb.Find`).
- The `:order` reduce returns a sorted permutation, or reports the pair of
  keys Ruby could not compare (`QueryFilter.SortBy`).
- A document whose fields are all serializable survives `hash2docxml`
  followed by `parse_doc`, up to the collapsing `parse_val` performs
  (`CouchDoc.DocRoundTrip`).
- `fix_name` as written misses names with an embedded newline. This is
  reported under Findings and corrected in `CouchDb.FixName`.

## Model

| member | source | states |
|---|---|---|
| `ActiveRddb.SetterKey` | lib/rddb_playground.rb:17 | for a one-line name ending in `=`, the attribute key is the name without its final `=` |
| `ActiveRddb.AssignedSnoc` | lib/rddb_playground.rb:28-30 | assigning one more pair is one more `Put` of the stripped key |
| `ActiveRddb.AssignedIsMerge` | lib/rddb_playground.rb:27-31 | `update_attributes` with one-line names is exactly an ordered hash merge of the given pairs into the data |
| `ActiveRddb.BuiltView` | lib/rddb_playground.rb:77-111 | the built view keeps the class and options, and has an order exactly when `options[:order]` is truthy |
| `ActiveRddb.AnswerIsScoped` | lib/rddb_playground.rb:53 | every document in a successful answer is in the store and tagged with the view's class |
| `ActiveRddb.Record.constructor` | lib/rddb_playground.rb:7-9 | the new document's data is the attributes merged with `:clazz => class name` |
| `ActiveRddb.Record.MethodMissing` | lib/rddb_playground.rb:15-21 | a name ending a line with `=` stores `args.first` under the stripped key and returns it; any other name reads the attribute and changes nothing |
| `ActiveRddb.Record.Save` | lib/rddb_playground.rb:23-25 | the database gains exactly this document at the end; views unchanged |
| `ActiveRddb.Record.UpdateAttributes` | lib/rddb_playground.rb:27-32 | the data becomes every pair assigned in order, then the same document is appended once |
| `ActiveRddb.Create` | lib/rddb_playground.rb:34-38 | a fresh record tagged with its class whose document is appended to the store |
| `ActiveRddb.FromDocument` | lib/rddb_playground.rb:40-44 | a fresh record wrapping the given document itself, not a copy |
| `ActiveRddb.BuildQuery` | lib/rddb_playground.rb:70-114 | a cached view is returned untouched; otherwise exactly one view is created under the query name, ordered when `:order` is truthy |
| `ActiveRddb.Find` | lib/rddb_playground.rb:50-56 | the result wraps, one record per document and in order, what the store answers for the query name; errors pass through; documents unchanged |
| `ActiveRddb.WrapAll` | lib/rddb_playground.rb:53-55 | one fresh record per document, in order, each wrapping that document |
| `QueryFilter.OptionTexts` | lib/rddb_playground.rb:62-64 | one `:key => inspect(value)` text per option, in option order |
| `QueryFilter.QueryName` | lib/rddb_playground.rb:58-68 | the cache key starts with the class name and is exactly the class name iff there are no options |
| `QueryFilter.QueryNameShape` | lib/rddb_playground.rb:58-68 | the name starts with the class name; it equals the class name iff there are no options, else it is `Class: {…}` joined with `, ` |
| `QueryFilter.QueryNamesSeparateClasses` | lib/rddb_playground.rb:58-68 | two different class names without `:` never share a query name, so classes never share a cached view |
| `QueryFilter.Conditions` | lib/rddb_playground.rb:78-79 | on success the conditions map `:clazz` to the class name; failure exactly when `:conditions` is present and not a hash |
| `QueryFilter.Satisfies` | lib/rddb_playground.rb:83-98 | a condition of another kind never rejects; a String accepts exactly an equal String; a Regexp accepts only strings; a Range accepts only values comparable with both of its ends |
| `QueryFilter.ListConditionAcceptsItem` | lib/rddb_playground.rb:94 | an Array condition accepts each of its own items, through `==` |
| `QueryFilter.ListConditionHashOrder` | lib/rddb_playground.rb:94 | `[{:a => 1, :b => 2}]` accepts `{:b => 2, :a => 1}`: Array#include? compares with `==`, which ignores Hash order |
| `QueryFilter.KeepChecksAll` | lib/rddb_playground.rb:82-100 | when every constraining key is an attribute name, the record is kept iff every condition holds |
| `QueryFilter.KeptPassesAll` | lib/rddb_playground.rb:82-100 | a kept record satisfies every condition, and every constraining key was a valid attribute name |
| `QueryFilter.SkippedConditionIsInert` | lib/rddb_playground.rb:93-98 | a condition that is not a String, Regexp, Range or Array has no effect wherever it appears |
| `QueryFilter.KindScoped` | lib/rddb_playground.rb:79-87 | a selected record carries the view's class in `clazz` |
| `QueryFilter.KeepFrom` | lib/rddb_playground.rb:82-98 | one step of the conditions loop: skip, raise on a bad attribute name, or continue or stop on the comparison |
| `QueryFilter.CheckConditions` | lib/rddb_playground.rb:81-100 | the loop with its `break` computes the specification `Keep` |
| `QueryFilter.MapDocument` | lib/rddb_playground.rb:77-101 | the view block returns the record when it is selected, nil when it is not, and raises the selection error |
| `QueryFilter.SplitFieldsHaveNoComma` | lib/rddb_playground.rb:106 | no field of `split(/\s*,\s*/)` contains a comma |
| `QueryFilter.SplitFieldsJoin` | lib/rddb_playground.rb:106 | splitting `names.join(", ")` gives back the names when they have no commas or edge whitespace |
| `QueryFilter.SplitOrderJoin` | lib/rddb_playground.rb:106 | the same round trip through Ruby's `split`, which drops trailing empty fields |
| `QueryFilter.InsertKeepsOrder` | lib/rddb_playground.rb:105-109 | inserting a record after every key not above it and before the first key above it keeps the sequence sorted |
| `QueryFilter.InsertedPairOrdered` | lib/rddb_playground.rb:105-109 | after inserting a record at its slot, any two positions are in key order |
| `QueryFilter.InsertStep` | lib/rddb_playground.rb:105-109 | one insertion step keeps the sorted sequence a sorted permutation of the records seen so far, with its keys alongside |
| `QueryFilter.SortBy` | lib/rddb_playground.rb:104-110 | success gives a permutation of the records sorted by their keys; failure only when two keys are incomparable |
| `QueryFilter.FindSlot` | lib/rddb_playground.rb:105-109 | returns the first slot whose key is above the new key, every earlier key being at or below it, or an index whose key cannot be compared |
| `QueryFilter.InsertAddsOne` | lib/rddb_playground.rb:105 | inserting the next record anywhere keeps the result a permutation of the records seen so far |
| `QueryFilter.IncomparableWitness` | lib/rddb_playground.rb:105-109 | a key comparison that fails shows that the records are not all comparable, so `sort_by` raises |
| `Rddb.Kept` | lib/rddb_playground.rb:53 | every document the view keeps comes from the store |
| `Rddb.KeptStepMapped` | lib/rddb_playground.rb:77-101 | the view's answer grows by one document at a time exactly as its block says |
| `Rddb.KeptFailureSticks` | lib/rddb_playground.rb:53 | once a document's block raises, the whole query raises that error |
| `Rddb.KeptInStoreOrder` | lib/rddb_playground.rb:53 | the kept documents are a subsequence of the store, in store order |
| `Rddb.KeptSelects` | lib/rddb_playground.rb:53 | a document is kept iff it is in the store and selected, and every kept document has the view's class |
| `Rddb.KeepMatching` | lib/rddb_playground.rb:53 | the query's map-and-compact loop computes the specification `Kept` |
| `Rddb.Database.constructor` | lib/rddb_playground.rb:5 | a new database holds no documents and no views |
| `Rddb.Database.Append` | lib/rddb_playground.rb:24 | `<<` appends the document at the end and leaves the views alone |
| `Rddb.Database.LookupView` | lib/rddb_playground.rb:71 | `views[name]` is present exactly when the name was created, and gives that view |
| `Rddb.Database.CreateView` | lib/rddb_playground.rb:47 | registers an unordered view for the class and options under the name and returns it |
| `Rddb.Database.ReduceWith` | lib/rddb_playground.rb:104 | adds the order to the named view and changes nothing else |
| `Rddb.Database.Query` | lib/rddb_playground.rb:53 | an unknown name is an error; a known one answers the view's kept documents, sorted when the view is ordered |
| `RddbDocument.Attr` | lib/rddb_playground.rb:84 | an attribute the document does not hold reads as nil |
| `RddbDocument.Document.constructor` | lib/rddb_playground.rb:8 | given a Hash, whose keys are unique, the document holds exactly those attributes |
| `RddbDocument.Document.Set` | lib/rddb_playground.rb:17 | `[]=` puts the value under the name in the ordered hash, and the keys stay unique |
| `RubyValue.StrCmpAntisymmetric` | lib/rddb_playground.rb:105-109 | `String#<=>` is antisymmetric and is zero only on equal strings |
| `RubyValue.StrCmpTransitive` | lib/rddb_playground.rb:105-109 | `String#<=>` is transitive |
| `RubyValue.RubyEqReflexive` | lib/rddb_playground.rb:94 | every value whose Hashes hold each key once is `==` to itself |
| `RubyValue.HashEqIgnoresOrder` | lib/rddb_playground.rb:94 | two Hashes with the same two entries inserted in either order are `==` |
| `RubyValue.CmpAntisymmetric` | lib/rddb_playground.rb:105-109 | `<=>` on values is antisymmetric, including being undefined both ways, and zero only on equal values |
| `RubyValue.CmpTransitive` | lib/rddb_playground.rb:105-109 | `<=>` on values is transitive where defined |
| `RubyValue.TupleCmpAntisymmetric` | lib/rddb_playground.rb:106-108 | `Array#<=>` on sort keys is antisymmetric |
| `RubyValue.TupleLeTransitive` | lib/rddb_playground.rb:106-108 | "at or below" on sort keys is transitive, so a sorted result is meaningful |
| `OrderedHash.Get` | lib/rddb_playground.rb:78 | a key reads as absent iff it is not among the hash's keys |
| `OrderedHash.GetPut` | lib/rddb_playground.rb:79 | after `h[k] = v`, `h[k]` is `v` and every other key reads as before |
| `OrderedHash.KeysPut` | vendor/gems/CouchDb-Ruby/src/couchdb/doc.rb:77-79 | assigning an existing key keeps the key order; a new key goes last |
| `OrderedHash.PutUnique` | vendor/gems/CouchDb-Ruby/src/couchdb/doc.rb:133 | assignment keeps keys unique |
| `OrderedHash.PutAllSnoc` | lib/rddb_playground.rb:8 | merging one more pair is one more assignment |
| `Text.EqualsEndsLineSingle` | lib/rddb_playground.rb:16 | on a one-line name, `=~ /=$/` holds iff the name ends with `=` |
| `Text.DropAppendedEquals` | lib/rddb_playground.rb:17 | on a one-line name, `gsub(/=$/, '')` undoes appending `=` |
| `CouchUtils.Contribution` | vendor/gems/CouchDb-Ruby/src/couchdb/utils.rb:8-12 | a child contributes a value iff it is a text or number element |
| `CouchUtils.Contributions` | vendor/gems/CouchDb-Ruby/src/couchdb/utils.rb:6-13 | no more values than children |
| `CouchUtils.ContributionsAppend` | vendor/gems/CouchDb-Ruby/src/couchdb/utils.rb:7-13 | the values of concatenated children are the concatenated values |
| `CouchUtils.OtherChildIgnored` | vendor/gems/CouchDb-Ruby/src/couchdb/utils.rb:8-12 | a child that is neither text nor number has no effect wherever it sits |
| `CouchUtils.ContributionsCount` | vendor/gems/CouchDb-Ruby/src/couchdb/utils.rb:6-13 | there are exactly as many values as text and number children |
| `CouchUtils.ParseVal` | vendor/gems/CouchDb-Ruby/src/couchdb/utils.rb:5-20 | the loop and the collapse compute the specification `ParsedValue` |
| `CouchDoc.RewriteFrom` | vendor/gems/CouchDb-Ruby/src/couchdb/doc.rb:130 | the `^table_` rewrite never shortens the name |
| `CouchDoc.RewriteInsideLine` | vendor/gems/CouchDb-Ruby/src/couchdb/doc.rb:130 | inside a line, with no line start left, nothing is rewritten |
| `CouchDoc.RewriteSingleLine` | vendor/gems/CouchDb-Ruby/src/couchdb/doc.rb:130 | a one-line name gains `$` exactly when it starts with `table_` |
| `CouchDoc.RewriteAppendEquals` | vendor/gems/CouchDb-Ruby/src/couchdb/doc.rb:130-132 | the rewrite commutes with appending the setter's `=` |
| `CouchDoc.SetterKey` | vendor/gems/CouchDb-Ruby/src/couchdb/doc.rb:132 | a setter's key is a symbol one character shorter than the rewritten name |
| `CouchDoc.SetThenGet` | vendor/gems/CouchDb-Ruby/src/couchdb/doc.rb:128-139 | for a name Doc does not define, so that both calls reach `method_missing`, `doc.x = v` then `doc.x` gives `v`; setter and getter use the same key, with `table_` prefixed by `$` |
| `CouchDoc.ValueElement` | vendor/gems/CouchDb-Ruby/src/couchdb/doc.rb:92-104 | strings become text elements and numbers number elements carrying their text; an array raises "Not supported"; nil (or any other non-array, non-scalar value) yields no element, and the callers then raise: `field << nil` inside an array raises NoMethodError (`ItemElement`), and a nil field raises TypeError (`FieldChildren`) |
| `CouchDoc.ItemElementsSucceed` | vendor/gems/CouchDb-Ruby/src/couchdb/doc.rb:115-118 | an array field serializes iff every item is a scalar |
| `CouchDoc.ItemElementsContent` | vendor/gems/CouchDb-Ruby/src/couchdb/doc.rb:115-118 | the item elements are the items' scalar elements, one per item and in order |
| `CouchDoc.FieldElementsSucceed` | vendor/gems/CouchDb-Ruby/src/couchdb/doc.rb:111-124 | the fields serialize iff every field is serializable |
| `CouchDoc.FieldElementsContent` | vendor/gems/CouchDb-Ruby/src/couchdb/doc.rb:111-124 | one field element per field, in hash order, keyed and holding that field's children |
| `CouchDoc.FieldElementsFailure` | vendor/gems/CouchDb-Ruby/src/couchdb/doc.rb:111-124 | the first field that raises makes the whole serialization raise that error |
| `CouchDoc.ItemElementsFailure` | vendor/gems/CouchDb-Ruby/src/couchdb/doc.rb:115-118 | the first item that raises makes the array raise that error |
| `CouchDoc.ArrayChildren` | vendor/gems/CouchDb-Ruby/src/couchdb/doc.rb:115-118 | the `each` loop computes the specification `ItemElements` |
| `CouchDoc.ParsedFieldsOfUnique` | vendor/gems/CouchDb-Ruby/src/couchdb/doc.rb:143-154 | the parsed fields hold each key once: a repeated field id overwrites |
| `CouchDoc.ParseDoc` | vendor/gems/CouchDb-Ruby/src/couchdb/doc.rb:143-154 | id and rev are the root's attributes; the hash is every field child parsed and assigned in order |
| `CouchDoc.ParsedFieldsSnoc` | vendor/gems/CouchDb-Ruby/src/couchdb/doc.rb:147-152 | one more field child assigns its parsed value under its id symbol |
| `CouchDoc.ReadBack` | vendor/gems/CouchDb-Ruby/src/couchdb/utils.rb:15-19 | what a serialized field reads back as: an empty array comes back nil, a one-item array its item |
| `CouchDoc.ItemsReadBack` | vendor/gems/CouchDb-Ruby/src/couchdb/doc.rb:115-118 | parsing the serialized items gives each item's scalar read back, in order |
| `CouchDoc.FieldReadBack` | vendor/gems/CouchDb-Ruby/src/couchdb/doc.rb:112-121 | parsing a serialized field gives that field's read-back value |
| `CouchDoc.FieldsReadBack` | vendor/gems/CouchDb-Ruby/src/couchdb/doc.rb:143-154 | parsing the serialized fields gives back every field, read back, in order |
| `CouchDoc.FieldsReadBackStep` | vendor/gems/CouchDb-Ruby/src/couchdb/doc.rb:111-124 | one more field serializes to one more element and parses to one more assignment |
| `CouchDoc.DocRoundTrip` | vendor/gems/CouchDb-Ruby/src/couchdb/doc.rb:106-126 | `parse_doc(hash2docxml(doc))` succeeds for serializable fields and gives back the fields read back and the id; the revision is written as `previous_rev` and parsing reads `rev`, so it comes back empty |
| `CouchDoc.Doc.constructor` | vendor/gems/CouchDb-Ruby/src/couchdb/doc.rb:36-46 | the document holds the given hash, id and revision |
| `CouchDoc.Doc.SetId` | vendor/gems/CouchDb-Ruby/src/couchdb/doc.rb:70-72 | `id=` changes the id only |
| `CouchDoc.Doc.SetRevision` | vendor/gems/CouchDb-Ruby/src/couchdb/doc.rb:56-58 | `revision=` changes the revision only |
| `CouchDoc.Doc.FieldNames` | vendor/gems/CouchDb-Ruby/src/couchdb/doc.rb:77-79 | `fields` lists the hash's keys, in order |
| `CouchDoc.Doc.MethodMissing` | vendor/gems/CouchDb-Ruby/src/couchdb/doc.rb:128-139 | a setter stores the argument value under the rewritten key and returns it; a getter reads the key, nil when absent, and changes nothing |
| `CouchDoc.Doc.ToXml` | vendor/gems/CouchDb-Ruby/src/couchdb/doc.rb:106-126 | the imperative serialization computes the specification `DocXml` |
| `CouchDoc.New` | vendor/gems/CouchDb-Ruby/src/couchdb/doc.rb:36-46 | nil gives an empty document, a hash is adopted, an element is parsed with its id and rev; anything else is a TypeError naming its class |
| `CouchDoc.Create` | vendor/gems/CouchDb-Ruby/src/couchdb/doc.rb:30-34 | as `new`, then the id is set to the given id |
| `CouchTable.RowTextHeader` | vendor/gems/CouchDb-Ruby/src/couchdb/row.rb:29 | `to_s` starts with the id and a colon line; with no entries that is all |
| `CouchTable.RowTextSnoc` | vendor/gems/CouchDb-Ruby/src/couchdb/row.rb:30 | each entry adds its own `   key = value` line |
| `CouchTable.RowTextLines` | vendor/gems/CouchDb-Ruby/src/couchdb/row.rb:28-32 | with single-line parts, `to_s` has one line per entry plus the header |
| `CouchTable.Row.constructor` | vendor/gems/CouchDb-Ruby/src/couchdb/row.rb:14 | a new row has no id and no entries |
| `CouchTable.Row.SetId` | vendor/gems/CouchDb-Ruby/src/couchdb/row.rb:23-25 | `id=` changes only the id |
| `CouchTable.Row.Store` | vendor/gems/CouchDb-Ruby/src/couchdb/table.rb:62 | `row[id] = val` puts the value in the row's ordered hash, and the keys stay unique |
| `CouchTable.Row.Lookup` | vendor/gems/CouchDb-Ruby/src/couchdb/row.rb:14 | an absent column reads as nil |
| `CouchTable.Row.ToS` | vendor/gems/CouchDb-Ruby/src/couchdb/row.rb:28-32 | the appending loop computes the specification `RowText` |
| `CouchTable.HasCellSnoc` | vendor/gems/CouchDb-Ruby/src/couchdb/table.rb:59-63 | a column is present after one more cell iff it was present before or is that cell's id |
| `CouchTable.CellColumns` | vendor/gems/CouchDb-Ruby/src/couchdb/table.rb:59-63 | the row's columns are exactly the ids of its cells |
| `CouchTable.LastCellWins` | vendor/gems/CouchDb-Ruby/src/couchdb/table.rb:59-63 | when two cells share an id, the later cell's value is kept |
| `CouchTable.CellEntriesStep` | vendor/gems/CouchDb-Ruby/src/couchdb/table.rb:59-63 | each cell assigns its parsed value under its id |
| `CouchTable.ParseTr` | vendor/gems/CouchDb-Ruby/src/couchdb/table.rb:56-65 | a fresh row whose id is the element's id and whose entries are its cells parsed in order |
| `CouchTable.RowElements` | vendor/gems/CouchDb-Ruby/src/couchdb/table.rb:70 | only `tr` elements are read, and a root that is not a table gives none |
| `CouchTable.TrChildren` | vendor/gems/CouchDb-Ruby/src/couchdb/table.rb:70 | the result has only `tr` elements, every `tr` child is kept, and nothing but children is kept |
| `CouchTable.TrChildrenAppend` | vendor/gems/CouchDb-Ruby/src/couchdb/table.rb:70 | selecting the `tr` children keeps document order: it distributes over concatenation |
| `CouchTable.Table.constructor` | vendor/gems/CouchDb-Ruby/src/couchdb/table.rb:23-34 | the table holds the given name, rows and id |
| `CouchTable.Table.Size` | vendor/gems/CouchDb-Ruby/src/couchdb/table.rb:41-43 | `size` is where `t[ndx]` stops finding rows: a non-negative index finds one iff it is below the size, a negative one iff it is at least minus the size |
| `CouchTable.Table.At` | vendor/gems/CouchDb-Ruby/src/couchdb/table.rb:46-48 | `[]` follows Array indexing: negative indices count from the end, and an index out of range gives nil |
| `CouchTable.RowsReadSnoc` | vendor/gems/CouchDb-Ruby/src/couchdb/table.rb:70-72 | one more `tr` read gives one more row |
| `CouchTable.ParseTable` | vendor/gems/CouchDb-Ruby/src/couchdb/table.rb:67-76 | the id is the root's; one fresh row per `tr`, in order, each read by `parse_tr` |
| `CouchTable.NewTable` | vendor/gems/CouchDb-Ruby/src/couchdb/table.rb:23-34 | nil gives no rows, an array is adopted, an element is parsed; anything else is a TypeError naming its class |
| `CouchDb.RString.constructor` | vendor/gems/CouchDb-Ruby/src/couchdb/db.rb:56 | a mutable string holding the given characters |
| `CouchDb.RString.Append` | vendor/gems/CouchDb-Ruby/src/couchdb/db.rb:61 | `<<` appends in place |
| `CouchDb.FixNameAsWritten` | vendor/gems/CouchDb-Ruby/src/couchdb/db.rb:55-65 | as written, `fix_name` only ever adds a `/` at the front, at the end, at both or at neither |
| `CouchDb.StartAnchorOneLine` | vendor/gems/CouchDb-Ruby/src/couchdb/db.rb:56 | on a name without a newline, `/^\/.*/` matches exactly when the name starts with `/` |
| `CouchDb.EndAnchorOneLine` | vendor/gems/CouchDb-Ruby/src/couchdb/db.rb:60 | on a name without a newline, `/.*\/$/` matches exactly when the name ends with `/` |
| `CouchDb.FixNameAgreesOnOneLine` | vendor/gems/CouchDb-Ruby/src/couchdb/db.rb:55-65 | on a name without a newline, the code as written and the corrected `fix_name` give the same result |
| `CouchDb.FixNameLineAnchors` | vendor/gems/CouchDb-Ruby/src/couchdb/db.rb:55-65 | as written, `"a\n/b"` becomes `"a\n/b/"`, which does not start with `/` |
| `CouchDb.FixedNameShape` | vendor/gems/CouchDb-Ruby/src/couchdb/db.rb:55-65 | the corrected name starts and ends with `/`, only adds slashes at the ends, and leaves a fixed name alone |
| `CouchDb.FixedNameIdempotent` | vendor/gems/CouchDb-Ruby/src/couchdb/db.rb:55-65 | fixing a fixed name changes nothing |
| `CouchDb.FixName` | vendor/gems/CouchDb-Ruby/src/couchdb/db.rb:55-65 | computes the corrected name; a name starting with `/` is returned itself, and extended in place when it lacks the trailing `/`; any other name gives a new string and the caller's string is untouched |
| `CouchDb.Pair` | vendor/gems/CouchDb-Ruby/src/couchdb/db.rb:168 | a `key=value` pair is never empty |
| `CouchDb.Pieces` | vendor/gems/CouchDb-Ruby/src/couchdb/db.rb:154-171 | at most one piece per option |
| `CouchDb.DropLeadingEmpty` | vendor/gems/CouchDb-Ruby/src/couchdb/db.rb:156-158 | what remains never starts with an empty piece |
| `CouchDb.DropLeadingEmptySnoc` | vendor/gems/CouchDb-Ruby/src/couchdb/db.rb:156-158 | `&` is written only once something has been written |
| `CouchDb.ScalarOptions` | vendor/gems/CouchDb-Ruby/src/couchdb/db.rb:147-174 | with named scalar options only, the result is the `key=value` pairs joined by `&` |
| `CouchDb.SkippedEntry` | vendor/gems/CouchDb-Ruby/src/couchdb/db.rb:155 | an option with a nil key or value contributes nothing wherever it sits |
| `CouchDb.PiecesWithEmptyArray` | vendor/gems/CouchDb-Ruby/src/couchdb/db.rb:159-166 | an empty array option leaves an empty piece |
| `CouchDb.EmptyArrayBetween` | vendor/gems/CouchDb-Ruby/src/couchdb/db.rb:156-170 | an empty array between two options yields a doubled `&` |
| `CouchDb.EmptyArrayFirst` | vendor/gems/CouchDb-Ruby/src/couchdb/db.rb:156-170 | an empty array in first place leaves no leading `&` |
| `CouchDb.JoinItems` | vendor/gems/CouchDb-Ruby/src/couchdb/db.rb:159-166 | the array loop joins the item pairs with `&` |
| `CouchDb.FormatTableOptions` | vendor/gems/CouchDb-Ruby/src/couchdb/db.rb:147-174 | the loop computes the specification `QueryString`: empty for nil options, else the pieces joined as described |
| `CouchDb.DesignsPath` | vendor/gems/CouchDb-Ruby/src/couchdb/db.rb:86 | `designs` reads the `meta_tables:designs` table with no options |
| `CouchDb.DocPath` | vendor/gems/CouchDb-Ruby/src/couchdb/db.rb:109 | the document path `/db/id` is `/`, the database name, `/`, the id; when the database name has no `/`, its end is found at the second `/` |
| `CouchDb.DocPathsDistinct` | vendor/gems/CouchDb-Ruby/src/couchdb/db.rb:109 | for database names without `/`, two document paths are equal iff their database names and ids are equal |
| `CouchDb.TablePath` | vendor/gems/CouchDb-Ruby/src/couchdb/db.rb:134-138 | the table request starts with the `/db/name` path and equals it exactly when the query string is empty |
| `CouchDb.TableRequestScalar` | vendor/gems/CouchDb-Ruby/src/couchdb/db.rb:134-138 | with non-empty named scalar options, the request splits at `?` into the `/db/name` path and the `key=value` pairs joined by `&` |
| `CouchDb.TableRequestSplits` | vendor/gems/CouchDb-Ruby/src/couchdb/db.rb:134-138 | the table request is the `/db/name` document path, followed by `?` and the query string exactly when that string is non-empty |

## Left out

- Network and server I/O are not modelled: `Db#put` and `Db#get` sending
  requests, `list_all`, `create`, `delete`, and `Server`. Only the request
  path each one builds is modelled (`CouchDb.DocPath`, `CouchDb.TablePath`).
  `put` writing the new revision back into the document depends on the
  server's reply and is not modelled.
- REXML is modelled as a tree of elements with ordered attributes, text and
  children. Its rendering to and parsing from text is not modelled.
- `Regexp` matching, `inspect`, `to_s`, `to_f` and `Float#to_s` are Ruby
  library behaviour. They are function parameters (`matches`, `inspect`,
  `toS`, `toF`, `floatText`, `show`) rather than definitions.
- Floating point arithmetic is not modelled. A float is an opaque 64-bit
  value.
- `Base.view` with an arbitrary block is not modelled. The only blocks the
  core passes are the filter and the order reduce, and those are modelled.
- `Base#inspect`, the `puts "Building..."` line, `Table#to_s`, `Table#each`
  and `Doc#each` are display or iteration helpers and are not modelled.
- `@@database` is a class variable. The model passes the one `Database`
  explicitly to every class method.
- `options[:conditions] ||= {}` also stores the new hash into the caller's
  options hash. Hash aliasing between the caller and the view is not
  modelled: the options are values.
- `Rddb::Document` is assumed to treat symbol and string attribute names
  alike. The `:clazz` tag is stored under the name `clazz`.
- Option keys are modelled as symbol names.
- `RubyValue.Cmp` compares only integers with integers and strings with
  strings. The model treats every other pair as incomparable, as Ruby 1.8
  does for nil, booleans and symbols, and reports the raise from `sort_by`
  as the `Incomparable` error. It does not model `Array#<=>` on arrays
  inside keys, nor `nil <=> nil` being 0 in Ruby 1.9 and later.
- `QueryFilter.Satisfies` accepts a Regexp condition only on a String
  attribute, as Ruby 1.8 does, where `Object#=~` returns false. It does not
  model `Symbol#=~` of Ruby 1.9 and later, which matches the symbol's name.
- `QueryFilter.RangeIncludes` models `Range#include?` only over those
  comparable values, with first and last bounds and an exclusive flag.
- Views are identified by name. `Rddb.Database.CreateView` assigns the view
  under its name and replaces any earlier view of that name. The Rddb gem is
  not part of this model, so this is an assumption about it.
- `QueryFilter.SortBy` is an insertion sort that computes each key once, as
  `sort_by` does. Ruby's `sort_by` is not stable; the model proves only
  sortedness and permutation, which is all Ruby promises.
- Integers are unbounded. Ruby promotes Fixnum to Bignum, so nothing wraps.
- `CouchDoc.SetThenGet` holds only for names that reach `method_missing`.
  Calls to methods Doc defines (`id`, `revision`, `fields`, `to_s`, `each`)
  or inherits from Object and Enumerable (`hash`, `class`, `map`, …) are not
  dispatched in the model: `doc.fields = 1` then `doc.fields` returns the
  keys in Ruby.
- `RubyValue.RubyEq` finds a Hash key in the other Hash by structural
  equality, standing for `eql?`. Keys that are themselves Hashes inserted in
  another order are therefore not found.
- `CouchDoc.New`, `CouchDoc.Create`: `@hash = input` adopts the caller's
  Hash, so later setters on the document also change that Hash. The model
  copies the fields as a value and does not capture the shared Hash.
- `CouchTable.NewTable`: `@array = input` adopts the caller's Array in the
  same way. The model copies the rows and does not capture the sharing.
- `Db#name` and a document whose XML root is missing are not modelled.
- The demos (`lib/rddb_demo.rb`, `lib/couchdb_demo.rb`), the gem's test
  script and `config/environment.rb` are drivers, not core, and are not part
  of this model.

## Findings

| source | as written | input that shows it | evidently intended | confidence | as-written member | corrected member |
|---|---|---|---|---|---|---|
| vendor/gems/CouchDb-Ruby/src/couchdb/db.rb:55-65 | `fix_name` tests `/^\/.*/` and `/.*\/$/`; in Ruby `^` and `$` match at any line start or end, not only at the ends of the string | `"a\n/b"`: a line already starts with `/`, so no leading slash is added and the result `"a\n/b/"` does not start with `/` | test the start and end of the whole string, so that the fixed name always starts and ends with `/` | medium, not executed | `CouchDb.FixNameLineAnchors` | `CouchDb.FixName` |
