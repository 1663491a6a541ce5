/**
 * ActiveRddb::Base: a record wraps one Rddb::Document; saving appends that
 * document to the shared database, and finding turns an options hash into a
 * cached view of the database (lib/rddb_playground.rb). The class variable
 * @@database is passed explicitly, and so are the Ruby behaviours this layer
 * borrows (inspect, to_s of an order value, Regexp matching).
 */
module ActiveRddb {
  import opened Wrappers
  import opened Text
  import opened RubyValue
  import opened RddbDocument
  import opened QueryFilter
  import opened Rddb
  import OrderedHash

  /** The attribute `name=` assigns: the method name with every line-ending '=' removed. */
  function SetterKey(name: string): (key: string)
    ensures '\n' !in name && EndsWith(name, "=") ==> key == name[..|name| - 1]
  {
    DropFinalEquals(name);
    DropLineEndEquals(name)
  }

  /** What update_attributes leaves in the document: each pair assigned through `attribute=` in order. */
  function Assigned(data: Attributes, attributes: seq<(string, Value)>): Attributes
    decreases |attributes|
  {
    if |attributes| == 0 then data
    else Assigned(OrderedHash.Put(data, SetterKey(attributes[0].0 + "="), attributes[0].1), attributes[1..])
  }

  /** Assigning the pairs one more at a time. */
  lemma {:induction false} AssignedSnoc(data: Attributes, attributes: seq<(string, Value)>, name: string, value: Value)
    ensures Assigned(data, attributes + [(name, value)]) ==
      OrderedHash.Put(Assigned(data, attributes), SetterKey(name + "="), value)
    decreases |attributes|
  {
    if |attributes| > 0 {
      assert (attributes + [(name, value)])[1..] == attributes[1..] + [(name, value)];
      AssignedSnoc(OrderedHash.Put(data, SetterKey(attributes[0].0 + "="), attributes[0].1), attributes[1..], name, value);
    }
  }

  /** With single-line attribute names, update_attributes is Hash#merge! of the attributes. */
  lemma {:induction false} AssignedIsMerge(data: Attributes, attributes: seq<(string, Value)>)
    requires forall i :: 0 <= i < |attributes| ==> '\n' !in attributes[i].0
    ensures Assigned(data, attributes) == OrderedHash.PutAll(data, attributes)
    decreases |attributes|
  {
    if |attributes| > 0 {
      DropAppendedEquals(attributes[0].0);
      AssignedIsMerge(OrderedHash.Put(data, attributes[0].0, attributes[0].1), attributes[1..]);
    }
  }

  /** The view build_query registers for a class and options hash. */
  function BuiltView(className: string, options: Options, toS: Value -> string): (v: View)
    ensures v.className == className && v.options == options
    ensures v.order.Some? <==> Truthy(OrderedHash.Get(options, "order").GetOr(Nil))
  {
    View(className, options, OrderAttributes(options, toS))
  }

  /** `args.first`: nil when there are no arguments. */
  function First(args: seq<Value>): (v: Value)
    ensures |args| == 0 ==> v == Nil
    ensures |args| > 0 ==> v == args[0]
  {
    if |args| == 0 then Nil else args[0]
  }

  /**
   * Whatever the query was answered with, every document of a successful
   * answer was in the store, passes the view's filter and is of its class.
   */
  lemma AnswerIsScoped(view: View, docs: seq<Document>, matches: (string, string) -> bool, r: Result<seq<Document>, Error>)
    requires Answers(view, docs, matches, r) && r.Success?
    ensures forall d :: d in r.value ==>
      && d in docs
      && Selects(view.className, view.options, d.data, matches) == Success(true)
      && Attr(d.data, "clazz") == Str(view.className)
  {
    KeptSelects(view, docs, matches);
    var kept := Kept(view, docs, matches).value;
    forall d | d in r.value
      ensures d in kept
    {
      if view.order.Some? {
        assert multiset(r.value)[d] > 0;
      }
    }
  }

  class Record {
    const className: string
    var document: Document

    /** Base#initialize: a new document holding the attributes, with :clazz set to the class name over any supplied value. */
    constructor (className: string, attributes: Attributes)
      requires OrderedHash.UniqueKeys(attributes)
      ensures this.className == className && fresh(document)
      ensures document.data == OrderedHash.Put(attributes, "clazz", Str(className))
    {
      this.className := className;
      OrderedHash.PutUnique(attributes, "clazz", Str(className));
      document := new Document(OrderedHash.Put(attributes, "clazz", Str(className)));
    }

    /** Base#method_missing: `name=` assigns the first argument, any other name reads the attribute. */
    method MethodMissing(name: string, args: seq<Value>) returns (r: Value)
      modifies document
      ensures EqualsEndsLine(name) ==> r == First(args) && document.data == OrderedHash.Put(old(document.data), SetterKey(name), First(args))
      ensures !EqualsEndsLine(name) ==> r == Attr(document.data, name) && unchanged(document)
      ensures OrderedHash.UniqueKeys(old(document.data)) ==> OrderedHash.UniqueKeys(document.data)
    {
      if EqualsEndsLine(name) {
        r := First(args);
        document.Set(SetterKey(name), r);
      } else {
        r := Attr(document.data, name);
      }
    }

    /** Base#save: appends the document to the database, on every call. */
    method Save(db: Database)
      modifies db
      ensures db.documents == old(db.documents) + [document]
      ensures db.views == old(db.views)
    {
      db.Append(document);
    }

    /**
     * Base#update_attributes: assigns each pair through `attribute=`, in
     * order, then saves; the same document object is appended again, so a
     * record saved before is stored twice and both entries show the new data.
     */
    method UpdateAttributes(attributes: seq<(string, Value)>, db: Database)
      modifies document, db
      ensures document == old(document)
      ensures document.data == Assigned(old(document.data), attributes)
      ensures db.documents == old(db.documents) + [document]
      ensures db.views == old(db.views)
      ensures OrderedHash.UniqueKeys(old(document.data)) ==> OrderedHash.UniqueKeys(document.data)
    {
      var i := 0;
      while i < |attributes|
        invariant 0 <= i <= |attributes|
        invariant document.data == Assigned(old(document.data), attributes[..i])
        invariant db.documents == old(db.documents) && db.views == old(db.views)
        invariant OrderedHash.UniqueKeys(old(document.data)) ==> OrderedHash.UniqueKeys(document.data)
      {
        var name := attributes[i].0 + "=";
        assert EqualsEndsLine(name) by {
          assert name[|name| - 1] == '=' && AtLineEnd(name, |name|);
        }
        var _ := MethodMissing(name, [attributes[i].1]);
        assert attributes[..i + 1] == attributes[..i] + [attributes[i]];
        AssignedSnoc(old(document.data), attributes[..i], attributes[i].0, attributes[i].1);
        i := i + 1;
      }
      assert attributes[..i] == attributes;
      Save(db);
    }
  }

  /** Base.create: a new record, saved. */
  method Create(className: string, attributes: Attributes, db: Database) returns (record: Record)
    requires OrderedHash.UniqueKeys(attributes)
    modifies db
    ensures fresh(record) && fresh(record.document) && record.className == className
    ensures record.document.data == OrderedHash.Put(attributes, "clazz", Str(className))
    ensures db.documents == old(db.documents) + [record.document]
    ensures db.views == old(db.views)
  {
    record := new Record(className, attributes);
    record.Save(db);
  }

  /** Base.from_document: a record of the class wrapping the given document itself, not a copy. */
  method FromDocument(className: string, d: Document) returns (record: Record)
    ensures fresh(record) && record.className == className && record.document == d
  {
    record := new Record(className, []);
    record.document := d;
  }

  /**
   * Base.build_query: a view already registered under the name is returned
   * as it is and nothing is registered; otherwise exactly one view is
   * registered under the name, with a reduce when the options carry :order.
   */
  method BuildQuery(className: string, queryName: string, options: Options, db: Database, toS: Value -> string)
    returns (view: View)
    modifies db
    ensures db.documents == old(db.documents)
    ensures queryName in old(db.views) ==> view == old(db.views)[queryName] && db.views == old(db.views)
    ensures queryName !in old(db.views) ==>
      view == BuiltView(className, options, toS) && db.views == old(db.views)[queryName := view]
  {
    var cached := db.LookupView(queryName);
    if cached.Some? {
      return cached.value;
    }
    view := db.CreateView(queryName, className, options);
    var order := OrderAttributes(options, toS);
    if order.Some? {
      db.ReduceWith(queryName, order.value);
      view := view.(order := order);
    }
  }

  /**
   * Base.find: ignores how_many, builds (or reuses) the view keyed by the
   * query name, queries it and wraps every document with from_document.
   * `answer` is what the store's query returned.
   */
  method Find(className: string, howMany: Value, options: Options, db: Database,
              inspect: Value -> string, toS: Value -> string, matches: (string, string) -> bool)
    returns (r: Result<seq<Record>, Error>, ghost answer: Result<seq<Document>, Error>)
    modifies db
    ensures db.documents == old(db.documents)
    ensures QueryName(className, options, inspect) in old(db.views) ==> db.views == old(db.views)
    ensures QueryName(className, options, inspect) !in old(db.views) ==>
      db.views == old(db.views)[QueryName(className, options, inspect) := BuiltView(className, options, toS)]
    ensures Answers(db.views[QueryName(className, options, inspect)], db.documents, matches, answer)
    ensures r.Failure? <==> answer.Failure?
    ensures r.Failure? ==> r.error == answer.error
    ensures r.Success? ==> |r.value| == |answer.value| && forall i :: 0 <= i < |r.value| ==>
      fresh(r.value[i]) && r.value[i].className == className && r.value[i].document == answer.value[i]
  {
    var queryName := QueryName(className, options, inspect);
    var _ := BuildQuery(className, queryName, options, db, toS);
    var found := db.Query(queryName, matches);
    answer := found;
    if found.Failure? {
      return Failure(found.error), answer;
    }
    var records := WrapAll(className, found.value);
    r := Success(records);
  }

  /** `documents.map { |document| from_document(document) }` */
  method WrapAll(className: string, documents: seq<Document>) returns (records: seq<Record>)
    ensures |records| == |documents|
    ensures forall i :: 0 <= i < |records| ==>
      fresh(records[i]) && records[i].className == className && records[i].document == documents[i]
  {
    records := [];
    var i := 0;
    while i < |documents|
      invariant 0 <= i <= |documents|
      invariant |records| == i
      invariant forall k :: 0 <= k < i ==>
        fresh(records[k]) && records[k].className == className && records[k].document == documents[k]
    {
      var record := FromDocument(className, documents[i]);
      records := records + [record];
      i := i + 1;
    }
  }
}
