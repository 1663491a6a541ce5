/**
 * Couch::Doc (couchdb/doc.rb): an in-memory document with an id, a
 * revision and dynamic fields, its XML form for a PUT, and the reading of
 * the XML a GET returns.
 */
module CouchDoc {
  import opened Wrappers
  import opened Text
  import opened CouchXml
  import opened CouchUtils
  import OrderedHash

  /** The document's @hash: field key to value, in insertion order. */
  type Fields = seq<(Key, Datum)>

  /** What Doc.new is given. */
  datatype DocInput =
    | NoInput                       // nil
    | HashInput(entries: Fields)    // a Hash
    | XmlInput(root: Element)       // a parsed REXML::Document, by its root element
    | OtherInput(className: string) // anything else

  // ---------------------------------------------------------------- method_missing

  /** `gsub(/^table_/, '$table_')` on the text from a point that is (or is not) the start of a line. */
  function RewriteFrom(s: string, lineStart: bool): (r: string)
    ensures |r| >= |s|
    decreases |s|
  {
    if |s| == 0 then ""
    else if lineStart && StartsWith(s, "table_") then "$table_" + RewriteFrom(s[6..], false)
    else [s[0]] + RewriteFrom(s[1..], s[0] == '\n')
  }

  /** The method name after the table_ rewrite. */
  function Rewritten(name: string): string {
    RewriteFrom(name, true)
  }

  /** Text with no line break, seen from inside a line, is left alone. */
  lemma {:induction false} RewriteInsideLine(s: string)
    requires '\n' !in s
    ensures RewriteFrom(s, false) == s
    decreases |s|
  {
    if |s| > 0 {
      RewriteInsideLine(s[1..]);
    }
  }

  /** A single-line name gains a '$' exactly when it starts with table_. */
  lemma RewriteSingleLine(name: string)
    requires '\n' !in name
    ensures Rewritten(name) == if StartsWith(name, "table_") then "$" + name else name
  {
    if |name| > 0 {
      if StartsWith(name, "table_") {
        RewriteInsideLine(name[6..]);
        assert Rewritten(name) == "$table_" + name[6..];
        assert name == "table_" + name[6..];
      } else {
        RewriteInsideLine(name[1..]);
        assert name[0] != '\n';
        assert Rewritten(name) == [name[0]] + name[1..];
        assert name == [name[0]] + name[1..];
      }
    }
  }

  /** Appending '=' to a single-line name commutes with the rewrite. */
  lemma RewriteAppendEquals(name: string)
    requires '\n' !in name
    ensures Rewritten(name + "=") == Rewritten(name) + "="
  {
    assert '\n' !in name + "=";
    RewriteSingleLine(name);
    RewriteSingleLine(name + "=");
    if |name| >= 6 {
      assert (name + "=")[..6] == name[..6];
    } else if |name| == 5 {
      assert (name + "=")[5] == '=';
    }
  }

  /** `/=$/ =~ meth`: the call assigns. */
  predicate IsSetter(name: string) {
    EqualsEndsLine(Rewritten(name))
  }

  /** `meth[0...-1].to_sym`: the key an assigning call stores under, the rewritten name less its last character. */
  function SetterKey(name: string): (k: Key)
    requires IsSetter(name)
    ensures k.Sym? && |k.name| + 1 == |Rewritten(name)|
  {
    var meth := Rewritten(name);
    Sym(meth[..|meth| - 1])
  }

  /** `meth.to_sym`: the key a reading call looks up. */
  function GetterKey(name: string): Key {
    Sym(Rewritten(name))
  }

  /** `args.length < 2 ? args[0] : args` */
  function SetterValue(args: seq<Datum>): (v: Datum)
    ensures |args| == 1 ==> v == args[0]
    ensures |args| == 0 ==> v == Nil
    ensures |args| >= 2 ==> v == Many(args)
  {
    if |args| < 2 then (if |args| == 0 then Nil else args[0]) else Many(args)
  }

  /**
   * `doc.name = v` then `doc.name` gives v back, for a single-line name that
   * does not itself end with '='; both use the key Sym(name), or
   * Sym("$" + name) when the name starts with table_.
   */
  lemma SetThenGet(fields: Fields, name: string, v: Datum)
    requires '\n' !in name && !EndsWith(name, "=")
    ensures IsSetter(name + "=") && !IsSetter(name)
    ensures SetterKey(name + "=") == GetterKey(name)
    ensures GetterKey(name) == Sym(if StartsWith(name, "table_") then "$" + name else name)
    ensures OrderedHash.Get(OrderedHash.Put(fields, SetterKey(name + "="), v), GetterKey(name)) == Some(v)
  {
    RewriteAppendEquals(name);
    RewriteSingleLine(name);
    var meth := Rewritten(name + "=");
    assert meth[|meth| - 1] == '=' && AtLineEnd(meth, |meth|);
    assert meth[..|meth| - 1] == Rewritten(name);
    var r := Rewritten(name);
    assert '\n' !in r;
    EqualsEndsLineSingle(r);
    if StartsWith(name, "table_") {
      assert r[|r| - 1] == name[|name| - 1];
    }
    OrderedHash.GetPut(fields, SetterKey(name + "="), v, GetterKey(name));
  }

  // ---------------------------------------------------------------- to_s (hash2docxml)

  predicate IsScalar(d: Datum) {
    d.Str? || d.Integer? || d.Real?
  }

  /** The text a scalar is rendered with: the string itself or the number's to_s. */
  function ScalarText(d: Datum, floatText: Float -> string): string
    requires IsScalar(d)
  {
    match d
    case Str(s) => s
    case Integer(i) => IntText(i)
    case Real(f) => floatText(f)
  }

  /** val2xml: a text element for a String, a number element for a number, a throw for an Array, nil for anything else. */
  function ValueElement(val: Datum, floatText: Float -> string): (r: Result<Option<Element>, CouchError>)
    ensures r == Failure(NotSupported) <==> val.Many?
    ensures r.Success? && r.value.Some? <==> IsScalar(val)
    ensures IsScalar(val) ==> r.value.value.text == Some(ScalarText(val, floatText)) && r.value.value.children == []
    ensures IsScalar(val) ==> r.value.value.name == if val.Str? then TextTag else NumberTag
  {
    match val
    case Many(_) => Failure(NotSupported)
    case Str(s) => Success(Some(Element(TextTag, [], [], Some(s))))
    case Integer(_) => Success(Some(Element(NumberTag, [], [], Some(ScalarText(val, floatText)))))
    case Real(_) => Success(Some(Element(NumberTag, [], [], Some(ScalarText(val, floatText)))))
    case _ => Success(None)
  }

  /** `field << val2xml(v)` for the next element of an array: a nil child raises. */
  function ItemElement(v: Datum, floatText: Float -> string): Result<Element, CouchError> {
    match ValueElement(v, floatText)
    case Failure(e) => Failure(e)
    case Success(None) => Failure(NoMethodError("parent="))
    case Success(Some(e)) => Success(e)
  }

  /** The children of an array field: one per element, stopping at the first that fails. */
  function ItemElements(items: seq<Datum>, floatText: Float -> string): (r: Result<seq<Element>, CouchError>)
    decreases |items|
  {
    if |items| == 0 then Success([])
    else match ItemElements(items[..|items| - 1], floatText)
      case Failure(e) => Failure(e)
      case Success(es) =>
        match ItemElement(items[|items| - 1], floatText)
        case Failure(e) => Failure(e)
        case Success(e) => Success(es + [e])
  }

  /** The children of one field's element, or the error its value raises. */
  function FieldChildren(val: Datum, floatText: Float -> string): Result<seq<Element>, CouchError> {
    match val
    case Many(items) => ItemElements(items, floatText)
    case Str(_) => Success([ValueElement(val, floatText).value.value])
    case Integer(_) => Success([ValueElement(val, floatText).value.value])
    case Real(_) => Success([ValueElement(val, floatText).value.value])
    case _ => Failure(TypeError(ClassName(val)))
  }

  /** A field element: named field, its key as the id attribute, its value as children. */
  function FieldElement(key: Key, children: seq<Element>): Element {
    Element(FieldTag, [(IdTag, KeyText(key))], children, None)
  }

  /** The field elements of a hash, in its order, or the first error. */
  function FieldElements(fields: Fields, floatText: Float -> string): Result<seq<Element>, CouchError>
    decreases |fields|
  {
    if |fields| == 0 then Success([])
    else match FieldElements(fields[..|fields| - 1], floatText)
      case Failure(e) => Failure(e)
      case Success(es) =>
        match FieldChildren(fields[|fields| - 1].1, floatText)
        case Failure(e) => Failure(e)
        case Success(cs) => Success(es + [FieldElement(fields[|fields| - 1].0, cs)])
  }

  /** The doc element's attributes: previous_rev then id, each left out when nil. */
  function DocAttributes(id: Option<string>, revision: Option<string>): seq<(string, string)> {
    (if revision.Some? then [(PreviousRevTag, revision.value)] else [])
    + (if id.Some? then [(IdTag, id.value)] else [])
  }

  /** hash2docxml */
  function DocXml(fields: Fields, id: Option<string>, revision: Option<string>, floatText: Float -> string): Result<Element, CouchError> {
    match FieldElements(fields, floatText)
    case Failure(e) => Failure(e)
    case Success(children) => Success(Element(DocTag, DocAttributes(id, revision), children, None))
  }

  /** A value the XML form can carry: a scalar, or an array of scalars. */
  predicate Serializable(d: Datum) {
    IsScalar(d) || (d.Many? && forall i :: 0 <= i < |d.items| ==> IsScalar(d.items[i]))
  }

  /** An array's children exist exactly when every element is a scalar. */
  lemma {:induction false} ItemElementsSucceed(items: seq<Datum>, floatText: Float -> string)
    ensures ItemElements(items, floatText).Success? <==> forall i :: 0 <= i < |items| ==> IsScalar(items[i])
    decreases |items|
  {
    if |items| > 0 {
      var init := items[..|items| - 1];
      ItemElementsSucceed(init, floatText);
      assert forall i :: 0 <= i < |init| ==> init[i] == items[i];
    }
  }

  /** An array's children are one element per array element, in order. */
  lemma {:induction false} ItemElementsContent(items: seq<Datum>, floatText: Float -> string)
    requires ItemElements(items, floatText).Success?
    ensures var es := ItemElements(items, floatText).value;
      |es| == |items| && forall i :: 0 <= i < |items| ==> IsScalar(items[i]) && es[i] == ValueElement(items[i], floatText).value.value
    decreases |items|
  {
    if |items| > 0 {
      var init := items[..|items| - 1];
      ItemElementsContent(init, floatText);
      var es := ItemElements(items, floatText).value;
      var es' := ItemElements(init, floatText).value;
      assert es == es' + [ItemElement(items[|items| - 1], floatText).value];
      forall i | 0 <= i < |items|
        ensures IsScalar(items[i]) && es[i] == ValueElement(items[i], floatText).value.value
      {
        if i < |init| {
          assert items[i] == init[i];
        }
      }
    }
  }

  /** The XML form of a hash exists exactly when every value is serializable. */
  lemma {:induction false} FieldElementsSucceed(fields: Fields, floatText: Float -> string)
    ensures FieldElements(fields, floatText).Success? <==> forall i :: 0 <= i < |fields| ==> Serializable(fields[i].1)
    decreases |fields|
  {
    if |fields| > 0 {
      var init, last := fields[..|fields| - 1], fields[|fields| - 1];
      FieldElementsSucceed(init, floatText);
      assert forall i :: 0 <= i < |init| ==> init[i] == fields[i];
      if last.1.Many? {
        ItemElementsSucceed(last.1.items, floatText);
      }
    }
  }

  /** One field element per entry, in order, with the entry's key as its id and its value's children. */
  lemma {:induction false} FieldElementsContent(fields: Fields, floatText: Float -> string)
    requires FieldElements(fields, floatText).Success?
    ensures var es := FieldElements(fields, floatText).value;
      |es| == |fields| && forall i :: 0 <= i < |fields| ==>
        FieldChildren(fields[i].1, floatText).Success?
        && es[i] == FieldElement(fields[i].0, FieldChildren(fields[i].1, floatText).value)
    decreases |fields|
  {
    if |fields| > 0 {
      var init := fields[..|fields| - 1];
      FieldElementsContent(init, floatText);
      var es := FieldElements(fields, floatText).value;
      forall i | 0 <= i < |fields|
        ensures FieldChildren(fields[i].1, floatText).Success?
          && es[i] == FieldElement(fields[i].0, FieldChildren(fields[i].1, floatText).value)
      {
        if i < |init| {
          assert fields[i] == init[i];
        }
      }
    }
  }

  /** A field element is named field and carries its key's name as its id. */
  lemma FieldElementId(key: Key, children: seq<Element>)
    ensures FieldElement(key, children).name == FieldTag
    ensures AttributeText(FieldElement(key, children), IdTag) == KeyText(key)
  {
  }

  // ---------------------------------------------------------------- parse_doc

  /** The fields parse_doc reads from the children of a doc root: every field element, by its id as a Symbol; later ones overwrite. */
  function ParsedFieldsOf(children: seq<Element>, toF: string -> Float): Fields
    decreases |children|
  {
    if |children| == 0 then []
    else
      var field := children[|children| - 1];
      var before := ParsedFieldsOf(children[..|children| - 1], toF);
      if field.name == FieldTag then OrderedHash.Put(before, Sym(AttributeText(field, IdTag)), ParsedValue(field, toF))
      else before
  }

  /** `doc.elements.each("doc/field")`: no fields unless the root is a doc element. */
  function ParsedFields(root: Element, toF: string -> Float): Fields {
    if root.name == DocTag then ParsedFieldsOf(root.children, toF) else []
  }

  /** The parsed fields form a Hash: a repeated id overwrites, so each key appears once. */
  lemma {:induction false} ParsedFieldsOfUnique(children: seq<Element>, toF: string -> Float)
    ensures OrderedHash.UniqueKeys(ParsedFieldsOf(children, toF))
    decreases |children|
  {
    if |children| > 0 {
      var field := children[|children| - 1];
      var before := ParsedFieldsOf(children[..|children| - 1], toF);
      ParsedFieldsOfUnique(children[..|children| - 1], toF);
      if field.name == FieldTag {
        OrderedHash.PutUnique(before, Sym(AttributeText(field, IdTag)), ParsedValue(field, toF));
      }
    }
  }

  lemma ParsedFieldsUnique(root: Element, toF: string -> Float)
    ensures OrderedHash.UniqueKeys(ParsedFields(root, toF))
  {
    if root.name == DocTag {
      ParsedFieldsOfUnique(root.children, toF);
    }
  }

  /** parse_doc: id and revision from the root's id and rev attributes, then the fields. */
  method ParseDoc(root: Element, toF: string -> Float) returns (hash: Fields, id: string, revision: string)
    ensures id == AttributeText(root, IdTag) && revision == AttributeText(root, "rev")
    ensures hash == ParsedFields(root, toF)
  {
    hash := [];
    id := AttributeText(root, IdTag);
    revision := AttributeText(root, "rev");
    if root.name != DocTag {
      return;
    }
    var i := 0;
    while i < |root.children|
      invariant 0 <= i <= |root.children|
      invariant hash == ParsedFieldsOf(root.children[..i], toF)
    {
      var field := root.children[i];
      assert root.children[..i + 1][..i] == root.children[..i];
      if field.name == FieldTag {
        var val := ParseVal(field, toF);
        hash := OrderedHash.Put(hash, Sym(AttributeText(field, IdTag)), val);
      }
      i := i + 1;
    }
    assert root.children[..i] == root.children;
  }

  // ---------------------------------------------------------------- round trip

  /** What a scalar's child reads back as: a string as it is, a number through its text and to_f. */
  function ScalarReadBack(d: Datum, toF: string -> Float, floatText: Float -> string): Datum
    requires IsScalar(d)
  {
    if d.Str? then d else Real(toF(ScalarText(d, floatText)))
  }

  /** The values an array's children read back as, in order. */
  function ReadBackItems(items: seq<Datum>, toF: string -> Float, floatText: Float -> string): (r: seq<Datum>)
    requires forall i :: 0 <= i < |items| ==> IsScalar(items[i])
    ensures |r| == |items|
    decreases |items|
  {
    if |items| == 0 then []
    else ReadBackItems(items[..|items| - 1], toF, floatText) + [ScalarReadBack(items[|items| - 1], toF, floatText)]
  }

  /** What a serializable value reads back as: a scalar as above, an array collapsed by parse_val. */
  function ReadBack(d: Datum, toF: string -> Float, floatText: Float -> string): (r: Datum)
    requires Serializable(d)
    ensures d.Many? && |d.items| == 0 ==> r == Nil
    ensures d.Many? && |d.items| == 1 ==> r == ScalarReadBack(d.items[0], toF, floatText)
  {
    if IsScalar(d) then ScalarReadBack(d, toF, floatText)
    else
      assert |d.items| == 1 ==> ReadBackItems(d.items, toF, floatText) == [] + [ScalarReadBack(d.items[0], toF, floatText)];
      Collapse(ReadBackItems(d.items, toF, floatText))
  }

  /** The values an array field's children give back are its elements read back. */
  lemma {:induction false} ItemsReadBack(items: seq<Datum>, toF: string -> Float, floatText: Float -> string)
    requires forall i :: 0 <= i < |items| ==> IsScalar(items[i])
    ensures ItemElements(items, floatText).Success?
    ensures Contributions(ItemElements(items, floatText).value, toF) == ReadBackItems(items, toF, floatText)
    decreases |items|
  {
    if |items| > 0 {
      var init, last := items[..|items| - 1], items[|items| - 1];
      assert forall i :: 0 <= i < |init| ==> init[i] == items[i];
      ItemsReadBack(init, toF, floatText);
      var es := ItemElements(init, floatText).value;
      var e := ItemElement(last, floatText).value;
      assert ItemElements(items, floatText) == Success(es + [e]);
      assert (es + [e])[..|es|] == es;
      assert Contribution(e, toF) == Some(ScalarReadBack(last, toF, floatText));
    }
  }

  /** A serializable value, written as a field and read back by parse_val. */
  lemma FieldReadBack(key: Key, val: Datum, toF: string -> Float, floatText: Float -> string)
    requires Serializable(val)
    ensures FieldChildren(val, floatText).Success?
    ensures ParsedValue(FieldElement(key, FieldChildren(val, floatText).value), toF) == ReadBack(val, toF, floatText)
  {
    if val.Many? {
      ItemsReadBack(val.items, toF, floatText);
    } else {
      var e := ValueElement(val, floatText).value.value;
      assert Contributions([e], toF) == Contributions([], toF) + [Contribution(e, toF).value];
    }
  }

  /** The entries parse_doc builds from the XML form of `fields`, before the later-overwrites-earlier fold. */
  function ReadBackFields(fields: Fields, toF: string -> Float, floatText: Float -> string): (r: Fields)
    requires forall i :: 0 <= i < |fields| ==> Serializable(fields[i].1)
    ensures |r| == |fields|
    ensures forall i :: 0 <= i < |fields| ==> r[i] == (Sym(KeyText(fields[i].0)), ReadBack(fields[i].1, toF, floatText))
  {
    seq(|fields|, i requires 0 <= i < |fields| => (Sym(KeyText(fields[i].0)), ReadBack(fields[i].1, toF, floatText)))
  }

  /** Reading one more field element is one more assignment. */
  lemma ParsedFieldsSnoc(es: seq<Element>, e: Element, toF: string -> Float)
    requires e.name == FieldTag
    ensures ParsedFieldsOf(es + [e], toF) == OrderedHash.Put(ParsedFieldsOf(es, toF), Sym(AttributeText(e, IdTag)), ParsedValue(e, toF))
  {
    assert (es + [e])[..|es|] == es;
  }

  /** Reading back the field elements of `fields` assigns their read-back values in order. */
  lemma {:induction false} FieldsReadBack(fields: Fields, toF: string -> Float, floatText: Float -> string)
    requires forall i :: 0 <= i < |fields| ==> Serializable(fields[i].1)
    ensures FieldElements(fields, floatText).Success?
    ensures ParsedFieldsOf(FieldElements(fields, floatText).value, toF) == OrderedHash.PutAll([], ReadBackFields(fields, toF, floatText))
    decreases |fields|
  {
    if |fields| > 0 {
      var init, last := fields[..|fields| - 1], fields[|fields| - 1];
      assert fields == init + [(last.0, last.1)];
      assert forall i :: 0 <= i < |init| ==> Serializable(init[i].1) by {
        forall i | 0 <= i < |init| ensures Serializable(init[i].1) { assert init[i] == fields[i]; }
      }
      FieldsReadBack(init, toF, floatText);
      FieldsReadBackStep(init, last.0, last.1, FieldElements(init, floatText).value, toF, floatText);
    }
  }

  /** The inductive step of FieldsReadBack: one more entry read back is one more assignment. */
  lemma FieldsReadBackStep(init: Fields, key: Key, val: Datum, es: seq<Element>, toF: string -> Float, floatText: Float -> string)
    requires Serializable(val) && forall i :: 0 <= i < |init| ==> Serializable(init[i].1)
    requires FieldElements(init, floatText) == Success(es)
    requires ParsedFieldsOf(es, toF) == OrderedHash.PutAll([], ReadBackFields(init, toF, floatText))
    ensures FieldChildren(val, floatText).Success?
    ensures FieldElements(init + [(key, val)], floatText) == Success(es + [FieldElement(key, FieldChildren(val, floatText).value)])
    ensures ParsedFieldsOf(es + [FieldElement(key, FieldChildren(val, floatText).value)], toF)
      == OrderedHash.PutAll([], ReadBackFields(init + [(key, val)], toF, floatText))
  {
    var fields := init + [(key, val)];
    FieldReadBack(key, val, toF, floatText);
    var fe := FieldElement(key, FieldChildren(val, floatText).value);
    assert fields[..|init|] == init;
    FieldElementId(key, FieldChildren(val, floatText).value);
    ParsedFieldsSnoc(es, fe, toF);
    var before := ReadBackFields(init, toF, floatText);
    var entry := (Sym(KeyText(key)), ReadBack(val, toF, floatText));
    assert ReadBackFields(fields, toF, floatText) == before + [entry];
    OrderedHash.PutAllSnoc([], before, entry.0, entry.1);
  }

  /**
   * Writing a document and parsing the XML back: the fields come back keyed
   * by Symbols, in order, with later duplicates overwriting, and values as
   * ReadBack gives them (a one-element array as its scalar, an empty one as
   * nil); the id comes back ("" when it was nil) but the revision does not,
   * since it is written as previous_rev and read from rev.
   */
  lemma DocRoundTrip(fields: Fields, id: Option<string>, revision: Option<string>, toF: string -> Float, floatText: Float -> string)
    requires forall i :: 0 <= i < |fields| ==> Serializable(fields[i].1)
    ensures DocXml(fields, id, revision, floatText).Success?
    ensures var root := DocXml(fields, id, revision, floatText).value;
      && ParsedFields(root, toF) == OrderedHash.PutAll([], ReadBackFields(fields, toF, floatText))
      && AttributeText(root, IdTag) == id.GetOr("")
      && AttributeText(root, "rev") == ""
  {
    FieldsReadBack(fields, toF, floatText);
    var attributes := DocAttributes(id, revision);
    assert "rev" !in OrderedHash.Keys(attributes);
    if id.Some? {
      assert attributes == (if revision.Some? then [(PreviousRevTag, revision.value)] else []) + [(IdTag, id.value)];
      assert OrderedHash.Get(attributes, IdTag) == Some(id.value);
    } else {
      assert IdTag !in OrderedHash.Keys(attributes);
    }
  }

  // ---------------------------------------------------------------- the Doc class

  class Doc {
    var hash: Fields
    var id: Option<string>
    var revision: Option<string>

    constructor (hash: Fields, id: Option<string>, revision: Option<string>)
      requires OrderedHash.UniqueKeys(hash)
      ensures this.hash == hash && this.id == id && this.revision == revision
    {
      this.hash := hash;
      this.id := id;
      this.revision := revision;
    }

    /** `id=`: leaves the fields and the revision alone. */
    method SetId(v: Option<string>)
      modifies this
      ensures id == v && hash == old(hash) && revision == old(revision)
    {
      id := v;
    }

    /** `revision=`: leaves the fields and the id alone. */
    method SetRevision(v: Option<string>)
      modifies this
      ensures revision == v && hash == old(hash) && id == old(id)
    {
      revision := v;
    }

    /** `fields`: exactly the hash's keys, in order. */
    function FieldNames(): (ks: seq<Key>)
      reads this
      ensures |ks| == |hash| && forall i :: 0 <= i < |hash| ==> ks[i] == hash[i].0
    {
      OrderedHash.Keys(hash)
    }

    /** method_missing: an assigning name stores under its key; any other name reads its key, nil when unset. */
    method MethodMissing(name: string, args: seq<Datum>) returns (r: Datum)
      modifies this
      ensures IsSetter(name) ==>
        r == SetterValue(args) && hash == OrderedHash.Put(old(hash), SetterKey(name), r)
        && id == old(id) && revision == old(revision)
      ensures !IsSetter(name) ==> r == OrderedHash.Get(hash, GetterKey(name)).GetOr(Nil) && unchanged(this)
      ensures OrderedHash.UniqueKeys(old(hash)) ==> OrderedHash.UniqueKeys(hash)
    {
      var meth := Rewritten(name);
      if EqualsEndsLine(meth) {
        r := SetterValue(args);
        if OrderedHash.UniqueKeys(hash) {
          OrderedHash.PutUnique(hash, Sym(meth[..|meth| - 1]), r);
        }
        hash := OrderedHash.Put(hash, Sym(meth[..|meth| - 1]), r);
      } else {
        r := OrderedHash.Get(hash, Sym(meth)).GetOr(Nil);
      }
    }

    /** `to_s` before rendering: hash2docxml, field by field. */
    method ToXml(floatText: Float -> string) returns (r: Result<Element, CouchError>)
      ensures r == DocXml(hash, id, revision, floatText)
    {
      var children: seq<Element> := [];
      var i := 0;
      while i < |hash|
        invariant 0 <= i <= |hash|
        invariant FieldElements(hash[..i], floatText) == Success(children)
      {
        var key, val := hash[i].0, hash[i].1;
        assert hash[..i + 1][..i] == hash[..i];
        var fieldChildren: seq<Element>;
        if val.Many? {
          var items := ArrayChildren(val.items, floatText);
          if items.Failure? {
            FieldElementsFailure(hash, i + 1, floatText);
            return Failure(items.error);
          }
          fieldChildren := items.value;
        } else if IsScalar(val) {
          fieldChildren := [ValueElement(val, floatText).value.value];
        } else {
          FieldElementsFailure(hash, i + 1, floatText);
          return Failure(TypeError(ClassName(val)));
        }
        children := children + [FieldElement(key, fieldChildren)];
        i := i + 1;
      }
      assert hash[..i] == hash;
      r := Success(Element(DocTag, DocAttributes(id, revision), children, None));
    }
  }

  /** Once a prefix of the hash fails to render, the whole hash fails with that error. */
  lemma {:induction false} FieldElementsFailure(fields: Fields, k: nat, floatText: Float -> string)
    requires k <= |fields| && FieldElements(fields[..k], floatText).Failure?
    ensures FieldElements(fields, floatText) == FieldElements(fields[..k], floatText)
    decreases |fields| - k
  {
    if k < |fields| {
      assert fields[..k + 1][..k] == fields[..k];
      FieldElementsFailure(fields, k + 1, floatText);
    } else {
      assert fields[..k] == fields;
    }
  }

  /** Once a prefix of an array fails to render, the whole array fails with that error. */
  lemma {:induction false} ItemElementsFailure(items: seq<Datum>, k: nat, floatText: Float -> string)
    requires k <= |items| && ItemElements(items[..k], floatText).Failure?
    ensures ItemElements(items, floatText) == ItemElements(items[..k], floatText)
    decreases |items| - k
  {
    if k < |items| {
      assert items[..k + 1][..k] == items[..k];
      ItemElementsFailure(items, k + 1, floatText);
    } else {
      assert items[..k] == items;
    }
  }

  /** `val.each { |v| field << val2xml(v) }` */
  method ArrayChildren(items: seq<Datum>, floatText: Float -> string) returns (r: Result<seq<Element>, CouchError>)
    ensures r == ItemElements(items, floatText)
  {
    var children: seq<Element> := [];
    var i := 0;
    while i < |items|
      invariant 0 <= i <= |items|
      invariant ItemElements(items[..i], floatText) == Success(children)
    {
      assert items[..i + 1][..i] == items[..i];
      var e := ValueElement(items[i], floatText);
      if e.Failure? || e.value.None? {
        ItemElementsFailure(items, i + 1, floatText);
        return if e.Failure? then Failure(e.error) else Failure(NoMethodError("parent="));
      }
      children := children + [e.value.value];
      i := i + 1;
    }
    assert items[..i] == items;
    r := Success(children);
  }

  /** Doc.new: nil gives no fields, a Hash is used as it is, parsed XML is read, anything else raises TypeError. */
  method New(input: DocInput, toF: string -> Float) returns (r: Result<Doc, CouchError>)
    requires input.HashInput? ==> OrderedHash.UniqueKeys(input.entries)
    ensures input.OtherInput? <==> r.Failure?
    ensures input.OtherInput? ==> r.error == TypeError(input.className)
    ensures r.Success? ==> fresh(r.value)
    ensures input.NoInput? ==> r.value.hash == [] && r.value.id == None && r.value.revision == None
    ensures input.HashInput? ==> r.value.hash == input.entries && r.value.id == None && r.value.revision == None
    ensures input.XmlInput? ==>
      && r.value.hash == ParsedFields(input.root, toF)
      && r.value.id == Some(AttributeText(input.root, IdTag))
      && r.value.revision == Some(AttributeText(input.root, "rev"))
  {
    match input
    case NoInput =>
      var d := new Doc([], None, None);
      return Success(d);
    case HashInput(entries) =>
      var d := new Doc(entries, None, None);
      return Success(d);
    case XmlInput(root) =>
      var hash, id, revision := ParseDoc(root, toF);
      ParsedFieldsUnique(root, toF);
      var d := new Doc(hash, Some(id), Some(revision));
      return Success(d);
    case OtherInput(className) =>
      return Failure(TypeError(className));
  }

  /** Doc.create(id, hash): Doc.new(hash), then the id set. */
  method Create(id: string, input: DocInput, toF: string -> Float) returns (r: Result<Doc, CouchError>)
    requires input.HashInput? ==> OrderedHash.UniqueKeys(input.entries)
    ensures input.OtherInput? <==> r.Failure?
    ensures input.OtherInput? ==> r.error == TypeError(input.className)
    ensures r.Success? ==> fresh(r.value) && r.value.id == Some(id)
    ensures input.NoInput? ==> r.value.hash == [] && r.value.revision == None
    ensures input.HashInput? ==> r.value.hash == input.entries && r.value.revision == None
    ensures input.XmlInput? ==>
      r.value.hash == ParsedFields(input.root, toF) && r.value.revision == Some(AttributeText(input.root, "rev"))
  {
    r := New(input, toF);
    if r.Success? {
      r.value.SetId(Some(id));
    }
  }
}
