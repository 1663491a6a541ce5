/**
 * Rddb::Document, the record body kept in the store. Its gem is not part of
 * this model; what the query layer relies on is that a document is a mutable
 * attribute bag, that reading an attribute it lacks gives nil, and that
 * symbol and string attribute names address the same attribute.
 */
module RddbDocument {
  import opened Wrappers
  import opened RubyValue
  import OrderedHash

  /** Attribute name to value, in insertion order. */
  type Attributes = seq<(string, Value)>

  /** `document.send(name)`: the attribute's value, or nil when it is absent. */
  function Attr(data: Attributes, name: string): (v: Value)
    ensures name !in OrderedHash.Keys(data) ==> v == Nil
  {
    OrderedHash.Get(data, name).GetOr(Nil)
  }

  class Document {
    var data: Attributes

    /** Rddb::Document.new(attributes): a Hash, so each attribute name appears once. */
    constructor (attributes: Attributes)
      requires OrderedHash.UniqueKeys(attributes)
      ensures data == attributes
    {
      data := attributes;
    }

    /** document[name] = value */
    method Set(name: string, value: Value)
      modifies this
      ensures data == OrderedHash.Put(old(data), name, value)
      ensures OrderedHash.UniqueKeys(old(data)) ==> OrderedHash.UniqueKeys(data)
    {
      if OrderedHash.UniqueKeys(data) {
        OrderedHash.PutUnique(data, name, value);
      }
      data := OrderedHash.Put(data, name, value);
    }
  }
}
