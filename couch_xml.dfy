/**
 * The values and XML shapes the CouchDb-Ruby client exchanges with the
 * server. REXML is not part of this model: a parsed or built document is
 * an element tree (name, attributes in order, child elements, text), and
 * values are the Ruby objects a document field can hold.
 */
module CouchXml {
  import opened Wrappers
  import OrderedHash

  /** An IEEE double, by its bits; no arithmetic on it is modelled. */
  datatype Float = Float(bits: bv64)

  /** A Ruby value held in a Couch document or row. */
  datatype Datum =
    | Nil
    | Str(s: string)
    | Integer(i: int)
    | Real(f: Float)
    | Many(items: seq<Datum>)        // an Array
    | Other(className: string)       // any other object, known by its class name

  /** A hash key: a Symbol or a String of the same name are different keys. */
  datatype Key = Sym(name: string) | Text(s: string)

  /** An element: its name, its attributes in order, its child elements and its text (nil when it has none). */
  datatype Element = Element(name: string, attributes: seq<(string, string)>, children: seq<Element>, text: Option<string>)

  datatype CouchError =
    | TypeError(className: string)   // raise TypeError.new(x.class.name)
    | NotSupported                   // throw "Not supported" for an array inside an array
    | NoMethodError(name: string)    // a method called on nil

  /** The tag and attribute names of const.rb. */
  const IdTag := "id"
  const DocTag := "doc"
  const TableTag := "table"
  const TrTag := "tr"
  const PreviousRevTag := "previous_rev"
  const FieldTag := "field"
  const TextTag := "text"
  const NumberTag := "number"

  /** `x.class.name` (Integer is Fixnum within 62 bits and a sign, Bignum beyond). */
  function ClassName(d: Datum): string {
    match d
    case Nil => "NilClass"
    case Str(_) => "String"
    case Integer(i) => if -0x4000_0000_0000_0000 <= i < 0x4000_0000_0000_0000 then "Fixnum" else "Bignum"
    case Real(_) => "Float"
    case Many(_) => "Array"
    case Other(c) => c
  }

  /** `element.attribute(name).to_s`: the attribute's value, "" when it is absent. */
  function AttributeText(e: Element, name: string): (t: string)
    ensures name !in OrderedHash.Keys(e.attributes) ==> t == ""
  {
    OrderedHash.Get(e.attributes, name).GetOr("")
  }

  /** The name a key renders as (Symbol#to_s, String#to_s). */
  function KeyText(k: Key): string {
    match k
    case Sym(n) => n
    case Text(s) => s
  }
}
