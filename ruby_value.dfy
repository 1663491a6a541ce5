/**
 * The Ruby values that records, find options and conditions hold, and the
 * comparison `<=>` that Range#include? and sort_by rely on.
 */
module RubyValue {
  import opened Wrappers
  import OrderedHash

  datatype Value =
    | Nil
    | Bool(b: bool)
    | Int(i: int)
    | Str(s: string)
    | Sym(name: string)
    | Pattern(source: string)                        // a Regexp literal
    | Span(first: Value, last: Value, exclusive: bool) // a Range: a..b, or a...b when exclusive
    | List(items: seq<Value>)                        // an Array
    | Dict(entries: seq<(Value, Value)>)             // a Hash, in insertion order
    | Ref(id: nat)                                   // any other object (a record, say), by identity

  /** Ruby truthiness: everything except nil and false. */
  predicate Truthy(v: Value) {
    !(v.Nil? || v == Bool(false))
  }

  /** Every Hash inside the value holds each key once, as a Ruby Hash always does. */
  predicate HashKeysUnique(v: Value) {
    match v
    case Span(first, last, _) => HashKeysUnique(first) && HashKeysUnique(last)
    case List(items) => forall i :: 0 <= i < |items| ==> HashKeysUnique(items[i])
    case Dict(entries) =>
      OrderedHash.UniqueKeys(entries) &&
      forall i :: 0 <= i < |entries| ==> HashKeysUnique(entries[i].0) && HashKeysUnique(entries[i].1)
    case _ => true
  }

  /**
   * Ruby's `==`. Arrays are equal element by element, Ranges by their ends
   * and exclusiveness, and Hashes of the same size are equal when each key
   * of the one is found in the other (by `eql?`, here structural equality)
   * with an equal value: the order of insertion does not matter.
   * Every other pair is equal only when identical.
   */
  predicate RubyEq(a: Value, b: Value) {
    match a
    case Span(first, last, exclusive) =>
      b.Span? && RubyEq(first, b.first) && RubyEq(last, b.last) && exclusive == b.exclusive
    case List(items) =>
      b.List? && |items| == |b.items| && forall i :: 0 <= i < |items| ==> RubyEq(items[i], b.items[i])
    case Dict(entries) =>
      b.Dict? && |entries| == |b.entries| &&
      forall i :: 0 <= i < |entries| ==>
        var other := OrderedHash.Get(b.entries, entries[i].0);
        other.Some? && RubyEq(entries[i].1, other.value)
    case _ => a == b
  }

  /** Array#include?: some item is `==` to x. */
  predicate Includes(items: seq<Value>, x: Value) {
    exists i :: 0 <= i < |items| && RubyEq(items[i], x)
  }

  /** Every Ruby value is `==` to itself. */
  lemma {:induction false} RubyEqReflexive(a: Value)
    requires HashKeysUnique(a)
    ensures RubyEq(a, a)
  {
    match a
    case Span(first, last, _) =>
      RubyEqReflexive(first);
      RubyEqReflexive(last);
    case List(items) =>
      forall i | 0 <= i < |items| ensures RubyEq(items[i], items[i]) {
        RubyEqReflexive(items[i]);
      }
    case Dict(entries) =>
      forall i | 0 <= i < |entries|
        ensures OrderedHash.Get(entries, entries[i].0) == Some(entries[i].1) && RubyEq(entries[i].1, entries[i].1)
      {
        OrderedHash.GetUnique(entries, i);
        RubyEqReflexive(entries[i].1);
      }
    case _ =>
  }

  /** `{:a => 1, :b => 2} == {:b => 2, :a => 1}`: Hash equality ignores the order of insertion. */
  lemma HashEqIgnoresOrder(ka: Value, va: Value, kb: Value, vb: Value)
    requires ka != kb && HashKeysUnique(va) && HashKeysUnique(vb)
    ensures RubyEq(Dict([(ka, va), (kb, vb)]), Dict([(kb, vb), (ka, va)]))
  {
    RubyEqReflexive(va);
    RubyEqReflexive(vb);
    assert OrderedHash.Get([(kb, vb), (ka, va)], ka) == Some(va);
  }

  /** String#<=> on the characters' codes (byte order for UTF-8 text). */
  function StrCmp(a: string, b: string): (c: int)
    ensures -1 <= c <= 1
  {
    if |a| == 0 && |b| == 0 then 0
    else if |a| == 0 then -1
    else if |b| == 0 then 1
    else if a[0] < b[0] then -1
    else if a[0] > b[0] then 1
    else StrCmp(a[1..], b[1..])
  }

  /** `<=>` of two values: integers numerically, strings lexicographically; any other pair is incomparable (nil). */
  function Cmp(a: Value, b: Value): (c: Option<int>)
    ensures c.Some? ==> -1 <= c.value <= 1
  {
    if a.Int? && b.Int? then Some(if a.i < b.i then -1 else if a.i > b.i then 1 else 0)
    else if a.Str? && b.Str? then Some(StrCmp(a.s, b.s))
    else None
  }

  /** Array#<=>: the first element pair that is not equal decides; nil if that pair is incomparable; then the lengths. */
  function TupleCmp(a: seq<Value>, b: seq<Value>): (c: Option<int>)
    ensures c.Some? ==> -1 <= c.value <= 1
  {
    if |a| == 0 || |b| == 0 then Some(if |a| < |b| then -1 else if |a| > |b| then 1 else 0)
    else match Cmp(a[0], b[0])
      case None => None
      case Some(c) => if c == 0 then TupleCmp(a[1..], b[1..]) else Some(c)
  }

  predicate TupleLe(a: seq<Value>, b: seq<Value>) {
    TupleCmp(a, b) == Some(-1) || TupleCmp(a, b) == Some(0)
  }

  function Negate(c: Option<int>): Option<int> {
    match c
    case None => None
    case Some(x) => Some(-x)
  }

  lemma {:induction false} StrCmpAntisymmetric(a: string, b: string)
    ensures StrCmp(b, a) == -StrCmp(a, b)
    ensures StrCmp(a, b) == 0 <==> a == b
  {
    if |a| > 0 && |b| > 0 && a[0] == b[0] {
      StrCmpAntisymmetric(a[1..], b[1..]);
      if a[1..] == b[1..] {
        assert a == [a[0]] + a[1..] && b == [b[0]] + b[1..];
      }
    }
  }

  lemma {:induction false} StrCmpTransitive(a: string, b: string, c: string)
    requires StrCmp(a, b) <= 0 && StrCmp(b, c) <= 0
    ensures StrCmp(a, c) <= 0
  {
    if |a| > 0 && |b| > 0 && |c| > 0 && a[0] == b[0] && b[0] == c[0] {
      StrCmpTransitive(a[1..], b[1..], c[1..]);
    }
  }

  /** `<=>` is antisymmetric, and 0 means equal values. */
  lemma CmpAntisymmetric(a: Value, b: Value)
    ensures Cmp(b, a) == Negate(Cmp(a, b))
    ensures Cmp(a, b) == Some(0) ==> a == b
  {
    if a.Str? && b.Str? {
      StrCmpAntisymmetric(a.s, b.s);
    }
  }

  /** `<=>` is transitive where it is defined. */
  lemma CmpTransitive(a: Value, b: Value, c: Value)
    requires Cmp(a, b) == Some(-1) || Cmp(a, b) == Some(0)
    requires Cmp(b, c) == Some(-1) || Cmp(b, c) == Some(0)
    ensures Cmp(a, c) == Some(-1) || Cmp(a, c) == Some(0)
  {
    if a.Str? {
      StrCmpTransitive(a.s, b.s, c.s);
    }
  }

  /** Array#<=> is antisymmetric: swapping the operands negates the answer, nil stays nil. */
  lemma {:induction false} TupleCmpAntisymmetric(a: seq<Value>, b: seq<Value>)
    ensures TupleCmp(b, a) == Negate(TupleCmp(a, b))
  {
    if |a| > 0 && |b| > 0 {
      CmpAntisymmetric(a[0], b[0]);
      TupleCmpAntisymmetric(a[1..], b[1..]);
    }
  }

  /** Array#<=> is transitive where it is defined, so sorting by it is meaningful. */
  lemma {:induction false} TupleLeTransitive(a: seq<Value>, b: seq<Value>, c: seq<Value>)
    requires TupleLe(a, b) && TupleLe(b, c)
    ensures TupleLe(a, c)
  {
    if |a| > 0 && |b| > 0 && |c| > 0 {
      var ab, bc := Cmp(a[0], b[0]), Cmp(b[0], c[0]);
      assert ab.Some? && bc.Some?;
      CmpTransitive(a[0], b[0], c[0]);
      CmpAntisymmetric(a[0], b[0]);
      CmpAntisymmetric(b[0], c[0]);
      if ab.value == 0 && bc.value == 0 {
        TupleLeTransitive(a[1..], b[1..], c[1..]);
      } else if ab.value == 0 {
        assert a[0] == b[0];
      } else if bc.value == 0 {
        assert b[0] == c[0];
      } else {
        CmpAntisymmetric(a[0], c[0]);
      }
    }
  }
}
