/**
 * The query compiler of ActiveRddb::Base (lib/rddb_playground.rb): the cache
 * key built from find's options, the per-document filter block with its kind
 * scoping and its four kinds of condition, and the order reduce.
 *
 * Regexp matching is a parameter `matches(text, source)`, Ruby's `inspect` is
 * a parameter `inspect`, and `to_s` of an order value that is neither a
 * String nor a Symbol is a parameter `toS`.
 */
module QueryFilter {
  import opened Wrappers
  import opened Text
  import opened RubyValue
  import opened RddbDocument
  import OrderedHash

  /** find's options: option name (the symbol's name) to value, in insertion order. */
  type Options = seq<(string, Value)>

  datatype Error =
    | UnknownView(name: string)              // no view is registered under the queried name
    | ConditionsNotAHash(conditions: Value)  // options[:conditions] is truthy but not a Hash, so `[]=` raises
    | NotAnAttributeName(key: Value)         // record.send(key) with a key that is neither Symbol nor String
    | Incomparable                           // sort_by compared two keys whose <=> is nil

  // ---------------------------------------------------------------- build_query_name

  /** One option rendered as `:key => value.inspect`. */
  function OptionText(key: string, value: Value, inspect: Value -> string): string {
    ":" + key + " => " + inspect(value)
  }

  function OptionTexts(options: Options, inspect: Value -> string): (texts: seq<string>)
    ensures |texts| == |options|
    ensures forall i :: 0 <= i < |options| ==> texts[i] == OptionText(options[i].0, options[i].1, inspect)
  {
    if |options| == 0 then [] else [OptionText(options[0].0, options[0].1, inspect)] + OptionTexts(options[1..], inspect)
  }

  /** build_query_name: the class name, then the options in their order when there are any. */
  function QueryName(className: string, options: Options, inspect: Value -> string): (key: string)
    ensures StartsWith(key, className)
    ensures key == className <==> |options| == 0
  {
    if |options| == 0 then className
    else
      var key := className + ": {" + Join(", ", OptionTexts(options, inspect)) + "}";
      assert key[..|className|] == className;
      key
  }

  /** The key starts with the class name and is exactly the class name when there are no options; otherwise ": {" follows it and "}" ends it. */
  lemma QueryNameShape(className: string, options: Options, inspect: Value -> string)
    ensures StartsWith(QueryName(className, options, inspect), className)
    ensures QueryName(className, options, inspect) == className <==> |options| == 0
    ensures |options| > 0 ==>
      var key := QueryName(className, options, inspect);
      |key| >= |className| + 4 && key[|className|..|className| + 3] == ": {" && key[|key| - 1] == '}'
  {
    var key := QueryName(className, options, inspect);
    assert key[..|className|] == className;
  }

  /** Two classes whose names hold no ':' never share a cache key, whatever their options: a Group query cannot reuse a User view. */
  lemma QueryNamesSeparateClasses(c1: string, o1: Options, c2: string, o2: Options, inspect: Value -> string)
    requires ':' !in c1 && ':' !in c2 && c1 != c2
    ensures QueryName(c1, o1, inspect) != QueryName(c2, o2, inspect)
  {
    var k1, k2 := QueryName(c1, o1, inspect), QueryName(c2, o2, inspect);
    assert k1[..|c1|] == c1 && k2[..|c2|] == c2;
    if |c1| == |c2| {
      assert k1[..|c1|] != k2[..|c2|];
    } else if |c1| < |c2| {
      assert k2[|c1|] == c2[|c1|] != ':';
      if |o1| > 0 { assert k1[|c1|] == ':'; }
    } else {
      assert k1[|c2|] == c1[|c2|] != ':';
      if |o2| > 0 { assert k2[|c2|] == ':'; }
    }
  }

  // ---------------------------------------------------------------- the filter block

  /** `conditions = options[:conditions] ||= {}` then `conditions[:clazz] = name`: the conditions the block checks. */
  function Conditions(className: string, options: Options): (r: Result<seq<(Value, Value)>, Error>)
    ensures r.Success? ==> OrderedHash.Get(r.value, Sym("clazz")) == Some(Str(className))
    ensures r.Failure? <==>
      var given := OrderedHash.Get(options, "conditions").GetOr(Nil);
      Truthy(given) && !given.Dict?
  {
    var given := OrderedHash.Get(options, "conditions").GetOr(Nil);
    if !Truthy(given) then Success([(Sym("clazz"), Str(className))])
    else if given.Dict? then
      OrderedHash.GetPut(given.entries, Sym("clazz"), Str(className), Sym("clazz"));
      Success(OrderedHash.Put(given.entries, Sym("clazz"), Str(className)))
    else Failure(ConditionsNotAHash(given))
  }

  /** The condition kinds the block tests: String, Regexp, Range and Array; every other value is skipped. */
  predicate Constraining(cond: Value) {
    cond.Str? || cond.Pattern? || cond.Span? || cond.List?
  }

  /** `record.send(key)` accepts a Symbol or a String naming the attribute. */
  function AttributeName(key: Value): Result<string, Error> {
    match key
    case Sym(n) => Success(n)
    case Str(s) => Success(s)
    case _ => Failure(NotAnAttributeName(key))
  }

  /** Range#include? for an inclusive (a..b) or exclusive (a...b) range, as first <= x and x <= last (or x < last). */
  predicate RangeIncludes(first: Value, last: Value, exclusive: bool, x: Value) {
    (Cmp(first, x) == Some(-1) || Cmp(first, x) == Some(0)) &&
    (Cmp(x, last) == Some(-1) || (!exclusive && Cmp(x, last) == Some(0)))
  }

  /**
   * Whether an attribute value passes one condition: a String by String#==,
   * a Regexp by `=~`, a Range by Range#include? and an Array by Array#include?.
   */
  predicate Satisfies(cond: Value, actual: Value, matches: (string, string) -> bool): (ok: bool)
    ensures !Constraining(cond) ==> ok
    ensures cond.Str? ==> (ok <==> actual == cond)
    ensures cond.Pattern? && ok ==> actual.Str?
    ensures cond.Span? && ok ==> Cmp(cond.first, actual).Some? && Cmp(actual, cond.last).Some?
  {
    match cond
    case Str(_) => actual == cond
    case Pattern(source) => actual.Str? && matches(actual.s, source)
    case Span(first, last, exclusive) => RangeIncludes(first, last, exclusive, actual)
    case List(items) => Includes(items, actual)
    case _ => true
  }

  /** An Array condition accepts each of its items. */
  lemma ListConditionAcceptsItem(items: seq<Value>, actual: Value, matches: (string, string) -> bool)
    requires actual in items && HashKeysUnique(actual)
    ensures Satisfies(List(items), actual, matches)
  {
    var i :| 0 <= i < |items| && items[i] == actual;
    RubyEqReflexive(actual);
  }

  /** `[{:a => 1, :b => 2}].include?({:b => 2, :a => 1})`: an Array condition accepts a Hash equal to an item in another order. */
  lemma ListConditionHashOrder(matches: (string, string) -> bool)
    ensures Satisfies(List([Dict([(Sym("a"), Int(1)), (Sym("b"), Int(2))])]), Dict([(Sym("b"), Int(2)), (Sym("a"), Int(1))]), matches)
  {
    var item := Dict([(Sym("a"), Int(1)), (Sym("b"), Int(2))]);
    HashEqIgnoresOrder(Sym("a"), Int(1), Sym("b"), Int(2));
    assert RubyEq([item][0], Dict([(Sym("b"), Int(2)), (Sym("a"), Int(1))]));
  }

  /** The block's verdict: conditions in order, stopping at the first that fails. */
  function Keep(conds: seq<(Value, Value)>, data: Attributes, matches: (string, string) -> bool): Result<bool, Error>
    decreases |conds|
  {
    if |conds| == 0 then Success(true)
    else if !Constraining(conds[0].1) then Keep(conds[1..], data, matches)
    else match AttributeName(conds[0].0)
      case Failure(e) => Failure(e)
      case Success(name) =>
        if Satisfies(conds[0].1, Attr(data, name), matches) then Keep(conds[1..], data, matches)
        else Success(false)
  }

  /** One condition, checked on its own. */
  predicate Holds(cond: (Value, Value), data: Attributes, matches: (string, string) -> bool) {
    !Constraining(cond.1) ||
    (AttributeName(cond.0).Success? && Satisfies(cond.1, Attr(data, AttributeName(cond.0).value), matches))
  }

  /** Every condition that is tested names its attribute with a Symbol or a String. */
  predicate NamesValid(conds: seq<(Value, Value)>) {
    forall i :: 0 <= i < |conds| && Constraining(conds[i].1) ==> AttributeName(conds[i].0).Success?
  }

  /** With well-named conditions, stopping at the first failure gives the same verdict as checking them all. */
  lemma {:induction false} KeepChecksAll(conds: seq<(Value, Value)>, data: Attributes, matches: (string, string) -> bool)
    requires NamesValid(conds)
    ensures Keep(conds, data, matches) == Success(forall i :: 0 <= i < |conds| ==> Holds(conds[i], data, matches))
    decreases |conds|
  {
    if |conds| > 0 {
      assert NamesValid(conds[1..]) by {
        forall i | 0 <= i < |conds[1..]| && Constraining(conds[1..][i].1)
          ensures AttributeName(conds[1..][i].0).Success?
        {
          assert conds[1..][i] == conds[i + 1];
        }
      }
      KeepChecksAll(conds[1..], data, matches);
      var all := forall i :: 0 <= i < |conds| ==> Holds(conds[i], data, matches);
      var rest := forall i :: 0 <= i < |conds[1..]| ==> Holds(conds[1..][i], data, matches);
      if Holds(conds[0], data, matches) {
        assert all == rest by {
          if rest {
            forall i | 0 <= i < |conds| ensures Holds(conds[i], data, matches) {
              if i > 0 { assert conds[i] == conds[1..][i - 1]; }
            }
          }
          if all {
            forall i | 0 <= i < |conds[1..]| ensures Holds(conds[1..][i], data, matches) {
              assert conds[1..][i] == conds[i + 1];
            }
          }
        }
      } else {
        assert !all;
      }
    }
  }

  /** A document the block keeps passes every condition, and every tested condition names its attribute properly. */
  lemma {:induction false} KeptPassesAll(conds: seq<(Value, Value)>, data: Attributes, matches: (string, string) -> bool)
    requires Keep(conds, data, matches) == Success(true)
    ensures NamesValid(conds)
    ensures forall i :: 0 <= i < |conds| ==> Holds(conds[i], data, matches)
    decreases |conds|
  {
    if |conds| > 0 {
      KeptPassesAll(conds[1..], data, matches);
      forall i | 0 <= i < |conds|
        ensures Holds(conds[i], data, matches)
        ensures Constraining(conds[i].1) ==> AttributeName(conds[i].0).Success?
      {
        if i > 0 { assert conds[i] == conds[1..][i - 1]; }
      }
    }
  }

  /** A condition whose value is none of String, Regexp, Range or Array (an Integer such as 47, a Symbol, nil) changes nothing. */
  lemma {:induction false} SkippedConditionIsInert(before: seq<(Value, Value)>, key: Value, cond: Value,
                                                   after: seq<(Value, Value)>, data: Attributes,
                                                   matches: (string, string) -> bool)
    requires !Constraining(cond)
    ensures Keep(before + [(key, cond)] + after, data, matches) == Keep(before + after, data, matches)
    decreases |before|
  {
    if |before| == 0 {
      assert before + [(key, cond)] + after == [(key, cond)] + after;
      assert ([(key, cond)] + after)[1..] == after;
      assert before + after == after;
    } else {
      SkippedConditionIsInert(before[1..], key, cond, after, data, matches);
      assert (before + [(key, cond)] + after)[1..] == before[1..] + [(key, cond)] + after;
      assert (before + after)[1..] == before[1..] + after;
    }
  }

  /** The block applied to a document's attributes: the conditions as built from the options, then the checks. */
  function Selects(className: string, options: Options, data: Attributes, matches: (string, string) -> bool): Result<bool, Error> {
    match Conditions(className, options)
    case Failure(e) => Failure(e)
    case Success(conds) => Keep(conds, data, matches)
  }

  /** Kind scoping: whatever the options, a document the block keeps has :clazz equal to the class name. */
  lemma KindScoped(className: string, options: Options, data: Attributes, matches: (string, string) -> bool)
    requires Selects(className, options, data, matches) == Success(true)
    ensures Attr(data, "clazz") == Str(className)
  {
    var conds := Conditions(className, options).value;
    KeptPassesAll(conds, data, matches);
    OrderedHash.GetIn(conds, Sym("clazz"));
    var i :| 0 <= i < |conds| && conds[i] == (Sym("clazz"), Str(className));
    assert Holds(conds[i], data, matches);
  }

  /** The conditions from position i on, one step: a skipped condition, a raise, a failed test or the rest. */
  lemma KeepFrom(conds: seq<(Value, Value)>, i: nat, data: Attributes, matches: (string, string) -> bool)
    requires i < |conds|
    ensures !Constraining(conds[i].1) ==> Keep(conds[i..], data, matches) == Keep(conds[i + 1..], data, matches)
    ensures Constraining(conds[i].1) && AttributeName(conds[i].0).Failure? ==>
      Keep(conds[i..], data, matches) == Failure(AttributeName(conds[i].0).error)
    ensures Constraining(conds[i].1) && AttributeName(conds[i].0).Success? ==>
      Keep(conds[i..], data, matches) ==
        if Satisfies(conds[i].1, Attr(data, AttributeName(conds[i].0).value), matches) then Keep(conds[i + 1..], data, matches)
        else Success(false)
  {
    assert conds[i..][0] == conds[i] && conds[i..][1..] == conds[i + 1..];
  }

  /** The body of the filter block after `result = record`: each condition in turn, stopping at the first that fails. */
  method CheckConditions(conditions: seq<(Value, Value)>, data: Attributes, matches: (string, string) -> bool)
    returns (r: Result<bool, Error>)
    ensures r == Keep(conditions, data, matches)
  {
    var i := 0;
    while i < |conditions|
      invariant 0 <= i <= |conditions|
      invariant Keep(conditions, data, matches) == Keep(conditions[i..], data, matches)
    {
      var (attribute, value) := conditions[i];
      KeepFrom(conditions, i, data, matches);
      if value.Str? || value.Pattern? || value.Span? || value.List? {
        var name := AttributeName(attribute);
        if name.Failure? {
          return Failure(name.error);
        }
        var actual := Attr(data, name.value);
        var passes :=
          if value.Str? then actual == value
          else if value.Pattern? then actual.Str? && matches(actual.s, value.source)
          else if value.Span? then RangeIncludes(value.first, value.last, value.exclusive, actual)
          else Includes(value.items, actual);
        assert passes == Satisfies(value, actual, matches);
        if !passes {
          return Success(false);
        }
      }
      i := i + 1;
    }
    assert conditions[i..] == [];
    return Success(true);
  }

  /**
   * The filter block: `result = record`, then each condition in turn, setting
   * `result = nil` and breaking at the first that fails.
   */
  method MapDocument(record: Document, className: string, options: Options, matches: (string, string) -> bool)
    returns (r: Result<Option<Document>, Error>)
    ensures r == match Selects(className, options, record.data, matches)
                 case Failure(e) => Failure(e)
                 case Success(keep) => Success(if keep then Some(record) else None)
  {
    var built := Conditions(className, options);
    if built.Failure? {
      return Failure(built.error);
    }
    var kept := CheckConditions(built.value, record.data, matches);
    if kept.Failure? {
      return Failure(kept.error);
    }
    r := Success(if kept.value then Some(record) else None);
  }

  // ---------------------------------------------------------------- the order reduce

  /** `\s` in a Ruby 1.8 regular expression: space, tab, line feed, carriage return, form feed. */
  predicate IsSpace(c: char) {
    c == ' ' || c == '\t' || c == '\n' || c == '\r' || c == '\U{000C}'
  }

  function LStrip(s: string): (r: string)
    ensures |r| <= |s| && r == s[|s| - |r|..]
    ensures |r| > 0 ==> !IsSpace(r[0])
  {
    if |s| > 0 && IsSpace(s[0]) then LStrip(s[1..]) else s
  }

  function RStrip(s: string): (r: string)
    ensures |r| <= |s| && r == s[..|r|]
    ensures |r| > 0 ==> !IsSpace(r[|r| - 1])
  {
    if |s| > 0 && IsSpace(s[|s| - 1]) then RStrip(s[..|s| - 1]) else s
  }

  function FirstComma(s: string): (c: nat)
    requires ',' in s
    ensures c < |s| && s[c] == ',' && ',' !in s[..c]
  {
    if s[0] == ',' then 0 else 1 + FirstComma(s[1..])
  }

  /**
   * The pieces between separators. The leftmost match of the separator \s*,\s* starts at
   * the whitespace just before the first comma and swallows the whitespace
   * after it, so a piece loses its trailing whitespace and the rest loses its
   * leading whitespace.
   */
  function SplitFields(s: string): seq<string>
    decreases |s|
  {
    if ',' !in s then [s]
    else
      var c := FirstComma(s);
      [RStrip(s[..c])] + SplitFields(LStrip(s[c + 1..]))
  }

  /** String#split without a limit drops the trailing empty pieces. */
  function DropTrailingEmpty(fields: seq<string>): (r: seq<string>)
    ensures |r| <= |fields| && r == fields[..|r|]
    ensures |r| > 0 ==> r[|r| - 1] != ""
  {
    if |fields| > 0 && fields[|fields| - 1] == "" then DropTrailingEmpty(fields[..|fields| - 1]) else fields
  }

  /** `text.split` on the separator \s*,\s* (a comma with the whitespace around it) */
  function SplitOrder(text: string): seq<string> {
    DropTrailingEmpty(SplitFields(text))
  }

  /** A prefix of a comma-free text is comma-free. */
  lemma NoCommaInPrefix(t: string, n: nat)
    requires ',' !in t && n <= |t|
    ensures ',' !in t[..n]
  {
    forall k | 0 <= k < n ensures t[..n][k] != ',' {
      assert t[..n][k] == t[k];
    }
  }

  /** A comma-free field before comma-free fields keeps them all comma-free. */
  lemma ConsNoComma(head: string, tail: seq<string>)
    requires ',' !in head
    requires forall i :: 0 <= i < |tail| ==> ',' !in tail[i]
    ensures forall i :: 0 <= i < |[head] + tail| ==> ',' !in ([head] + tail)[i]
  {
    forall i | 0 <= i < |[head] + tail| ensures ',' !in ([head] + tail)[i] {
      if i > 0 { assert ([head] + tail)[i] == tail[i - 1]; }
    }
  }

  /** No attribute name taken from an order string holds a comma. */
  lemma {:induction false} SplitFieldsHaveNoComma(s: string)
    ensures forall i :: 0 <= i < |SplitFields(s)| ==> ',' !in SplitFields(s)[i]
    decreases |s|
  {
    if ',' in s {
      var c := FirstComma(s);
      var rest := LStrip(s[c + 1..]);
      SplitFieldsHaveNoComma(rest);
      var pre := s[..c];
      var head := RStrip(pre);
      NoCommaInPrefix(pre, |head|);
      SplitFieldsStep(s, c);
      ConsNoComma(head, SplitFields(rest));
    }
  }

  /** A name that is neither blank at its ends nor holds a comma survives `split` unchanged. */
  predicate PlainName(name: string) {
    ',' !in name && (|name| > 0 ==> !IsSpace(name[0]) && !IsSpace(name[|name| - 1]))
  }

  /** The first comma of `n + ", " + rest` is the one after n when n holds none. */
  lemma FirstCommaAfterName(n: string, rest: string)
    requires ',' !in n
    ensures ',' in n + ", " + rest && FirstComma(n + ", " + rest) == |n|
  {
    var s := n + ", " + rest;
    assert s[|n|] == ',';
  }

  /** The text after a separator's comma loses exactly the one space that `Join` put there. */
  lemma LStripAfterSeparator(rest: string)
    requires rest == "" || !IsSpace(rest[0])
    ensures LStrip(" " + rest) == rest
  {
    assert (" " + rest)[1..] == rest;
  }

  /** A ", "-join of names whose first is plain does not start with whitespace. */
  lemma JoinStartsPlain(names: seq<string>)
    requires |names| > 0 && PlainName(names[0])
    ensures Join(", ", names) == "" || !IsSpace(Join(", ", names)[0])
  {
    if |names| > 1 && names[0] == "" {
      assert Join(", ", names) == "" + ", " + Join(", ", names[1..]);
    }
  }

  lemma RStripPlain(n: string)
    requires |n| == 0 || !IsSpace(n[|n| - 1])
    ensures RStrip(n) == n
  {
  }

  /** One step of SplitFields on a text with a comma. */
  lemma SplitFieldsStep(s: string, c: nat)
    requires ',' in s && c == FirstComma(s)
    ensures SplitFields(s) == [RStrip(s[..c])] + SplitFields(LStrip(s[c + 1..]))
  {
  }

  /** The parts of `n + ", " + rest` around its separator's comma. */
  lemma SeparatorParts(n: string, rest: string)
    ensures (n + ", " + rest)[..|n|] == n
    ensures (n + ", " + rest)[|n| + 1..] == " " + rest
  {
  }

  /** Splitting a ", "-joined list of plain names gives the names back. */
  lemma {:induction false} SplitFieldsJoin(names: seq<string>)
    requires |names| > 0
    requires forall i :: 0 <= i < |names| ==> PlainName(names[i])
    ensures SplitFields(Join(", ", names)) == names
    decreases |names|
  {
    var n := names[0];
    assert PlainName(n);
    if |names| == 1 {
      assert Join(", ", names) == n;
    } else {
      var tail := names[1..];
      assert names == [n] + tail;
      assert forall i :: 0 <= i < |tail| ==> PlainName(tail[i]) by {
        forall i | 0 <= i < |tail| ensures PlainName(tail[i]) { assert tail[i] == names[i + 1]; }
      }
      var rest := Join(", ", tail);
      var s := n + ", " + rest;
      assert Join(", ", names) == s;
      SplitFieldsJoin(tail);
      JoinStartsPlain(tail);
      LStripAfterSeparator(rest);
      RStripPlain(n);
      FirstCommaAfterName(n, rest);
      SeparatorParts(n, rest);
      SplitFieldsStep(s, |n|);
    }
  }

  /** `"last_name, first_name"`-style orders: `split` recovers the attribute names in order. */
  lemma SplitOrderJoin(names: seq<string>)
    requires |names| > 0 && names[|names| - 1] != ""
    requires forall i :: 0 <= i < |names| ==> PlainName(names[i])
    ensures SplitOrder(Join(", ", names)) == names
  {
    SplitFieldsJoin(names);
  }

  /** `order.to_s` */
  function OrderText(order: Value, toS: Value -> string): string {
    match order
    case Str(s) => s
    case Sym(n) => n
    case _ => toS(order)
  }

  /** The attributes the reduce sorts by, when `options[:order]` is set. */
  function OrderAttributes(options: Options, toS: Value -> string): Option<seq<string>> {
    var order := OrderedHash.Get(options, "order").GetOr(Nil);
    if Truthy(order) then Some(SplitOrder(OrderText(order, toS))) else None
  }

  /** The sort_by key of a document: its values for the order attributes, nil where absent. */
  function SortKey(attrs: seq<string>, data: Attributes): (key: seq<Value>)
    ensures |key| == |attrs|
    ensures forall i :: 0 <= i < |attrs| ==> key[i] == Attr(data, attrs[i])
  {
    seq(|attrs|, i requires 0 <= i < |attrs| => Attr(data, attrs[i]))
  }

  /** Ascending by key tuple: every earlier document's key is <= every later one's. */
  ghost predicate SortedBy(docs: seq<Document>, attrs: seq<string>)
    reads docs
  {
    forall i, j :: 0 <= i < j < |docs| ==> TupleLe(SortKey(attrs, docs[i].data), SortKey(attrs, docs[j].data))
  }

  /** Every two documents' keys can be compared with <=>. */
  ghost predicate AllComparable(docs: seq<Document>, attrs: seq<string>)
    reads docs
  {
    forall i, j :: 0 <= i < |docs| && 0 <= j < |docs| ==>
      TupleCmp(SortKey(attrs, docs[i].data), SortKey(attrs, docs[j].data)).Some?
  }

  /** `sort_by`'s keys: the key of each record, computed once, at the record's position. */
  ghost predicate KeysOf(keys: seq<seq<Value>>, docs: seq<Document>, attrs: seq<string>)
    reads docs
  {
    |keys| == |docs| && forall m :: 0 <= m < |docs| ==> keys[m] == SortKey(attrs, docs[m].data)
  }

  lemma KeyAt(keys: seq<seq<Value>>, docs: seq<Document>, attrs: seq<string>, m: nat)
    requires KeysOf(keys, docs, attrs) && m < |docs|
    ensures keys[m] == SortKey(attrs, docs[m].data)
  {
  }

  /** A slot found among the keys is a slot among the records' keys. */
  lemma SlotBySortKey(keys: seq<seq<Value>>, sorted: seq<Document>, attrs: seq<string>, j: nat, x: Document)
    requires KeysOf(keys, sorted, attrs) && j <= |sorted|
    requires forall m :: 0 <= m < j ==> TupleLe(keys[m], SortKey(attrs, x.data))
    requires j < |keys| ==> TupleCmp(SortKey(attrs, x.data), keys[j]) == Some(-1)
    ensures forall m :: 0 <= m < j ==> TupleLe(SortKey(attrs, sorted[m].data), SortKey(attrs, x.data))
    ensures j < |sorted| ==> TupleCmp(SortKey(attrs, x.data), SortKey(attrs, sorted[j].data)) == Some(-1)
  {
    forall m | 0 <= m < j ensures TupleLe(SortKey(attrs, sorted[m].data), SortKey(attrs, x.data)) {
      KeyAt(keys, sorted, attrs, m);
    }
  }

  /** Inserting a record and its key at the same position keeps the keys beside their records. */
  lemma KeysOfInsert(keys: seq<seq<Value>>, sorted: seq<Document>, attrs: seq<string>, j: nat, x: Document)
    requires KeysOf(keys, sorted, attrs) && j <= |sorted|
    ensures KeysOf(keys[..j] + [SortKey(attrs, x.data)] + keys[j..], sorted[..j] + [x] + sorted[j..], attrs)
  {
    var ks, ds := keys[..j] + [SortKey(attrs, x.data)] + keys[j..], sorted[..j] + [x] + sorted[j..];
    forall m | 0 <= m < |ds| ensures ks[m] == SortKey(attrs, ds[m].data) {
      if m < j {
        assert ks[m] == keys[m] && ds[m] == sorted[m];
      } else if m > j {
        assert ks[m] == keys[m - 1] && ds[m] == sorted[m - 1];
      }
    }
  }

  /** The record at position k after inserting x at position j. */
  lemma InsertedAt(sorted: seq<Document>, j: nat, x: Document, k: nat)
    requires j <= |sorted| && k <= |sorted|
    ensures (sorted[..j] + [x] + sorted[j..])[k] == if k < j then sorted[k] else if k == j then x else sorted[k - 1]
  {
  }

  /** Two positions of a sorted sequence are in order. */
  lemma SortedPair(sorted: seq<Document>, attrs: seq<string>, a: nat, b: nat)
    requires SortedBy(sorted, attrs) && a < b < |sorted|
    ensures TupleLe(SortKey(attrs, sorted[a].data), SortKey(attrs, sorted[b].data))
  {
  }

  /** One pair of positions after the insertion is in order. */
  lemma InsertedPairOrdered(sorted: seq<Document>, j: nat, x: Document, attrs: seq<string>, a: nat, b: nat)
    requires j <= |sorted| && SortedBy(sorted, attrs)
    requires forall m :: 0 <= m < j ==> TupleLe(SortKey(attrs, sorted[m].data), SortKey(attrs, x.data))
    requires j < |sorted| ==> TupleCmp(SortKey(attrs, x.data), SortKey(attrs, sorted[j].data)) == Some(-1)
    requires a < b <= |sorted|
    ensures var r := sorted[..j] + [x] + sorted[j..];
      TupleLe(SortKey(attrs, r[a].data), SortKey(attrs, r[b].data))
  {
    InsertedAt(sorted, j, x, a);
    InsertedAt(sorted, j, x, b);
    var kx := SortKey(attrs, x.data);
    if b < j {
      SortedPair(sorted, attrs, a, b);
    } else if b == j {
    } else if a == j {
      if b - 1 > j {
        SortedPair(sorted, attrs, j, b - 1);
        TupleLeTransitive(kx, SortKey(attrs, sorted[j].data), SortKey(attrs, sorted[b - 1].data));
      }
    } else if a < j {
      SortedPair(sorted, attrs, a, j);
      if b - 1 > j {
        SortedPair(sorted, attrs, j, b - 1);
        TupleLeTransitive(SortKey(attrs, sorted[a].data), SortKey(attrs, sorted[j].data), SortKey(attrs, sorted[b - 1].data));
      }
    } else {
      SortedPair(sorted, attrs, a - 1, b - 1);
    }
  }

  /** Inserting x at a position where everything before is <= x and x < the next keeps the order. */
  lemma InsertKeepsOrder(sorted: seq<Document>, j: nat, x: Document, attrs: seq<string>)
    requires j <= |sorted| && SortedBy(sorted, attrs)
    requires forall m :: 0 <= m < j ==> TupleLe(SortKey(attrs, sorted[m].data), SortKey(attrs, x.data))
    requires j < |sorted| ==> TupleCmp(SortKey(attrs, x.data), SortKey(attrs, sorted[j].data)) == Some(-1)
    ensures SortedBy(sorted[..j] + [x] + sorted[j..], attrs)
  {
    var r := sorted[..j] + [x] + sorted[j..];
    forall a, b | 0 <= a < b < |r| ensures TupleLe(SortKey(attrs, r[a].data), SortKey(attrs, r[b].data)) {
      InsertedPairOrdered(sorted, j, x, attrs, a, b);
    }
  }

  /**
   * `records.sort_by { |record| key }`: a permutation of the records in
   * ascending key order. Ruby's sort is not stable and neither is this
   * specification; it fails when two keys it compares have no order.
   */
  method SortBy(records: seq<Document>, attrs: seq<string>) returns (r: Result<seq<Document>, Error>)
    ensures r.Success? ==> multiset(r.value) == multiset(records) && SortedBy(r.value, attrs)
    ensures r.Failure? ==> r.error == Incomparable && !AllComparable(records, attrs)
  {
    var sorted: seq<Document> := [];
    var keys: seq<seq<Value>> := [];
    var i := 0;
    while i < |records|
      invariant 0 <= i <= |records|
      invariant multiset(sorted) == multiset(records[..i])
      invariant SortedBy(sorted, attrs)
      invariant KeysOf(keys, sorted, attrs)
    {
      var x := records[i];
      var key := SortKey(attrs, x.data);
      var slot := FindSlot(keys, key);
      if slot.Failure? {
        KeyAt(keys, sorted, attrs, slot.error);
        IncomparableWitness(records, i, sorted, slot.error, attrs);
        return Failure(Incomparable);
      }
      InsertStep(records, i, sorted, keys, attrs, slot.value);
      sorted := sorted[..slot.value] + [x] + sorted[slot.value..];
      keys := keys[..slot.value] + [key] + keys[slot.value..];
      i := i + 1;
    }
    assert records[..i] == records;
    r := Success(sorted);
  }

  /** One step of the insertion: the records, their keys and the order all stay in step. */
  lemma InsertStep(records: seq<Document>, i: nat, sorted: seq<Document>, keys: seq<seq<Value>>, attrs: seq<string>, j: nat)
    requires i < |records|
    requires multiset(sorted) == multiset(records[..i]) && SortedBy(sorted, attrs) && KeysOf(keys, sorted, attrs)
    requires j <= |keys|
    requires forall m :: 0 <= m < j ==> TupleLe(keys[m], SortKey(attrs, records[i].data))
    requires j < |keys| ==> TupleCmp(SortKey(attrs, records[i].data), keys[j]) == Some(-1)
    ensures var sorted' := sorted[..j] + [records[i]] + sorted[j..];
      && multiset(sorted') == multiset(records[..i + 1])
      && SortedBy(sorted', attrs)
      && KeysOf(keys[..j] + [SortKey(attrs, records[i].data)] + keys[j..], sorted', attrs)
  {
    var x := records[i];
    SlotBySortKey(keys, sorted, attrs, j, x);
    InsertKeepsOrder(sorted, j, x, attrs);
    InsertAddsOne(sorted, j, x, records, i);
    KeysOfInsert(keys, sorted, attrs, j, x);
  }

  /**
   * Where a record with the given key goes among the sorted keys: after
   * every key <= it and before the first greater one; or, on failure, the
   * position of a key that cannot be compared with it.
   */
  method FindSlot(keys: seq<seq<Value>>, key: seq<Value>) returns (slot: Result<nat, nat>)
    ensures slot.Success? ==>
      && slot.value <= |keys|
      && (forall m :: 0 <= m < slot.value ==> TupleLe(keys[m], key))
      && (slot.value < |keys| ==> TupleCmp(key, keys[slot.value]) == Some(-1))
    ensures slot.Failure? ==> slot.error < |keys| && TupleCmp(key, keys[slot.error]).None?
  {
    var j := 0;
    while j < |keys|
      invariant 0 <= j <= |keys|
      invariant forall m :: 0 <= m < j ==> TupleLe(keys[m], key)
    {
      var c := TupleCmp(key, keys[j]);
      if c.None? {
        return Failure(j);
      }
      if c == Some(-1) {
        return Success(j);
      }
      NotBeforeIsLe(key, keys[j]);
      j := j + 1;
    }
    slot := Success(j);
  }

  /** A key that is not below another is at or above it. */
  lemma NotBeforeIsLe(key: seq<Value>, other: seq<Value>)
    requires TupleCmp(key, other).Some? && TupleCmp(key, other) != Some(-1)
    ensures TupleLe(other, key)
  {
    TupleCmpAntisymmetric(key, other);
  }

  /** Inserting records[i] into a permutation of records[..i] gives a permutation of records[..i + 1]. */
  lemma InsertAddsOne(sorted: seq<Document>, j: nat, x: Document, records: seq<Document>, i: nat)
    requires j <= |sorted| && i < |records| && x == records[i]
    requires multiset(sorted) == multiset(records[..i])
    ensures multiset(sorted[..j] + [x] + sorted[j..]) == multiset(records[..i + 1])
  {
    assert sorted == sorted[..j] + sorted[j..];
    assert records[..i + 1] == records[..i] + [x];
  }

  /** A key that cannot be compared with one of the records already sorted shows two records without an order. */
  lemma IncomparableWitness(records: seq<Document>, i: nat, sorted: seq<Document>, j: nat, attrs: seq<string>)
    requires i < |records| && j < |sorted|
    requires multiset(sorted) == multiset(records[..i])
    requires TupleCmp(SortKey(attrs, records[i].data), SortKey(attrs, sorted[j].data)).None?
    ensures !AllComparable(records, attrs)
  {
    assert sorted[j] in multiset(records[..i]);
    var k :| 0 <= k < i && records[..i][k] == sorted[j];
    assert TupleCmp(SortKey(attrs, records[i].data), SortKey(attrs, records[k].data)).None?;
  }
}
