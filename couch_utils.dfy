/** CouchUtils.parse_val: the value of a field or cell element, read from its text and number children. */
module CouchUtils {
  import opened Wrappers
  import opened CouchXml

  /** What one child adds to `vala`: its text for a text child, its text as a number for a number child, nothing otherwise. */
  function Contribution(child: Element, toF: string -> Float): (c: Option<Datum>)
    ensures c.Some? <==> child.name == TextTag || child.name == NumberTag
  {
    if child.name == TextTag then Some(if child.text.Some? then Str(child.text.value) else Nil)
    else if child.name == NumberTag then Some(Real(toF(child.text.GetOr(""))))  // nil.to_f is "".to_f, 0.0
    else None
  }

  /** `vala` after every child: the contributions in document order. */
  function Contributions(children: seq<Element>, toF: string -> Float): (vala: seq<Datum>)
    ensures |vala| <= |children|
    decreases |children|
  {
    if |children| == 0 then []
    else
      var c := Contribution(children[|children| - 1], toF);
      Contributions(children[..|children| - 1], toF) + (if c.Some? then [c.value] else [])
  }

  /** The answer from `vala`: the array when it has more than one value, else its only value or nil. */
  function Collapse(vala: seq<Datum>): (v: Datum)
    ensures |vala| > 1 ==> v == Many(vala)
    ensures |vala| == 1 ==> v == vala[0]
    ensures |vala| == 0 ==> v == Nil
  {
    if |vala| > 1 then Many(vala) else if |vala| == 1 then vala[0] else Nil
  }

  /** The value parse_val reads from an element. */
  function ParsedValue(field: Element, toF: string -> Float): Datum {
    Collapse(Contributions(field.children, toF))
  }

  /** Contributions of two runs of children are those of the first, then those of the second. */
  lemma {:induction false} ContributionsAppend(a: seq<Element>, b: seq<Element>, toF: string -> Float)
    ensures Contributions(a + b, toF) == Contributions(a, toF) + Contributions(b, toF)
    decreases |b|
  {
    if |b| > 0 {
      var b' := b[..|b| - 1];
      assert (a + b)[..|a + b| - 1] == a + b';
      ContributionsAppend(a, b', toF);
    } else {
      assert a + b == a;
    }
  }

  /** Children other than text and number add nothing, wherever they are. */
  lemma OtherChildIgnored(before: seq<Element>, child: Element, after: seq<Element>, toF: string -> Float)
    requires child.name != TextTag && child.name != NumberTag
    ensures Contributions(before + [child] + after, toF) == Contributions(before + after, toF)
  {
    ContributionsAppend(before + [child], after, toF);
    ContributionsAppend(before, after, toF);
    assert (before + [child])[..|before|] == before;
  }

  /** Every value comes from a text or number child, and every such child gives one. */
  lemma {:induction false} ContributionsCount(children: seq<Element>, toF: string -> Float)
    ensures |Contributions(children, toF)| == |set i | 0 <= i < |children| && (children[i].name == TextTag || children[i].name == NumberTag)|
    decreases |children|
  {
    if |children| > 0 {
      var n := |children| - 1;
      var init := children[..n];
      ContributionsCount(init, toF);
      var s := set i | 0 <= i < |children| && (children[i].name == TextTag || children[i].name == NumberTag);
      var s' := set i | 0 <= i < |init| && (init[i].name == TextTag || init[i].name == NumberTag);
      if children[n].name == TextTag || children[n].name == NumberTag {
        assert s == s' + {n};
      } else {
        assert s == s';
      }
    }
  }

  /** parse_val: collects the values of the text and number children in order, then collapses them. */
  method ParseVal(field: Element, toF: string -> Float) returns (v: Datum)
    ensures v == ParsedValue(field, toF)
  {
    var vala: seq<Datum> := [];
    var i := 0;
    while i < |field.children|
      invariant 0 <= i <= |field.children|
      invariant vala == Contributions(field.children[..i], toF)
    {
      var child := field.children[i];
      assert field.children[..i + 1][..i] == field.children[..i];
      if child.name == TextTag {
        vala := vala + [if child.text.Some? then Str(child.text.value) else Nil];
      } else if child.name == NumberTag {
        vala := vala + [Real(toF(child.text.GetOr("")))];
      }
      i := i + 1;
    }
    assert field.children[..i] == field.children;
    if |vala| > 1 {
      v := Many(vala);
    } else if |vala| == 1 {
      v := vala[0];
    } else {
      v := Nil;
    }
  }
}
