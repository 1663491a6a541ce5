/**
 * Rddb::Database, the store the query layer runs on. Its gem is not part of
 * this model; it is modelled as the query layer uses it: an ordered sequence
 * of documents (`<<`), a registry of named views (`create_view`, `views[]`,
 * `reduce_with`) and `query`, which runs a view's map block over every
 * document in store order, keeps the non-nil results and then applies the
 * view's reduce when it has one. The only views built are those of
 * build_query, so a view is the data its blocks close over.
 */
module Rddb {
  import opened Wrappers
  import opened RubyValue
  import opened RddbDocument
  import opened QueryFilter

  /** A view built by build_query: its filter block is fixed by the class name and options, its reduce by the order attributes. */
  datatype View = View(className: string, options: Options, order: Option<seq<string>>)

  /** The documents a view's map block keeps, in store order; the first document whose block raises makes the query raise. */
  ghost function Kept(view: View, docs: seq<Document>, matches: (string, string) -> bool): (r: Result<seq<Document>, Error>)
    reads docs
    ensures r.Success? ==> forall i :: 0 <= i < |r.value| ==> r.value[i] in docs
    decreases |docs|
  {
    if |docs| == 0 then Success([])
    else match Kept(view, docs[..|docs| - 1], matches)
      case Failure(e) => Failure(e)
      case Success(prefix) =>
        match Selects(view.className, view.options, docs[|docs| - 1].data, matches)
        case Failure(e) => Failure(e)
        case Success(keep) => Success(if keep then prefix + [docs[|docs| - 1]] else prefix)
  }

  /** What `query` answers for a view over the given documents. */
  ghost predicate Answers(view: View, docs: seq<Document>, matches: (string, string) -> bool, r: Result<seq<Document>, Error>)
    reads docs, if r.Success? then r.value else []
  {
    var evaluated := Kept(view, docs, matches);
    if evaluated.Failure? then r == Failure(evaluated.error)
    else if view.order.None? then r == evaluated
    else
      && (r.Success? ==> multiset(r.value) == multiset(evaluated.value) && SortedBy(r.value, view.order.value))
      && (r.Failure? ==> r.error == Incomparable && !AllComparable(evaluated.value, view.order.value))
  }

  /** One more document: the block runs on it only when every earlier one ran without raising. */
  lemma KeptStep(view: View, docs: seq<Document>, i: nat, matches: (string, string) -> bool)
    requires i < |docs|
    ensures Kept(view, docs[..i + 1], matches) ==
      match Kept(view, docs[..i], matches)
      case Failure(e) => Failure(e)
      case Success(prefix) =>
        match Selects(view.className, view.options, docs[i].data, matches)
        case Failure(e) => Failure(e)
        case Success(keep) => Success(if keep then prefix + [docs[i]] else prefix)
  {
    assert docs[..i + 1][..i] == docs[..i];
  }

  /** The step of `query`'s loop: what the map block returned for docs[i] extends or ends the evaluation. */
  lemma KeptStepMapped(view: View, docs: seq<Document>, i: nat, matches: (string, string) -> bool,
                       kept: seq<Document>, mapped: Result<Option<Document>, Error>)
    requires i < |docs| && Kept(view, docs[..i], matches) == Success(kept)
    requires mapped == match Selects(view.className, view.options, docs[i].data, matches)
                       case Failure(e) => Failure(e)
                       case Success(keep) => Success(if keep then Some(docs[i]) else None)
    ensures mapped.Failure? ==> Kept(view, docs[..i + 1], matches) == Failure(mapped.error)
    ensures mapped.Success? && mapped.value.None? ==> Kept(view, docs[..i + 1], matches) == Success(kept)
    ensures mapped.Success? && mapped.value.Some? ==> Kept(view, docs[..i + 1], matches) == Success(kept + [mapped.value.value])
  {
    KeptStep(view, docs, i, matches);
  }

  /** Once a prefix of the store makes the block raise, the whole query raises with that error. */
  lemma {:induction false} KeptFailureSticks(view: View, docs: seq<Document>, k: nat, matches: (string, string) -> bool)
    requires k <= |docs| && Kept(view, docs[..k], matches).Failure?
    ensures Kept(view, docs, matches) == Kept(view, docs[..k], matches)
    decreases |docs| - k
  {
    if k < |docs| {
      assert docs[..k + 1][..k] == docs[..k];
      KeptFailureSticks(view, docs, k + 1, matches);
    } else {
      assert docs[..k] == docs;
    }
  }

  /** `a` is `b` with some elements left out, the rest in their order. */
  ghost predicate IsSubsequence<T>(a: seq<T>, b: seq<T>)
    decreases |b|
  {
    if |a| == 0 then true
    else if |b| == 0 then false
    else (a[|a| - 1] == b[|b| - 1] && IsSubsequence(a[..|a| - 1], b[..|b| - 1])) || IsSubsequence(a, b[..|b| - 1])
  }

  /** A successful evaluation keeps the documents in store order. */
  lemma {:induction false} KeptInStoreOrder(view: View, docs: seq<Document>, matches: (string, string) -> bool)
    requires Kept(view, docs, matches).Success?
    ensures IsSubsequence(Kept(view, docs, matches).value, docs)
    decreases |docs|
  {
    if |docs| > 0 {
      var init := docs[..|docs| - 1];
      KeptInStoreOrder(view, init, matches);
      var kept := Kept(view, docs, matches).value;
      if kept != Kept(view, init, matches).value {
        assert kept[..|kept| - 1] == Kept(view, init, matches).value;
      }
    }
  }

  /**
   * A successful evaluation keeps exactly the documents the block selects,
   * and every one of them is of the view's class.
   */
  lemma {:induction false} KeptSelects(view: View, docs: seq<Document>, matches: (string, string) -> bool)
    requires Kept(view, docs, matches).Success?
    ensures forall d :: d in Kept(view, docs, matches).value <==>
      d in docs && Selects(view.className, view.options, d.data, matches) == Success(true)
    ensures forall d :: d in Kept(view, docs, matches).value ==> Attr(d.data, "clazz") == Str(view.className)
    decreases |docs|
  {
    if |docs| > 0 {
      var init, last := docs[..|docs| - 1], docs[|docs| - 1];
      KeptSelects(view, init, matches);
      assert docs == init + [last];
      if Selects(view.className, view.options, last.data, matches) == Success(true) {
        KindScoped(view.className, view.options, last.data, matches);
      }
    }
  }

  /** The loop of `query` over the given documents: the map block on each, in order. */
  method KeepMatching(view: View, docs: seq<Document>, matches: (string, string) -> bool) returns (r: Result<seq<Document>, Error>)
    ensures r == Kept(view, docs, matches)
  {
    var kept: seq<Document> := [];
    var i := 0;
    while i < |docs|
      invariant 0 <= i <= |docs|
      invariant Kept(view, docs[..i], matches) == Success(kept)
    {
      var mapped := MapDocument(docs[i], view.className, view.options, matches);
      KeptStepMapped(view, docs, i, matches, kept, mapped);
      if mapped.Failure? {
        KeptFailureSticks(view, docs, i + 1, matches);
        return Failure(mapped.error);
      }
      if mapped.value.Some? {
        kept := kept + [mapped.value.value];
      }
      i := i + 1;
    }
    assert docs[..i] == docs;
    return Success(kept);
  }

  class Database {
    var documents: seq<Document>
    var views: map<string, View>

    /** Rddb::Database.new: no documents, no views. */
    constructor ()
      ensures documents == [] && views == map[]
    {
      documents := [];
      views := map[];
    }

    /** `database << document`: appends, even when the same document is already stored. */
    method Append(d: Document)
      modifies this
      ensures documents == old(documents) + [d]
      ensures views == old(views)
    {
      documents := documents + [d];
    }

    /** `views[name]`: the registered view, or nil. */
    function LookupView(name: string): (v: Option<View>)
      reads this
      ensures v.Some? <==> name in views
      ensures v.Some? ==> v.value == views[name]
    {
      if name in views then Some(views[name]) else None
    }

    /** `create_view(name) { filter block }`: registers a view without a reduce, replacing any view of that name. */
    method CreateView(name: string, className: string, options: Options) returns (v: View)
      modifies this
      ensures v == View(className, options, None)
      ensures views == old(views)[name := v]
      ensures documents == old(documents)
    {
      v := View(className, options, None);
      views := views[name := v];
    }

    /** `view.reduce_with { sort_by }` on the view registered under `name`. */
    method ReduceWith(name: string, order: seq<string>)
      requires name in views
      modifies this
      ensures views == old(views)[name := old(views)[name].(order := Some(order))]
      ensures documents == old(documents)
    {
      views := views[name := views[name].(order := Some(order))];
    }

    /** `query(name)`: the view's map block over every document in store order, then its reduce. */
    method Query(name: string, matches: (string, string) -> bool) returns (r: Result<seq<Document>, Error>)
      ensures name !in views ==> r == Failure(UnknownView(name))
      ensures name in views ==> Answers(views[name], documents, matches, r)
    {
      if name !in views {
        return Failure(UnknownView(name));
      }
      var view := views[name];
      var kept := KeepMatching(view, documents, matches);
      if kept.Failure? || view.order.None? {
        return kept;
      }
      r := SortBy(kept.value, view.order.value);
    }
  }
}
