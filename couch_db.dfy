/**
 * Couch::Db (couchdb/db.rb): the names and request strings a database
 * handle sends to the server. The HTTP exchanges themselves are not part
 * of this model; what is modelled is the text they are addressed with.
 */
module CouchDb {
  import opened Wrappers
  import opened Text
  import CouchDoc
  import CouchXml

  // ---------------------------------------------------------------- fix_name

  /** A Ruby String object, which `<<` extends in place. */
  class RString {
    var chars: string

    constructor (chars: string)
      ensures this.chars == chars
    {
      this.chars := chars;
    }

    /** `s << c` */
    method Append(c: char)
      modifies this
      ensures chars == old(chars) + [c]
    {
      chars := chars + [c];
    }
  }

  /** `/^\/.*` + `/ =~ name`: some line of the name starts with '/'. */
  predicate SomeLineStartsWithSlash(s: string) {
    exists i :: 0 <= i < |s| && s[i] == '/' && (i == 0 || s[i - 1] == '\n')
  }

  /** `/.*\/$/ =~ name`: some line of the name ends with '/'. */
  predicate SomeLineEndsWithSlash(s: string) {
    exists i :: 0 <= i < |s| && s[i] == '/' && AtLineEnd(s, i + 1)
  }

  /** fix_name as written: its tests use Ruby's line anchors, so they look at every line of the name. */
  function FixNameAsWritten(name: string): (r: string)
    ensures r == name || r == "/" + name || r == name + "/" || r == "/" + name + "/"
  {
    var front := if SomeLineStartsWithSlash(name) then name else "/" + name;
    if SomeLineEndsWithSlash(front) then front else front + "/"
  }

  /** A name whose second line starts with '/' gets no leading '/': the result of fix_name need not start with one. */
  lemma FixNameLineAnchors()
    ensures FixNameAsWritten("a\n/b") == "a\n/b/"
    ensures !StartsWith(FixNameAsWritten("a\n/b"), "/")
  {
    var name := "a\n/b";
    assert name[2] == '/' && name[1] == '\n';
    assert SomeLineStartsWithSlash(name);
    assert !SomeLineEndsWithSlash(name) by {
      forall i | 0 <= i < |name| && name[i] == '/'
        ensures !AtLineEnd(name, i + 1)
      {
        assert i == 2;
      }
    }
    assert FixNameAsWritten(name)[..1] == "a";
  }

  /** fix_name as intended: '/' added at the front unless the name starts with one, and at the back unless it ends with one. */
  function FixedName(name: string): string {
    var front := if StartsWith(name, "/") then name else "/" + name;
    if EndsWith(front, "/") then front else front + "/"
  }

  /** The fixed name starts and ends with '/', and is the name with at most one '/' added at each end. */
  lemma FixedNameShape(name: string)
    ensures StartsWith(FixedName(name), "/") && EndsWith(FixedName(name), "/")
    ensures exists pre, post :: pre in {"", "/"} && post in {"", "/"} && FixedName(name) == pre + name + post
    ensures StartsWith(name, "/") && EndsWith(name, "/") ==> FixedName(name) == name
  {
    var front := if StartsWith(name, "/") then name else "/" + name;
    var pre := if StartsWith(name, "/") then "" else "/";
    var post := if EndsWith(front, "/") then "" else "/";
    assert front == pre + name;
    assert FixedName(name) == pre + name + post;
    assert StartsWith(front, "/");
    if post == "/" {
      assert (front + "/")[..1] == front[..1];
    }
  }

  /** On a text without a newline, `/^\/.*` + `/` looks only at the start of the text. */
  lemma StartAnchorOneLine(s: string)
    requires '\n' !in s
    ensures SomeLineStartsWithSlash(s) <==> StartsWith(s, "/")
  {
    if StartsWith(s, "/") {
      assert s[0] == '/';
    }
  }

  /** On a text without a newline, `/.*\/$/` looks only at the end of the text. */
  lemma EndAnchorOneLine(s: string)
    requires '\n' !in s
    ensures SomeLineEndsWithSlash(s) <==> EndsWith(s, "/")
  {
    if EndsWith(s, "/") {
      assert s[|s| - 1] == '/' && AtLineEnd(s, |s|);
    }
  }

  /** On a name without a newline the line anchors are string anchors, so fix_name as written and the corrected one agree. */
  lemma FixNameAgreesOnOneLine(name: string)
    requires '\n' !in name
    ensures FixNameAsWritten(name) == FixedName(name)
  {
    StartAnchorOneLine(name);
    var front := if StartsWith(name, "/") then name else "/" + name;
    assert '\n' !in front;
    EndAnchorOneLine(front);
  }

  /** fix_name is idempotent. */
  lemma FixedNameIdempotent(name: string)
    ensures FixedName(FixedName(name)) == FixedName(name)
  {
    FixedNameShape(name);
  }

  /**
   * Db.fix_name with string anchors: a name without a leading '/' is
   * replaced by a new string; otherwise the caller's own string is the
   * result, and the trailing '/' is appended to it in place.
   */
  method FixName(name: RString) returns (r: RString)
    modifies name
    ensures r.chars == FixedName(old(name.chars))
    ensures StartsWith(old(name.chars), "/") ==> r == name
    ensures !StartsWith(old(name.chars), "/") ==> fresh(r) && name.chars == old(name.chars)
  {
    if !StartsWith(name.chars, "/") {
      r := new RString("/" + name.chars);
    } else {
      r := name;
    }
    if !EndsWith(r.chars, "/") {
      r.Append('/');
    }
  }

  // ---------------------------------------------------------------- format_table_options

  /** An option's value as the query string sees it: nil, a scalar's to_s, or each array element's to_s. */
  datatype OptionValue = NilValue | Scalar(text: string) | Items(texts: seq<string>)

  /** The options hash of `table`: each key is nil or its to_s. */
  type TableOptions = seq<(Option<string>, OptionValue)>

  /** `"#{key}=#{value}"` */
  function Pair(key: string, text: string): (p: string)
    ensures |p| > 0
  {
    key + "=" + text
  }

  /** `key=e` for every element of an array value, in order. */
  function ItemPairs(key: string, texts: seq<string>): (ps: seq<string>)
    ensures |ps| == |texts| && forall i :: 0 <= i < |texts| ==> ps[i] == Pair(key, texts[i])
  {
    seq(|texts|, i requires 0 <= i < |texts| => Pair(key, texts[i]))
  }

  /** The text one entry contributes, `v` in the source; "" for an empty array. */
  function Piece(key: string, val: OptionValue): string
    requires !val.NilValue?
  {
    if val.Items? then Join("&", ItemPairs(key, val.texts)) else Pair(key, val.text)
  }

  /** The pieces of the entries with a key and a value, in order. */
  function Pieces(options: TableOptions): (ps: seq<string>)
    ensures |ps| <= |options|
    decreases |options|
  {
    if |options| == 0 then []
    else
      var last := options[|options| - 1];
      Pieces(options[..|options| - 1]) + (if last.0.Some? && !last.1.NilValue? then [Piece(last.0.value, last.1)] else [])
  }

  /** The pieces after the first non-empty one: '&' is written only once `ret` is non-empty. */
  function DropLeadingEmpty(ps: seq<string>): (r: seq<string>)
    ensures |r| == 0 || |r[0]| > 0
    ensures |r| <= |ps|
  {
    if |ps| == 0 then [] else if ps[0] == "" then DropLeadingEmpty(ps[1..]) else ps
  }

  /**
   * format_table_options: "" for nil options; otherwise the pieces in order
   * separated by '&', where an empty array contributes an empty piece (so
   * "&&" in the middle) that vanishes before the first non-empty piece.
   */
  function QueryString(options: Option<TableOptions>): string {
    if options.None? then "" else Join("&", DropLeadingEmpty(Pieces(options.value)))
  }

  /** A join whose first part is non-empty is non-empty. */
  lemma JoinNonEmpty(sep: string, parts: seq<string>)
    requires |parts| > 0 && |parts[0]| > 0
    ensures |Join(sep, parts)| > 0
  {
  }

  /** DropLeadingEmpty over one more piece. */
  lemma {:induction false} DropLeadingEmptySnoc(ps: seq<string>, p: string)
    ensures DropLeadingEmpty(ps + [p]) ==
      if DropLeadingEmpty(ps) == [] then (if p == "" then [] else [p]) else DropLeadingEmpty(ps) + [p]
    decreases |ps|
  {
    if |ps| > 0 {
      assert (ps + [p])[1..] == ps[1..] + [p];
      DropLeadingEmptySnoc(ps[1..], p);
    }
  }

  /** With every key present and every value a scalar, the query string is `key=value` per entry, joined by '&'. */
  lemma {:induction false} ScalarOptions(options: TableOptions)
    requires forall i :: 0 <= i < |options| ==> options[i].0.Some? && options[i].1.Scalar?
    ensures Pieces(options) == seq(|options|, i requires 0 <= i < |options| => Pair(options[i].0.value, options[i].1.text))
    ensures QueryString(Some(options)) == Join("&", Pieces(options))
    decreases |options|
  {
    if |options| > 0 {
      ScalarOptions(options[..|options| - 1]);
    }
  }

  /** An entry with a nil key or a nil value leaves the query string as it was. */
  lemma {:induction false} SkippedEntry(before: TableOptions, entry: (Option<string>, OptionValue), after: TableOptions)
    requires entry.0.None? || entry.1.NilValue?
    ensures Pieces(before + [entry] + after) == Pieces(before + after)
    decreases |after|
  {
    if |after| == 0 {
      assert (before + [entry] + after)[..|before|] == before;
      assert before + after == before;
    } else {
      var init := after[..|after| - 1];
      SkippedEntry(before, entry, init);
      assert (before + [entry] + after)[..|before + [entry] + after| - 1] == before + [entry] + init;
      assert (before + after)[..|before + after| - 1] == before + init;
    }
  }

  /** The pieces of `{a: 1, b: [], c: 2}`: the empty array gives an empty piece. */
  lemma PiecesWithEmptyArray()
    ensures Pieces([(Some("a"), Scalar("1")), (Some("b"), Items([])), (Some("c"), Scalar("2"))]) == ["a=1", "", "c=2"]
  {
    var o := [(Some("a"), Scalar("1")), (Some("b"), Items([])), (Some("c"), Scalar("2"))];
    assert Piece("b", Items([])) == "";
    assert Pair("a", "1") == "a=1" && Pair("c", "2") == "c=2";
    assert o[..2][..1] == [o[0]] && o[..2] == [o[0], o[1]] && [o[0]][..0] == [];
    assert Pieces([o[0]]) == ["a=1"];
    assert Pieces(o[..2]) == ["a=1", ""];
  }

  /** An empty array between two entries shows as "&&". */
  lemma EmptyArrayBetween()
    ensures QueryString(Some([(Some("a"), Scalar("1")), (Some("b"), Items([])), (Some("c"), Scalar("2"))])) == "a=1&&c=2"
  {
    PiecesWithEmptyArray();
    var parts := ["a=1", "", "c=2"];
    assert DropLeadingEmpty(parts) == parts;
    assert parts[1..] == ["", "c=2"] && parts[1..][1..] == ["c=2"];
    assert Join("&", ["", "c=2"]) == "&c=2";
    assert Join("&", parts) == "a=1" + "&" + "&c=2";
  }

  /** An empty array before every other entry leaves no trace. */
  lemma EmptyArrayFirst()
    ensures QueryString(Some([(Some("b"), Items([])), (Some("c"), Scalar("2"))])) == "c=2"
  {
    assert Piece("b", Items([])) == "";
    assert Pair("c", "2") == "c=2";
    var p := [(Some("b"), Items([])), (Some("c"), Scalar("2"))];
    assert p[..1] == [p[0]] && [p[0]][..0] == [];
    assert Pieces([p[0]]) == [""];
    assert Pieces(p) == ["", "c=2"];
    assert DropLeadingEmpty(["", "c=2"]) == ["c=2"];
  }

  /** The pairs of one more item: the earlier pairs, then the new item's pair. */
  lemma ItemPairsSnoc(key: string, texts: seq<string>, i: nat)
    requires i < |texts|
    ensures ItemPairs(key, texts[..i + 1]) == ItemPairs(key, texts[..i]) + [Pair(key, texts[i])]
  {
    var ps, qs := ItemPairs(key, texts[..i + 1]), ItemPairs(key, texts[..i]) + [Pair(key, texts[i])];
    assert |ps| == |qs|;
    forall k | 0 <= k < |ps| ensures ps[k] == qs[k] {
      assert texts[..i + 1][k] == texts[k];
    }
  }

  /** `v`, the inner loop over an array value: '&' before every pair but the first. */
  method JoinItems(key: string, texts: seq<string>) returns (v: string)
    ensures v == Join("&", ItemPairs(key, texts))
  {
    v := "";
    var i := 0;
    while i < |texts|
      invariant 0 <= i <= |texts|
      invariant v == Join("&", ItemPairs(key, texts[..i]))
      invariant i > 0 <==> |v| > 0
    {
      var pairs := ItemPairs(key, texts[..i]);
      JoinSnoc("&", pairs, Pair(key, texts[i]));
      ItemPairsSnoc(key, texts, i);
      if i > 0 {
        JoinNonEmpty("&", pairs);
      }
      if |v| > 0 {
        v := v + "&";
      }
      v := v + Pair(key, texts[i]);
      i := i + 1;
    }
    assert texts[..i] == texts;
  }

  /** format_table_options: the entries appended to `ret` in order, each after '&' once `ret` is non-empty. */
  method FormatTableOptions(options: Option<TableOptions>) returns (ret: string)
    ensures ret == QueryString(options)
  {
    ret := "";
    if options.None? {
      return;
    }
    var entries := options.value;
    var i := 0;
    while i < |entries|
      invariant 0 <= i <= |entries|
      invariant ret == Join("&", DropLeadingEmpty(Pieces(entries[..i])))
    {
      var key, val := entries[i].0, entries[i].1;
      assert entries[..i + 1][..i] == entries[..i];
      assert Pieces(entries[..i + 1]) == Pieces(entries[..i])
        + (if key.Some? && !val.NilValue? then [Piece(key.value, val)] else []);
      if key.Some? && !val.NilValue? {
        var done := DropLeadingEmpty(Pieces(entries[..i]));
        var v: string;
        if val.Items? {
          v := JoinItems(key.value, val.texts);
        } else {
          v := Pair(key.value, val.text);
        }
        assert v == Piece(key.value, val);
        DropLeadingEmptySnoc(Pieces(entries[..i]), v);
        if done != [] {
          JoinNonEmpty("&", done);
          JoinSnoc("&", done, v);
        } else {
          assert ret == "" && ret + v == v;
        }
        if |ret| > 0 {
          ret := ret + "&";
        }
        ret := ret + v;
        assert ret == Join("&", DropLeadingEmpty(Pieces(entries[..i + 1])));
      } else {
        assert Pieces(entries[..i + 1]) == Pieces(entries[..i]);
      }
      i := i + 1;
    }
    assert entries[..i] == entries;
  }

  // ---------------------------------------------------------------- request paths

  /** `"/#{@db}/#{id}"`: where put, get and delete address a document. */
  function DocPath(db: string, id: string): (p: string)
    ensures |p| == |db| + |id| + 2 && p[0] == '/'
    ensures '/' !in db ==> p[|db| + 1] == '/' && '/' !in p[1..|db| + 1]
  {
    "/" + db + "/" + id
  }

  /** Documents get distinct paths: with slash-free database names, equal paths name the same database and id. */
  lemma DocPathsDistinct(db1: string, id1: string, db2: string, id2: string)
    requires '/' !in db1 && '/' !in db2
    ensures DocPath(db1, id1) == DocPath(db2, id2) <==> db1 == db2 && id1 == id2
  {
    var p1, p2 := DocPath(db1, id1), DocPath(db2, id2);
    if p1 == p2 {
      assert |db1| == |db2|;
      assert db1 == p1[1..|db1| + 1] == p2[1..|db2| + 1] == db2;
      assert id1 == p1[|db1| + 2..] == p2[|db2| + 2..] == id2;
    }
  }

  /** `table(name, options)`: the table's path, with `?` and the query string only when that is non-empty. */
  function TablePath(db: string, name: string, options: Option<TableOptions>): (p: string)
    ensures StartsWith(p, DocPath(db, name))
    ensures p == DocPath(db, name) <==> |QueryString(options)| == 0
  {
    var opt := QueryString(options);
    "/" + db + "/" + name + (if |opt| > 0 then "?" + opt else "")
  }

  /** `designs`: the design documents' table. */
  function DesignsPath(db: string): (p: string)
    ensures p == TablePath(db, "meta_tables:designs", None)
  {
    "/" + db + "/meta_tables:designs"
  }

  /** A request string cut at its first '?': the path, and the query after it if there is one. */
  function SplitRequest(req: string): (r: (string, Option<string>))
    ensures r.1.None? ==> r.0 == req && '?' !in req
    ensures r.1.Some? ==> req == r.0 + "?" + r.1.value && '?' !in r.0
  {
    if |req| == 0 then ("", None)
    else if req[0] == '?' then
      assert req == "" + "?" + req[1..];
      ("", Some(req[1..]))
    else
      var rest := SplitRequest(req[1..]);
      assert req == [req[0]] + req[1..];
      assert rest.1.Some? ==> req == ([req[0]] + rest.0) + "?" + rest.1.value && '?' !in [req[0]] + rest.0;
      assert rest.1.None? ==> [req[0]] + rest.0 == req && '?' !in req;
      ([req[0]] + rest.0, rest.1)
  }

  /** Cutting the text after a '?'-free prefix. */
  lemma {:induction false} SplitAfterPlain(path: string, tail: string)
    requires '?' !in path
    ensures SplitRequest(path + tail) == (path + SplitRequest(tail).0, SplitRequest(tail).1)
    decreases |path|
  {
    if |path| > 0 {
      assert (path + tail)[0] == path[0] != '?';
      assert (path + tail)[1..] == path[1..] + tail;
      assert path == [path[0]] + path[1..];
      SplitAfterPlain(path[1..], tail);
      assert [path[0]] + (path[1..] + SplitRequest(tail).0) == path + SplitRequest(tail).0;
    } else {
      assert path + tail == tail;
      assert path + SplitRequest(tail).0 == SplitRequest(tail).0;
    }
  }

  /**
   * With a database and table name free of '?', a server splitting the
   * request at its first '?' sees the document-style path of the table and
   * exactly the formatted options, or no query at all when they are empty.
   */
  lemma TableRequestSplits(db: string, name: string, options: Option<TableOptions>)
    requires '?' !in db && '?' !in name
    ensures var opt := QueryString(options);
      SplitRequest(TablePath(db, name, options)) == (DocPath(db, name), if |opt| > 0 then Some(opt) else None)
  {
    var opt := QueryString(options);
    var path := DocPath(db, name);
    assert '?' !in path;
    if |opt| > 0 {
      SplitAfterPlain(path, "?" + opt);
      assert ("?" + opt)[1..] == opt;
      assert SplitRequest("?" + opt) == ("", Some(opt));
      assert path + "" == path;
    } else {
      SplitAfterPlain(path, "");
      assert path + "" == path;
    }
    assert TablePath(db, name, options) == path + (if |opt| > 0 then "?" + opt else "");
  }

  /** A table read with named scalar options sends exactly `key=value` pairs joined by `&` after the '?'. */
  lemma TableRequestScalar(db: string, name: string, options: TableOptions)
    requires '?' !in db && '?' !in name && |options| > 0
    requires forall i :: 0 <= i < |options| ==> options[i].0.Some? && options[i].1.Scalar?
    ensures SplitRequest(TablePath(db, name, Some(options))) == (DocPath(db, name), Some(Join("&", Pieces(options))))
  {
    ScalarOptions(options);
    assert Pieces(options)[0] == Pair(options[0].0.value, options[0].1.text);
    JoinNonEmpty("&", Pieces(options));
    TableRequestSplits(db, name, Some(options));
  }
}
