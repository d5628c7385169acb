/**
 * The query rewriting inside `clean_url`: for each parameter name that
 * applies, the query is split at `&`, every field naming that parameter is
 * rejected, and the rest is joined back with `&`.
 */
module QueryClean {
  import opened RubyText

  /**
   * `field =~ /^#{param}=|^#{param}$/` on a field without newlines, the
   * name read literally: the field is the bare name or starts with `name=`.
   */
  predicate Rejects(param: string, field: string) {
    field == param || IsPrefix(param + "=", field)
  }

  /** `sub` is `fields` with some fields left out and the others in their order. */
  predicate IsSubsequence(sub: seq<string>, fields: seq<string>)
    decreases |fields|
  {
    sub == [] ||
    (fields != [] &&
     ((sub[0] == fields[0] && IsSubsequence(sub[1..], fields[1..])) || IsSubsequence(sub, fields[1..])))
  }

  /** `fields.reject { |p| p =~ ... }`: the fields `param` does not reject, in their order. */
  function Reject(fields: seq<string>, param: string): (r: seq<string>)
    ensures |r| <= |fields|
    ensures IsSubsequence(r, fields)
    ensures forall f :: f in r <==> f in fields && !Rejects(param, f)
  {
    if fields == [] then []
    else
      var rest := Reject(fields[1..], param);
      assert forall f :: f in fields <==> f == fields[0] || f in fields[1..];
      var r := (if Rejects(param, fields[0]) then [] else [fields[0]]) + rest;
      assert IsSubsequence(r, fields) by {
        if Rejects(param, fields[0]) {
          assert r == rest;
        } else {
          assert r[0] == fields[0] && r[1..] == rest;
        }
      }
      r
  }

  /** A field `param` does not reject keeps every one of its occurrences. */
  lemma {:induction false} RejectKeepsOccurrences(fields: seq<string>, param: string, f: string)
    requires !Rejects(param, f)
    ensures multiset(Reject(fields, param))[f] == multiset(fields)[f]
  {
    if fields != [] {
      var head := if Rejects(param, fields[0]) then [] else [fields[0]];
      var rest := Reject(fields[1..], param);
      RejectKeepsOccurrences(fields[1..], param, f);
      assert Reject(fields, param) == head + rest;
      assert multiset(head + rest) == multiset(head) + multiset(rest);
      assert fields == [fields[0]] + fields[1..];
      assert multiset(fields) == multiset([fields[0]]) + multiset(fields[1..]);
    }
  }

  /** One pass of the innermost loop: `query.split("&").reject { ... }.join("&")`. */
  function RemoveParam(query: string, param: string): string {
    Join(Reject(Split(query, '&'), param), '&')
  }

  /** The query after one pass for each name of `params`, in order. */
  function RemoveAll(query: string, params: seq<string>): string {
    if params == [] then query
    else RemoveParam(RemoveAll(query, params[..|params| - 1]), params[|params| - 1])
  }

  lemma RemoveAllSnoc(query: string, params: seq<string>, p: string)
    ensures RemoveAll(query, params + [p]) == RemoveParam(RemoveAll(query, params), p)
  {
    assert (params + [p])[..|params|] == params;
  }

  lemma {:induction false} RemoveAllConcat(query: string, a: seq<string>, b: seq<string>)
    ensures RemoveAll(query, a + b) == RemoveAll(RemoveAll(query, a), b)
  {
    if b == [] {
      assert a + b == a;
    } else {
      var b', p := b[..|b| - 1], b[|b| - 1];
      RemoveAllConcat(query, a, b');
      assert (a + b)[..|a + b| - 1] == a + b' && (a + b)[|a + b| - 1] == p;
      calc {
        RemoveAll(query, a + b);
        RemoveParam(RemoveAll(query, a + b'), p);
        RemoveParam(RemoveAll(RemoveAll(query, a), b'), p);
        RemoveAll(RemoveAll(query, a), b);
      }
    }
  }

  /** The fields no name of `params` rejects, in their order. */
  function Keep(fields: seq<string>, params: seq<string>): seq<string> {
    if params == [] then fields
    else Reject(Keep(fields, params[..|params| - 1]), params[|params| - 1])
  }

  /** A field is kept exactly when it is one of the fields and no name rejects it. */
  lemma {:induction false} KeepMember(fields: seq<string>, params: seq<string>, f: string)
    ensures f in Keep(fields, params) <==> f in fields && forall p :: p in params ==> !Rejects(p, f)
  {
    if params != [] {
      var init := params[..|params| - 1];
      KeepMember(fields, init, f);
      assert forall p :: p in params <==> p in init || p == params[|params| - 1];
    }
  }

  lemma {:induction false} IsSubsequenceTrans(a: seq<string>, b: seq<string>, c: seq<string>)
    requires IsSubsequence(a, b) && IsSubsequence(b, c)
    ensures IsSubsequence(a, c)
    decreases |c|
  {
    if a != [] {
      if b[0] == c[0] && IsSubsequence(b[1..], c[1..]) {
        if a[0] == b[0] && IsSubsequence(a[1..], b[1..]) {
          IsSubsequenceTrans(a[1..], b[1..], c[1..]);
        } else {
          IsSubsequenceTrans(a, b[1..], c[1..]);
        }
      } else {
        IsSubsequenceTrans(a, b, c[1..]);
      }
    }
  }

  /**
   * The kept fields are the input fields with some left out and the rest in
   * their order, and a field no name rejects keeps every one of its
   * occurrences.
   */
  lemma {:induction false} KeepSubsequence(fields: seq<string>, params: seq<string>, f: string)
    ensures IsSubsequence(Keep(fields, params), fields)
    ensures (forall p :: p in params ==> !Rejects(p, f)) ==>
      multiset(Keep(fields, params))[f] == multiset(fields)[f]
  {
    if params == [] {
      IsSubsequenceRefl(fields);
    } else {
      var init := params[..|params| - 1];
      var p := params[|params| - 1];
      KeepSubsequence(fields, init, f);
      IsSubsequenceTrans(Keep(fields, params), Keep(fields, init), fields);
      assert forall q :: q in init ==> q in params;
      if forall q :: q in params ==> !Rejects(q, f) {
        RejectKeepsOccurrences(Keep(fields, init), p, f);
      }
    }
  }

  lemma {:induction false} IsSubsequenceRefl(fields: seq<string>)
    ensures IsSubsequence(fields, fields)
  {
    if fields != [] {
      IsSubsequenceRefl(fields[1..]);
    }
  }

  // ---------------------------------------------------------------------
  // Queries with empty fields: `split` and `join` keep empty fields inside
  // the query, so the statement is about its non-empty fields.

  /** The non-empty fields, in their order. */
  function NonEmpty(fields: seq<string>): (r: seq<string>)
    ensures forall f :: f in r <==> f in fields && f != []
  {
    if fields == [] then []
    else
      assert forall f :: f in fields <==> f == fields[0] || f in fields[1..];
      (if fields[0] == [] then [] else [fields[0]]) + NonEmpty(fields[1..])
  }

  lemma NonEmptySingle(f: string)
    ensures NonEmpty([f]) == if f == [] then [] else [f]
  {
    assert [f][1..] == [];
  }

  lemma {:induction false} NonEmptyConcat(a: seq<string>, b: seq<string>)
    ensures NonEmpty(a + b) == NonEmpty(a) + NonEmpty(b)
  {
    if a != [] {
      assert (a + b)[1..] == a[1..] + b;
      NonEmptyConcat(a[1..], b);
    } else {
      assert a + b == b;
    }
  }

  /** Dropping trailing empty fields does not change the non-empty ones. */
  lemma {:induction false} NonEmptyDropTrailing(fields: seq<string>)
    ensures NonEmpty(DropTrailingEmpty(fields)) == NonEmpty(fields)
  {
    if fields != [] && fields[|fields| - 1] == [] {
      var init := fields[..|fields| - 1];
      NonEmptyDropTrailing(init);
      assert fields == init + [[]];
      NonEmptyConcat(init, [[]]);
      NonEmptySingle([]);
    }
  }

  /** Rejecting and dropping empty fields can be done in either order. */
  lemma {:induction false} NonEmptyReject(fields: seq<string>, param: string)
    ensures NonEmpty(Reject(fields, param)) == Reject(NonEmpty(fields), param)
  {
    if fields != [] {
      var f, rest := fields[0], fields[1..];
      var h := if Rejects(param, f) then [] else [f];
      assert Reject(fields, param) == h + Reject(rest, param);
      NonEmptyReject(rest, param);
      NonEmptyConcat(h, Reject(rest, param));
      NonEmptySingle(f);
      if f == [] {
        assert NonEmpty(fields) == NonEmpty(rest);
        assert NonEmpty(h) == [];
      } else {
        assert NonEmpty(fields) == [f] + NonEmpty(rest);
        assert NonEmpty(h) == h;
        RejectCons(f, NonEmpty(rest), param);
      }
    }
  }

  /** A non-empty field keeps every one of its occurrences. */
  lemma {:induction false} NonEmptyKeepsOccurrences(fields: seq<string>, f: string)
    requires f != []
    ensures multiset(NonEmpty(fields))[f] == multiset(fields)[f]
  {
    if fields != [] {
      var h := if fields[0] == [] then [] else [fields[0]];
      NonEmptyKeepsOccurrences(fields[1..], f);
      assert multiset(h + NonEmpty(fields[1..])) == multiset(h) + multiset(NonEmpty(fields[1..]));
      assert fields == [fields[0]] + fields[1..];
      assert multiset(fields) == multiset([fields[0]]) + multiset(fields[1..]);
    }
  }

  /**
   * One pass on any query: its non-empty fields are the non-empty input
   * fields `param` does not reject, in their order.
   */
  lemma RemoveParamNonEmpty(query: string, param: string)
    ensures NonEmpty(Split(RemoveParam(query, param), '&')) == Reject(NonEmpty(Split(query, '&')), param)
  {
    var fields := Split(query, '&');
    var r := Reject(fields, param);
    SplitFieldsNoSep(query);
    forall k | 0 <= k < |r| ensures '&' !in r[k] {
      assert r[k] in r;
    }
    NonEmptyDropTrailing(SplitAll(Join(r, '&'), '&'));
    if r != [] {
      SplitAllJoin(r, '&');
    } else {
      NonEmptySingle([]);
    }
    NonEmptyReject(fields, param);
  }

  lemma SplitFieldsNoSep(query: string)
    ensures forall f :: f in Split(query, '&') ==> '&' !in f
  {
    var all := SplitAll(query, '&');
    DropTrailingEmptyPrefix(all);
    forall f | f in Split(query, '&') ensures '&' !in f {
      var j :| 0 <= j < |Split(query, '&')| && Split(query, '&')[j] == f;
      assert f == all[j];
    }
  }

  /**
   * Removing several names from any query: its non-empty fields are the
   * non-empty input fields no name rejects, in their order.
   */
  lemma {:induction false} RemoveAllNonEmpty(query: string, params: seq<string>)
    ensures NonEmpty(Split(RemoveAll(query, params), '&')) == Keep(NonEmpty(Split(query, '&')), params)
  {
    if params != [] {
      var init, p := params[..|params| - 1], params[|params| - 1];
      RemoveAllNonEmpty(query, init);
      RemoveParamNonEmpty(RemoveAll(query, init), p);
    }
  }

  /** A query that is its non-empty fields joined by `&`: no `&&`, and no `&` at either end. */
  predicate WellFormedQuery(query: string) {
    var fields := Split(query, '&');
    Join(fields, '&') == query && forall k :: 0 <= k < |fields| ==> fields[k] != []
  }

  predicate GoodFields(fields: seq<string>) {
    forall k :: 0 <= k < |fields| ==> fields[k] != [] && '&' !in fields[k]
  }

  lemma GoodFieldsJoin(fields: seq<string>)
    requires GoodFields(fields)
    ensures Split(Join(fields, '&'), '&') == fields
    ensures WellFormedQuery(Join(fields, '&'))
  {
    SplitJoin(fields, '&');
  }

  lemma WellFormedFields(query: string)
    requires WellFormedQuery(query)
    ensures GoodFields(Split(query, '&'))
  {
    var fields := Split(query, '&');
    var all := SplitAll(query, '&');
    forall k | 0 <= k < |fields| ensures '&' !in fields[k] {
      DropTrailingEmptyPrefix(all);
      assert fields[k] == all[k];
    }
  }

  lemma RejectGood(fields: seq<string>, param: string)
    requires GoodFields(fields)
    ensures GoodFields(Reject(fields, param))
  {
    var r := Reject(fields, param);
    forall k | 0 <= k < |r| ensures r[k] != [] && '&' !in r[k] {
      assert r[k] in fields;
    }
  }

  /**
   * On a well-formed query, cleaning keeps exactly the fields no name
   * rejects, in their order, and the result is again well formed.
   */
  lemma {:induction false} RemoveAllKeeps(query: string, params: seq<string>)
    requires WellFormedQuery(query)
    ensures RemoveAll(query, params) == Join(Keep(Split(query, '&'), params), '&')
    ensures GoodFields(Keep(Split(query, '&'), params))
    ensures WellFormedQuery(RemoveAll(query, params))
  {
    var fields := Split(query, '&');
    WellFormedFields(query);
    if params != [] {
      var init := params[..|params| - 1];
      var p := params[|params| - 1];
      RemoveAllKeeps(query, init);
      var kept := Keep(fields, init);
      GoodFieldsJoin(kept);
      RejectGood(kept, p);
      GoodFieldsJoin(Reject(kept, p));
    }
  }

  lemma {:induction false} RejectNothing(fields: seq<string>, param: string)
    requires forall f :: f in fields ==> !Rejects(param, f)
    ensures Reject(fields, param) == fields
  {
    if fields != [] {
      assert fields[0] in fields;
      assert forall f :: f in fields[1..] ==> f in fields;
      RejectNothing(fields[1..], param);
    }
  }

  lemma {:induction false} KeepNothing(fields: seq<string>, params: seq<string>)
    requires forall f, p :: f in fields && p in params ==> !Rejects(p, f)
    ensures Keep(fields, params) == fields
  {
    if params != [] {
      var init := params[..|params| - 1];
      assert forall p :: p in init ==> p in params;
      KeepNothing(fields, init);
      RejectNothing(fields, params[|params| - 1]);
    }
  }

  /** Cleaning a well-formed query twice with the same names changes nothing the second time. */
  lemma RemoveAllIdempotent(query: string, params: seq<string>)
    requires WellFormedQuery(query)
    ensures RemoveAll(RemoveAll(query, params), params) == RemoveAll(query, params)
  {
    var fields := Split(query, '&');
    var kept := Keep(fields, params);
    RemoveAllKeeps(query, params);
    var once := RemoveAll(query, params);
    RemoveAllKeeps(once, params);
    GoodFieldsJoin(kept);
    forall f, p | f in kept && p in params ensures !Rejects(p, f) {
      KeepMember(fields, params, f);
    }
    KeepNothing(kept, params);
  }

  lemma SplitDoubleSep(x: string, y: string)
    requires x != [] && y != [] && '&' !in x && '&' !in y
    ensures Split(x + ['&', '&'] + y, '&') == [x, [], y]
  {
    assert x + ['&', '&'] + y == x + ['&'] + ([] + ['&'] + y);
    SplitAllConcat(x, '&', [] + ['&'] + y);
    SplitAllConcat([], '&', y);
    SplitAllNoSep(x, '&');
    SplitAllNoSep([], '&');
    SplitAllNoSep(y, '&');
    assert [] + ['&'] + y == ['&'] + y;
  }

  lemma SplitTrailingSep(x: string)
    requires x != [] && '&' !in x
    ensures Split(x + ['&'], '&') == [x]
  {
    assert x + ['&'] == x + ['&'] + [];
    SplitAllConcat(x, '&', []);
    SplitAllNoSep(x, '&');
    SplitAllNoSep([], '&');
    var fs := [x] + [[]];
    assert SplitAll(x + ['&'], '&') == fs;
    assert fs[..1] == [x];
    assert DropTrailingEmpty([x]) == [x];
  }

  lemma SplitExample()
    ensures Split("a=1&&b=2", '&') == ["a=1", "", "b=2"]
    ensures Split("a=1&", '&') == ["a=1"]
  {
    SplitDoubleSep("a=1", "b=2");
    assert "a=1" + ['&', '&'] + "b=2" == "a=1&&b=2";
    SplitTrailingSep("a=1");
    assert "a=1" + ['&'] == "a=1&";
  }

  lemma RejectExample()
    ensures Reject(["a=1", "", "b=2"], "b") == ["a=1", ""]
    ensures Reject(["a=1"], "b") == ["a=1"]
  {
    RejectsExample();
    var empty: seq<string> := [];
    RejectCons("b=2", empty, "b");
    RejectCons("", ["b=2"], "b");
    RejectCons("a=1", ["", "b=2"], "b");
    RejectCons("a=1", empty, "b");
    assert ["b=2"] == ["b=2"] + empty && ["a=1"] == ["a=1"] + empty;
    assert ["", "b=2"] == [""] + ["b=2"];
    assert ["a=1", "", "b=2"] == ["a=1"] + ["", "b=2"];
  }

  lemma RejectsExample()
    ensures Rejects("b", "b=2") && !Rejects("b", "a=1") && !Rejects("b", "")
  {
    assert "b=2"[..2] == "b=";
    assert "a=1"[..2][0] != "b="[0];
  }

  lemma RejectCons(f: string, rest: seq<string>, param: string)
    ensures Reject([f] + rest, param) == (if Rejects(param, f) then [] else [f]) + Reject(rest, param)
  {
    assert ([f] + rest)[1..] == rest;
  }

  /**
   * One pass on a well-formed query: the fields of the result are the fields
   * `param` does not reject, in their order, and the result is well formed.
   */
  lemma RemoveParamFields(query: string, param: string)
    requires WellFormedQuery(query)
    ensures Split(RemoveParam(query, param), '&') == Reject(Split(query, '&'), param)
    ensures WellFormedQuery(RemoveParam(query, param))
  {
    var fields := Split(query, '&');
    WellFormedFields(query);
    RejectGood(fields, param);
    GoodFieldsJoin(Reject(fields, param));
  }

  lemma RemoveAllSingle(query: string, param: string)
    ensures RemoveAll(query, [param]) == RemoveParam(query, param)
  {
    assert [param][..0] == [];
  }

  lemma JoinExample()
    ensures Join(["a=1", ""], '&') == "a=1&"
  {
    var gs: seq<string> := ["a=1", ""];
    assert gs[..1] == ["a=1"];
    assert Join(gs[..1], '&') == "a=1";
    assert "a=1" + ['&'] + [] == "a=1&";
  }

  /**
   * Without well-formedness cleaning is not idempotent: an empty field
   * before the last removed one leaves a trailing `&`, which the next
   * `split` drops.
   */
  lemma EmptyFieldBreaksIdempotence()
    ensures RemoveAll("a=1&&b=2", ["b"]) == "a=1&"
    ensures RemoveAll("a=1&", ["b"]) == "a=1"
  {
    SplitExample();
    RejectExample();
    JoinExample();
    RemoveAllSingle("a=1&&b=2", "b");
    RemoveAllSingle("a=1&", "b");
    assert Join(["a=1"], '&') == "a=1";
  }
}
