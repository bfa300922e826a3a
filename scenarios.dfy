/** The behaviours the handler's test suite pins down, and a few edge cases
    of the code, on concrete keys. */
module Scenarios {
  import opened Json
  import opened PathTokenizer
  import opened ArrayLocator
  import opened Cursor
  import opened MutationExecutor
  import opened PatchProperties

  /** `b[1]` is the element of `b` whose `_id` is "1". */
  lemma ParseB1()
    ensures ParseSegment("b[1]") == Indexed("b", "1")
  {
    ParseRender(Indexed("b", "1"));
    assert Render(Indexed("b", "1")) == "b[1]";
  }

  /** "a.b[1]" is the field `a`, then the element of `b` with `_id` "1". */
  lemma TokenizeAB1()
    ensures Tokenize("a.b[1]") == [Field("a"), Indexed("b", "1")]
  {
    assert "a.b[1]" == "a" + "." + "b[1]";
    TokenizeTwo("a", "b[1]");
    ParseB1();
    assert !IsBracketForm("a");
  }

  /** `{ b: [x, y, z] }`, the object under `a` in the test document. */
  function Holder(x: Node, y: Node, z: Node): Fields
  {
    map["b" := Arr([x, y, z])]
  }

  /** The test document, `{ a: { b: [x, y, z] }, value: v }`. */
  function StartDoc(x: Node, y: Node, z: Node, v: Node): Fields
  {
    map["a" := Obj(Holder(x, y, z)), "value" := v]
  }

  /** Deleting `b[1]` removes the middle element, the one with `_id` "1",
      and keeps the first and the last in order. */
  lemma DeleteMiddleItem(x: Node, y: Node, z: Node)
    requires !HasId(x, "1") && HasId(y, "1")
    ensures ApplyLast(Holder(x, y, z), Indexed("b", "1"), Null) == map["b" := Arr([x, z])]
  {
    var es := [x, y, z];
    var cur := Holder(x, y, z);
    assert !FalsyField(cur, "b");
    assert es[1..][0] == y;
    assert FindById(es, "1") == 1;
    assert es[..1] + es[2..] == [x, z];
    assert ApplyLast(cur, Indexed("b", "1"), Null) == cur["b" := Arr(es[..1] + es[2..])];
  }

  /** `"a.b[1]": null` removes that element from the array under `a` and
      changes nothing else. */
  lemma DeleteItemOne(x: Node, y: Node, z: Node, v: Node)
    requires !HasId(x, "1") && HasId(y, "1")
    ensures ApplyKey(StartDoc(x, y, z, v), "a.b[1]", Null)
            == Applied(StartDoc(x, y, z, v)["a" := Obj(map["b" := Arr([x, z])])])
  {
    assert "a.b[1]" == "a" + "." + "b[1]";
    assert !IsBracketForm("a");
    NestedKey(StartDoc(x, y, z, v), "a", "b[1]", Null);
    ParseB1();
    DeleteMiddleItem(x, y, z);
  }

  /** `"value": null` removes the root field `value`. */
  lemma DeleteValue(d: Fields)
    ensures ApplyKey(d, "value", Null) == Applied(d - {"value"})
  {
    TokenizeSingleField("value");
  }

  /** `"a.c": w` sets `c` in the object under `a` and keeps its other fields. */
  lemma SetAC(d: Fields, w: Node)
    requires "a" in d && d["a"].Obj? && w != Null
    ensures ApplyKey(d, "a.c", w) == Applied(d["a" := Obj(d["a"].fields["c" := w])])
  {
    assert "a.c" == "a" + "." + "c";
    assert !IsBracketForm("a") && !IsBracketForm("c");
    NestedKey(d, "a", "c", w);
  }

  /** One key applied without a diagnostic. */
  lemma RunOneApplied(d0: Fields, p0: (string, Node), d1: Fields)
    requires ApplyKey(d0, p0.0, p0.1) == Applied(d1)
    ensures Run(d0, [p0]) == Patched(d1, [])
  {
    RunSnoc(d0, [], p0);
    assert [p0] == [] + [p0];
  }

  /** Two keys, each applied without a diagnostic. */
  lemma RunTwoApplied(d0: Fields, p0: (string, Node), p1: (string, Node), d1: Fields, d2: Fields)
    requires ApplyKey(d0, p0.0, p0.1) == Applied(d1)
    requires ApplyKey(d1, p1.0, p1.1) == Applied(d2)
    ensures Run(d0, [p0, p1]) == Patched(d2, [])
  {
    RunOneApplied(d0, p0, d1);
    RunSnoc(d0, [p0], p1);
    assert [p0, p1] == [p0] + [p1];
  }

  /** Three keys, each applied without a diagnostic, leave what the third
      one made of what the second one made of what the first one made. */
  lemma RunThreeApplied(d0: Fields, p0: (string, Node), p1: (string, Node), p2: (string, Node),
                        d1: Fields, d2: Fields, d3: Fields)
    requires ApplyKey(d0, p0.0, p0.1) == Applied(d1)
    requires ApplyKey(d1, p1.0, p1.1) == Applied(d2)
    requires ApplyKey(d2, p2.0, p2.1) == Applied(d3)
    ensures Run(d0, [p0, p1, p2]) == Patched(d3, [])
  {
    RunTwoApplied(d0, p0, p1, d1, d2);
    RunSnoc(d0, [p0, p1], p2);
    assert [p0, p1, p2] == [p0, p1] + [p2];
  }

  /** Deleting an element by `_id`, deleting a root field and setting a nested
      field, in one update: the element and the field are gone, the new field
      is there, nothing is logged. */
  lemma EndToEnd(x: Node, y: Node, z: Node, v: Node, w: Node)
    requires !HasId(x, "1") && HasId(y, "1") && w != Null
    ensures
      Run(StartDoc(x, y, z, v), [("a.b[1]", Null), ("value", Null), ("a.c", w)])
        == Patched(map["a" := Obj(map["b" := Arr([x, z]), "c" := w])], [])
  {
    var d0 := StartDoc(x, y, z, v);
    var a' := map["b" := Arr([x, z])];
    var d1 := d0["a" := Obj(a')];
    var d2 := d1 - {"value"};
    var d3 := d2["a" := Obj(a'["c" := w])];
    DeleteItemOne(x, y, z, v);
    DeleteValue(d1);
    SetAC(d2, w);
    EndToEndResult(x, y, z, v, w);
    RunThreeApplied(d0, ("a.b[1]", Null), ("value", Null), ("a.c", w), d1, d2, d3);
  }

  /** The document EndToEnd ends with, written out. */
  lemma EndToEndResult(x: Node, y: Node, z: Node, v: Node, w: Node)
    ensures ((StartDoc(x, y, z, v)["a" := Obj(map["b" := Arr([x, z])])] - {"value"})["a" := Obj(map["b" := Arr([x, z])]["c" := w])])
            == map["a" := Obj(map["b" := Arr([x, z]), "c" := w])]
  {
  }

  /** `"something": u` sets the root field `something`. */
  lemma SetSomething(d: Fields, u: Node)
    requires u != Null
    ensures ApplyKey(d, "something", u) == Applied(d["something" := u])
  {
    assert !IsBracketForm("something");
    TokenizeSingleField("something");
  }

  /** `{ value: null, something: u, "a.c": w }` on a document with an object
      `a`: `value` is gone, `something` is u, `c` is set inside `a` and the
      rest of `a`, its array `b` included, is untouched; nothing is logged. */
  lemma MultipleOperations(d: Fields, u: Node, w: Node)
    requires "a" in d && d["a"].Obj? && u != Null && w != Null
    ensures
      Run(d, [("value", Null), ("something", u), ("a.c", w)])
        == Patched((d - {"value"})["something" := u]["a" := Obj(d["a"].fields["c" := w])], [])
  {
    var d1 := d - {"value"};
    var d2 := d1["something" := u];
    assert d2["a"] == d["a"];
    DeleteValue(d);
    SetSomething(d1, u);
    SetAC(d2, w);
    RunThreeApplied(d, ("value", Null), ("something", u), ("a.c", w), d1, d2, d2["a" := Obj(d["a"].fields["c" := w])]);
  }

  /** A part that starts with `[` has no name before the bracket, so it is a
      plain field whose name keeps the brackets. */
  lemma LeadingBracketIsField()
    ensures ParseSegment("[x]") == Field("[x]")
  {
    var raw := "[x]";
    assert forall p :: 1 <= p < |raw| ==> raw[p] != '[';
  }

  /** `x[]` addresses the element whose `_id` is the empty string. */
  lemma ParseEmptyId()
    ensures Tokenize("x[]") == [Indexed("x", "")]
  {
    SplitNoDot("x[]");
    ParseRender(Indexed("x", ""));
    assert Render(Indexed("x", "")) == "x[]";
  }

  /** `"x[]": s` with a string s, on a document without `x`, creates the
      array `[s]`; a string has no `_id`, so the same pair applied again
      appends a second copy instead of replacing the first. */
  lemma AppendIsNotIdempotent(doc: Fields, s: string)
    requires FalsyField(doc, "x")
    ensures Run(doc, [("x[]", Str(s))]) == Patched(doc["x" := Arr([Str(s)])], [])
    ensures Run(doc, [("x[]", Str(s)), ("x[]", Str(s))]) == Patched(doc["x" := Arr([Str(s), Str(s)])], [])
  {
    var d1 := doc["x" := Arr([Str(s)])];
    var d2 := doc["x" := Arr([Str(s), Str(s)])];
    AppendTwice(doc, s);
    RunOneApplied(doc, ("x[]", Str(s)), d1);
    RunTwoApplied(doc, ("x[]", Str(s)), ("x[]", Str(s)), d1, d2);
  }

  /** The two single steps of AppendIsNotIdempotent. */
  lemma AppendTwice(doc: Fields, s: string)
    requires FalsyField(doc, "x")
    ensures ApplyKey(doc, "x[]", Str(s)) == Applied(doc["x" := Arr([Str(s)])])
    ensures ApplyKey(doc["x" := Arr([Str(s)])], "x[]", Str(s)) == Applied(doc["x" := Arr([Str(s), Str(s)])])
  {
    AppendToMissing(doc, s);
    AppendToScalars(doc, [Str(s)], s);
    assert [Str(s)] + [Str(s)] == [Str(s), Str(s)];
  }

  /** `"x[]": s` on a document where `x` is falsy or absent creates `x = [s]`. */
  lemma AppendToMissing(doc: Fields, s: string)
    requires FalsyField(doc, "x")
    ensures ApplyKey(doc, "x[]", Str(s)) == Applied(doc["x" := Arr([Str(s)])])
  {
    ParseEmptyId();
    IndexedOnFalsyLast(doc, "x", "", Str(s));
    assert [] + [Str(s)] == [Str(s)];
  }

  /** `"x[]": s` on an array `x` without objects adds s at its end. */
  lemma AppendToScalars(base: Fields, es: seq<Node>, s: string)
    requires forall j :: 0 <= j < |es| ==> !es[j].Obj?
    ensures ApplyKey(base["x" := Arr(es)], "x[]", Str(s)) == Applied(base["x" := Arr(es + [Str(s)])])
  {
    var doc := base["x" := Arr(es)];
    ParseEmptyId();
    assert FindById(es, "") == -1;
    IndexedWriteScalar(doc, "x", "", Str(s));
    assert doc["x" := Arr(es + [Str(s)])] == base["x" := Arr(es + [Str(s)])];
  }

  /** "v.x[1].y" is a field, an indexed segment and a field. */
  lemma TokenizeVX1Y()
    ensures Tokenize("v.x[1].y") == [Field("v"), Indexed("x", "1"), Field("y")]
  {
    assert "v.x[1].y" == "v" + "." + "x[1]" + "." + "y";
    TokenizeThree("v", "x[1]", "y");
    ParseRender(Indexed("x", "1"));
    assert Render(Indexed("x", "1")) == "x[1]";
    assert !IsBracketForm("v") && !IsBracketForm("y");
  }

  /** `"v.x[1].y"` on a document without `v`: the walk creates `v = {}`,
      then finds no array `x` in it and gives up. The `{}` it created stays
      in the document and the diagnostic names `x`. */
  lemma AbandonKeepsCreatedObject(doc: Fields, w: Node)
    requires FalsyField(doc, "v")
    ensures ApplyKey(doc, "v.x[1].y", w) == Abandoned(doc["v" := Obj(map[])], NotAnArrayMessage("x"))
  {
    var segs := [Field("v"), Indexed("x", "1"), Field("y")];
    TokenizeVX1Y();
    assert ApplyKey(doc, "v.x[1].y", w) == Walk(doc, segs, 0, w);
    AbandonKeepsVivified(doc, segs, w);
  }

  /** An empty id is compared with `===` like any other, so `name[]` does
      not always append: it replaces an element whose `_id` is "". */
  lemma EmptyIdMatchesEmptyString(cur: Fields, name: string, e: Node, s: string)
    requires name in cur && cur[name] == Arr([e]) && HasId(e, "")
    ensures ApplyLast(cur, Indexed(name, ""), Str(s)) == cur[name := Arr([Str(s)])]
  {
    assert FindById([e], "") == 0;
    IndexedWriteScalar(cur, name, "", Str(s));
    assert [e][0 := Str(s)] == [Str(s)];
  }

  /** A key `b[id]` with an object payload on a document without `b`
      creates `b` as the one-element array holding the payload tagged with
      that id; the other root fields stay. */
  lemma NewArrayOnRoot(doc: Fields, id: string, payload: Fields)
    requires FalsyField(doc, "b")
    requires '.' !in id && forall j :: 0 <= j < |id| ==> !IsLineTerminator(id[j])
    ensures ApplyKey(doc, "b[" + id + "]", Obj(payload)) == Applied(doc["b" := Arr([Obj(IdStub(id) + payload)])])
  {
    TokenizeBId(id);
    WalkLast(doc, [Indexed("b", id)], Obj(payload));
    IndexedOnFalsyLast(doc, "b", id, Obj(payload));
  }

  /** `b[id]` is the element of `b` with that `_id`. */
  lemma TokenizeBId(id: string)
    requires '.' !in id && forall j :: 0 <= j < |id| ==> !IsLineTerminator(id[j])
    ensures Tokenize("b[" + id + "]") == [Indexed("b", id)]
  {
    var key := "b[" + id + "]";
    assert key == Render(Indexed("b", id));
    assert '.' !in key by {
      forall j | 0 <= j < |key| ensures key[j] != '.' {
        if 2 <= j < |key| - 1 {
          assert key[j] == id[j - 2];
        }
      }
    }
    ParseRender(Indexed("b", id));
    SplitNoDot(key);
  }

  /** "a.b[123]" is the field `a`, then the element of `b` with `_id` "123". */
  lemma KeyAB123()
    ensures "a.b[123]" == "a" + "." + "b[123]"
    ensures '.' !in "a" && '.' !in "b[123]" && !IsBracketForm("a")
    ensures ParseSegment("b[123]") == Indexed("b", "123")
  {
    ParseRender(Indexed("b", "123"));
    assert Render(Indexed("b", "123")) == "b[123]";
  }

  /** `"a.b[123]": { ...payload }` where `a.b` is a non-empty string turns
      `b` into the array holding the tagged payload; the other fields of `a`
      and of the document stay. */
  lemma CoerceScalarToArray(doc: Fields, s: string, payload: Fields)
    requires "a" in doc && doc["a"].Obj?
    requires "b" in doc["a"].fields && doc["a"].fields["b"] == Str(s) && s != ""
    ensures ApplyKey(doc, "a.b[123]", Obj(payload))
            == Applied(doc["a" := Obj(doc["a"].fields["b" := Arr([Obj(IdStub("123") + payload)])])])
  {
    KeyAB123();
    NestedKey(doc, "a", "b[123]", Obj(payload));
    CoerceLast(doc["a"].fields, "b", "123", payload);
  }

  lemma CoerceLast(a: Fields, name: string, id: string, payload: Fields)
    requires name in a && a[name].Str? && a[name].s != ""
    ensures ApplyLast(a, Indexed(name, id), Obj(payload)) == a[name := Arr([Obj(IdStub(id) + payload)])]
  {
    IndexedOnNonArrayLast(a, name, id, Obj(payload));
  }

  /** `"v.x[1].y"` on a document whose `v` is a non-empty string, a non-zero
      number or `true`: `v` is not replaced, there is no array `x` on it, and
      the key is given up with the document unchanged. */
  lemma ScalarThenIndexedAbandons(doc: Fields, w: Node)
    requires "v" in doc && !Falsy(doc["v"]) && (doc["v"].Str? || doc["v"].Num? || doc["v"].Bool?)
    ensures ApplyKey(doc, "v.x[1].y", w) == Abandoned(doc, NotAnArrayMessage("x"))
  {
    var segs := [Field("v"), Indexed("x", "1"), Field("y")];
    TokenizeVX1Y();
    assert ApplyKey(doc, "v.x[1].y", w) == Walk(doc, segs, 0, w);
    IndexedPastScalar(doc, segs, 0, w);
  }

  /** An abandoned key followed by an applied one. */
  lemma RunAbandonedThenApplied(d0: Fields, p0: (string, Node), p1: (string, Node), d1: Fields, msg: string, d2: Fields)
    requires ApplyKey(d0, p0.0, p0.1) == Abandoned(d1, msg)
    requires ApplyKey(d1, p1.0, p1.1) == Applied(d2)
    ensures Run(d0, [p0, p1]) == Patched(d2, [msg])
  {
    RunOne(d0, p0);
    assert [] + [msg] == [msg];
    assert Run(d0, [p0]) == Patched(d1, [msg]);
    RunSnoc(d0, [p0], p1);
    assert [p0, p1] == [p0] + [p1];
  }

  /** The key after an abandoned one still runs: `{ "v.x[1].y": w,
      something: u }` logs the diagnostic for `x` and sets `something`. */
  lemma AbandonThenContinue(doc: Fields, w: Node, u: Node)
    requires "v" in doc && !Falsy(doc["v"]) && (doc["v"].Str? || doc["v"].Num? || doc["v"].Bool?)
    requires u != Null
    ensures Run(doc, [("v.x[1].y", w), ("something", u)]) == Patched(doc["something" := u], [NotAnArrayMessage("x")])
  {
    ScalarThenIndexedAbandons(doc, w);
    SetSomething(doc, u);
    RunAbandonedThenApplied(doc, ("v.x[1].y", w), ("something", u), doc, NotAnArrayMessage("x"), doc["something" := u]);
  }

  /** A two-element sequence has the index keys "0" and "1". */
  lemma IndexPropsPair(e0: Node, e1: Node)
    ensures IndexProps([e0, e1]).Keys == {"0", "1"}
    ensures IndexProps([e0, e1])["0"] == e0 && IndexProps([e0, e1])["1"] == e1
  {
    IndexKeysZeroOne();
    var props := IndexProps([e0, e1]);
    forall k | k in props ensures k == "0" || k == "1" {
      var j :| 0 <= j < 2 && k == IndexKey(j);
      if j == 0 {
        assert k == IndexKey(0);
      } else {
        assert k == IndexKey(1);
      }
    }
  }

  /** The index keys of a two-character string are "0" and "1". */
  lemma SpreadTwoChars(s: string)
    requires |s| == 2
    ensures SpreadProps(Str(s)).Keys == {"0", "1"}
    ensures SpreadProps(Str(s))["0"] == Str([s[0]]) && SpreadProps(Str(s))["1"] == Str([s[1]])
  {
    assert Chars(s) == [Str([s[0]]), Str([s[1]])];
    IndexPropsPair(Str([s[0]]), Str([s[1]]));
  }

  /** The names of the first two indices. */
  lemma IndexKeysZeroOne()
    ensures IndexKey(0) == "0" && IndexKey(1) == "1"
  {
    assert DigitChar(0) == '0' && DigitChar(1) == '1';
  }

  /** A two-character string payload written to `name[id]` over a truthy
      property that is not an array is spread character by character:
      `{ _id: id, ..."ab" }` is `{ _id: id, 0: "a", 1: "b" }`. */
  lemma SpreadStringPayload(cur: Fields, name: string, id: string, s: string)
    requires !FalsyField(cur, name) && !cur[name].Arr? && |s| == 2
    ensures
      var m := TagWithId(Str(s), id);
      && ApplyLast(cur, Indexed(name, id), Str(s)) == cur[name := Arr([Obj(m)])]
      && m.Keys == {"_id", "0", "1"}
      && m["_id"] == Str(id) && m["0"] == Str([s[0]]) && m["1"] == Str([s[1]])
  {
    IndexedOnNonArrayLast(cur, name, id, Str(s));
    SpreadTwoChars(s);
  }
}
