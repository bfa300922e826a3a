/** What the handler promises, stated over the reference definitions Walk,
    ApplyKey and Run that the loops of MutationExecutor are proved to compute. */
module PatchProperties {
  import opened Json
  import opened PathTokenizer
  import opened ArrayLocator
  import opened Cursor
  import opened MutationExecutor

  // ---------------------------------------------------------------------
  // Field on the last segment
  // ---------------------------------------------------------------------

  /** A key with no dot that is not in bracket form names one root field. */
  lemma {:induction false} TokenizeSingleField(key: string)
    requires '.' !in key && !IsBracketForm(key)
    ensures Tokenize(key) == [Field(key)]
  {
    SplitNoDot(key);
  }

  /** Setting a root field to a value other than null stores exactly that
      value (an object replaces the whole subtree, nothing is merged) and
      leaves every other field as it was. */
  lemma FieldSetReplaces(doc: Fields, key: string, value: Node)
    requires '.' !in key && !IsBracketForm(key)
    requires value != Null
    ensures ApplyKey(doc, key, value).Applied?
    ensures ApplyKey(doc, key, value).doc.Keys == doc.Keys + {key}
    ensures ApplyKey(doc, key, value).doc[key] == value
    ensures forall k :: k in doc && k != key ==> ApplyKey(doc, key, value).doc[k] == doc[k]
  {
    TokenizeSingleField(key);
  }

  /** Setting a root field to null removes it, leaves the other fields as
      they were, and changes nothing when the field is absent. */
  lemma FieldDeleteRemoves(doc: Fields, key: string)
    requires '.' !in key && !IsBracketForm(key)
    ensures ApplyKey(doc, key, Null).Applied?
    ensures ApplyKey(doc, key, Null).doc.Keys == doc.Keys - {key}
    ensures forall k :: k in doc && k != key ==> ApplyKey(doc, key, Null).doc[k] == doc[k]
    ensures key !in doc ==> ApplyKey(doc, key, Null).doc == doc
  {
    TokenizeSingleField(key);
  }

  predicate AllFields(segs: seq<Segment>)
  {
    forall j :: 0 <= j < |segs| ==> segs[j].Field?
  }

  /** A walk over field segments only is never abandoned, and once it has
      been applied, applying it again changes nothing. */
  lemma {:induction false} WalkFieldsIdempotent(cur: Fields, segs: seq<Segment>, i: nat, value: Node)
    requires i < |segs| && AllFields(segs)
    ensures !Walk(cur, segs, i, value).Abandoned?
    ensures Walk(cur, segs, i, value).Applied? ==>
      Walk(Walk(cur, segs, i, value).doc, segs, i, value) == Walk(cur, segs, i, value)
    decreases |segs| - i
  {
    if i == |segs| - 1 {
      WalkFieldLastTwice(cur, segs[i].name, value);
      WalkLast(cur, segs, value);
      WalkLast(ApplyLast(cur, segs[i], value), segs, value);
    } else {
      match Descend(cur, segs[i])
      case Enter(d, st, child) =>
        WalkFieldsIdempotent(child, segs, i + 1, value);
        WalkFieldsEnterTwice(cur, segs, i, value, d, child);
      case OnValue(v) =>
        WalkFieldsPastValue(cur, segs, i, value, v);
    }
  }

  /** The last field segment, applied twice, changes nothing the second time. */
  lemma WalkFieldLastTwice(cur: Fields, name: string, value: Node)
    ensures ApplyLast(ApplyLast(cur, Field(name), value), Field(name), value) == ApplyLast(cur, Field(name), value)
  {
    var r := ApplyLast(cur, Field(name), value);
    if value == Null {
      assert r - {name} == r;
    } else {
      assert r[name := value] == r;
    }
  }

  /** A field walk that lands on a value other than an object either leaves
      the object as it was or is undefined, the same both times. */
  lemma WalkFieldsPastValue(cur: Fields, segs: seq<Segment>, i: nat, value: Node, v: Node)
    requires i < |segs| - 1 && AllFields(segs)
    requires Descend(cur, segs[i]) == OnValue(v)
    ensures !Walk(cur, segs, i, value).Abandoned?
    ensures Walk(cur, segs, i, value).Applied? ==> Walk(cur, segs, i, value).doc == cur
  {
    assert segs[i + 1].Field?;
  }

  /** The step case: the second walk enters the object the first one wrote
      back and finds the inner walk's result already there. */
  lemma WalkFieldsEnterTwice(cur: Fields, segs: seq<Segment>, i: nat, value: Node, d: Fields, child: Fields)
    requires i < |segs| - 1 && segs[i].Field?
    requires Descend(cur, segs[i]) == Enter(d, Member(segs[i].name), child)
    requires !Walk(child, segs, i + 1, value).Abandoned?
    requires Walk(child, segs, i + 1, value).Applied? ==>
      Walk(Walk(child, segs, i + 1, value).doc, segs, i + 1, value) == Walk(child, segs, i + 1, value)
    ensures !Walk(cur, segs, i, value).Abandoned?
    ensures Walk(cur, segs, i, value).Applied? ==>
      Walk(Walk(cur, segs, i, value).doc, segs, i, value) == Walk(cur, segs, i, value)
  {
    var name := segs[i].name;
    var inner := Walk(child, segs, i + 1, value);
    if inner.Applied? {
      var d' := d[name := Obj(inner.doc)];
      assert Walk(cur, segs, i, value) == Applied(d');
      assert Descend(d', segs[i]) == Enter(d', Member(name), inner.doc);
      assert d'[name := Obj(inner.doc)] == d';
    }
  }

  /** Applying the same key twice in a row, when it has no indexed segment,
      gives the document applying it once gives. */
  lemma FieldSetIdempotent(doc: Fields, key: string, value: Node)
    requires AllFields(Tokenize(key))
    ensures Run(doc, [(key, value), (key, value)]) == Run(doc, [(key, value)])
  {
    WalkFieldsIdempotent(doc, Tokenize(key), 0, value);
    assert [(key, value), (key, value)][..1] == [(key, value)];
    assert [(key, value)][..0] == [];
  }

  // ---------------------------------------------------------------------
  // Auto-vivification
  // ---------------------------------------------------------------------

  /** A falsy or absent field before the last segment becomes `{}` and the
      walk continues into it; an object there is entered as it is. */
  lemma AutoVivify(cur: Fields, name: string)
    ensures FalsyField(cur, name) ==>
      Descend(cur, Field(name)) == Enter(cur[name := Obj(map[])], Member(name), map[])
    ensures name in cur && cur[name].Obj? ==>
      Descend(cur, Field(name)) == Enter(cur, Member(name), cur[name].fields)
  {
  }

  /** A walk over field segments from an object where none of them exists
      builds the chain of objects and stores the value at its end. */
  lemma {:induction false} WalkFieldsOnFreshObject(segs: seq<Segment>, i: nat, value: Node)
    requires i < |segs| && AllFields(segs) && value != Null
    ensures Walk(map[], segs, i, value) == Applied(Nest(segs, i, value))
    decreases |segs| - i
  {
    if i < |segs| - 1 {
      WalkFieldsOnFreshObject(segs, i + 1, value);
    }
  }

  /** `{ s_i: { s_i+1: ... { s_last: value } } }` for field segments. */
  function Nest(segs: seq<Segment>, i: nat, value: Node): Fields
    requires i < |segs|
    decreases |segs| - i
  {
    if i == |segs| - 1 then map[segs[i].name := value]
    else map[segs[i].name := Obj(Nest(segs, i + 1, value))]
  }

  /** The first field of a dotted path, when falsy or absent on the root,
      receives the whole nested chain; the rest of the document is kept. */
  lemma {:induction false} VivifyFromRoot(doc: Fields, segs: seq<Segment>, value: Node)
    requires |segs| >= 2 && AllFields(segs) && value != Null
    requires FalsyField(doc, segs[0].name)
    ensures Walk(doc, segs, 0, value) == Applied(doc[segs[0].name := Obj(Nest(segs, 1, value))])
  {
    WalkFieldsOnFreshObject(segs, 1, value);
  }

  // ---------------------------------------------------------------------
  // Indexed segment on the last position: lookup, delete, tagged write
  // ---------------------------------------------------------------------

  /** Deleting an element by `_id` removes exactly the first match and keeps
      the remaining elements in order; with no match the array is as it was. */
  lemma IndexedDelete(cur: Fields, name: string, id: string)
    requires name in cur && cur[name].Arr?
    ensures
      var es := cur[name].elems;
      var r := ApplyLast(cur, Indexed(name, id), Null);
      && r.Keys == cur.Keys
      && (forall k :: k in cur && k != name ==> r[k] == cur[k])
      && (FindById(es, id) == -1 ==> r == cur)
      && (FindById(es, id) >= 0 ==>
            var idx := FindById(es, id);
            var es' := r[name].elems;
            && r[name].Arr?
            && |es'| == |es| - 1
            && (forall j :: 0 <= j < idx ==> es'[j] == es[j])
            && (forall j :: idx <= j < |es'| ==> es'[j] == es[j + 1]))
  {
    var es := cur[name].elems;
    var idx := FindById(es, id);
    assert !FalsyField(cur, name);
    if idx >= 0 {
      assert ApplyLast(cur, Indexed(name, id), Null) == cur[name := Arr(es[..idx] + es[idx + 1..])];
    } else {
      assert ApplyLast(cur, Indexed(name, id), Null) == cur;
    }
  }

  /** Writing an object payload to `name[id]`: the stored element is the
      payload over a default `_id` of id, so a payload `_id` wins; it takes
      the place of the first element with that `_id`, or is appended, and the
      other elements are untouched. */
  lemma IndexedWriteObject(cur: Fields, name: string, id: string, payload: Fields)
    requires name in cur && cur[name].Arr?
    ensures
      var es := cur[name].elems;
      var idx := FindById(es, id);
      var r := ApplyLast(cur, Indexed(name, id), Obj(payload));
      && r.Keys == cur.Keys
      && (forall k :: k in cur && k != name ==> r[k] == cur[k])
      && r[name].Arr?
      && var es' := r[name].elems;
      && var at := if idx == -1 then |es| else idx;
      && |es'| == (if idx == -1 then |es| + 1 else |es|)
      && (forall j :: 0 <= j < |es| && j != at ==> es'[j] == es[j])
      && es'[at].Obj?
      && es'[at].fields.Keys == payload.Keys + {"_id"}
      && (forall k :: k in payload ==> es'[at].fields[k] == payload[k])
      && es'[at].fields["_id"] == (if "_id" in payload then payload["_id"] else Str(id))
  {
  }

  /** A string, number or boolean payload is stored as it is, with no `_id`. */
  lemma IndexedWriteScalar(cur: Fields, name: string, id: string, value: Node)
    requires name in cur && cur[name].Arr?
    requires value.Bool? || value.Num? || value.Str?
    ensures
      var es := cur[name].elems;
      var idx := FindById(es, id);
      ApplyLast(cur, Indexed(name, id), value) == cur[name := Arr(if idx == -1 then es + [value] else es[idx := value])]
  {
  }

  // ---------------------------------------------------------------------
  // Indexed segment whose property is not an array
  // ---------------------------------------------------------------------

  /** On the last segment a falsy or absent property is first set to `[]`,
      so the write then appends to the empty array; a delete leaves `[]`. */
  lemma IndexedOnFalsyLast(cur: Fields, name: string, id: string, value: Node)
    requires FalsyField(cur, name)
    ensures ApplyLast(cur, Indexed(name, id), value) == ApplyLast(cur[name := Arr([])], Indexed(name, id), value)
    ensures value == Null ==> ApplyLast(cur, Indexed(name, id), value) == cur[name := Arr([])]
    ensures value != Null ==> ApplyLast(cur, Indexed(name, id), value) == cur[name := Arr([Tagged(value, id)])]
  {
    var cur1 := cur[name := Arr([])];
    assert !FalsyField(cur1, name);
    assert cur1[name := Arr([])] == cur1;
    assert FindById([], id) == -1;
    if value != Null {
      assert [] + [Tagged(value, id)] == [Tagged(value, id)];
    }
  }

  /** On the last segment a truthy property that is not an array is
      replaced by the one-element array `[{ _id: id, ...value }]`, whatever
      the value, null, strings and arrays included. */
  lemma IndexedOnNonArrayLast(cur: Fields, name: string, id: string, value: Node)
    requires !FalsyField(cur, name) && !cur[name].Arr?
    ensures ApplyLast(cur, Indexed(name, id), value)
            == cur[name := Arr([Obj(IdStub(id) + SpreadProps(value))])]
  {
  }

  /** Before the last segment, a property that is absent or not an array
      abandons the key there, with the diagnostic naming the property, and
      leaves the object under the cursor unchanged. */
  lemma IndexedOnNonArrayMidPath(cur: Fields, segs: seq<Segment>, i: nat, value: Node)
    requires i < |segs| - 1 && segs[i].Indexed?
    requires segs[i].name !in cur || !cur[segs[i].name].Arr?
    ensures Walk(cur, segs, i, value) == Abandoned(cur, segs[i].name + " is not an array.")
  {
  }

  /** A key whose first segment is indexed and not last, over a root property
      that is not an array, leaves the whole document unchanged. */
  lemma AbandonAtRootChangesNothing(doc: Fields, key: string, value: Node)
    requires |Tokenize(key)| >= 2 && Tokenize(key)[0].Indexed?
    requires Tokenize(key)[0].name !in doc || !doc[Tokenize(key)[0].name].Arr?
    ensures ApplyKey(doc, key, value) == Abandoned(doc, NotAnArrayMessage(Tokenize(key)[0].name))
  {
  }

  /** A key abandoned one level down keeps what the walk wrote on its way:
      a first field that was falsy or absent is left as `{}`. */
  lemma AbandonKeepsVivified(doc: Fields, segs: seq<Segment>, value: Node)
    requires |segs| >= 3 && segs[0].Field? && segs[1].Indexed?
    requires FalsyField(doc, segs[0].name)
    ensures Walk(doc, segs, 0, value)
            == Abandoned(doc[segs[0].name := Obj(map[])], NotAnArrayMessage(segs[1].name))
  {
    var d := doc[segs[0].name := Obj(map[])];
    AutoVivify(doc, segs[0].name);
    IndexedOnNonArrayMidPath(map[], segs, 1, value);
    assert PutAt(d, [Member(segs[0].name)], map[]) == d;
  }

  // ---------------------------------------------------------------------
  // A field holding a truthy value that is not an object
  // ---------------------------------------------------------------------

  /** A field before the last segment that holds a non-empty string, a
      non-zero number or `true` is not replaced by `{}`; an indexed segment
      after it finds no array there and abandons the key, leaving the object
      under the cursor as it was. */
  lemma IndexedPastScalar(cur: Fields, segs: seq<Segment>, i: nat, value: Node)
    requires i + 1 < |segs| - 1 && segs[i].Field? && segs[i + 1].Indexed?
    requires segs[i].name in cur && !Falsy(cur[segs[i].name])
    requires cur[segs[i].name].Str? || cur[segs[i].name].Num? || cur[segs[i].name].Bool?
    ensures Walk(cur, segs, i, value) == Abandoned(cur, NotAnArrayMessage(segs[i + 1].name))
  {
    assert Descend(cur, segs[i]) == OnValue(cur[segs[i].name]);
  }

  /** `a.b` deleting a property of a truthy value other than an object: a
      number or boolean has no properties of its own, so nothing changes; a
      string or array is left as it is unless b is its `length` or one of
      its index keys. The key completes exactly in those cases, and every
      other value stored through such a field leaves the key undefined. */
  lemma DeletePastValue(cur: Fields, a: string, b: string, value: Node)
    requires a in cur && !Falsy(cur[a]) && !cur[a].Obj?
    ensures Walk(cur, [Field(a), Field(b)], 0, value).Applied?
            <==> value == Null && !HasOwnProperty(cur[a], b)
    ensures Walk(cur, [Field(a), Field(b)], 0, value).Applied? ==> Walk(cur, [Field(a), Field(b)], 0, value).doc == cur
    ensures !Walk(cur, [Field(a), Field(b)], 0, value).Abandoned?
    ensures (cur[a].Num? || cur[a].Bool?) && value == Null ==> Walk(cur, [Field(a), Field(b)], 0, value) == Applied(cur)
  {
    assert Descend(cur, Field(a)) == OnValue(cur[a]);
  }

  /** The walk of segments i.. from cur reaches the object c at segment j:
      every segment from i to j - 1 enters an object, and c is the last one
      entered. */
  predicate Reaches(cur: Fields, segs: seq<Segment>, i: nat, j: nat, c: Fields)
    requires i <= j < |segs|
    decreases j - i
  {
    if i == j then c == cur
    else match Descend(cur, segs[i])
      case Enter(_, _, child) => Reaches(child, segs, i + 1, j, c)
      case _ => false
  }

  /** Segment j of the walk finds, in the object c the walk reached, a field
      holding a truthy value v other than an object, and the step after it
      is one the model leaves undefined. */
  predicate UndefinedPastValue(segs: seq<Segment>, j: nat, c: Fields, value: Node)
    requires j < |segs| - 1
  {
    && segs[j].Field? && segs[j].name in c
    && !Falsy(c[segs[j].name]) && !c[segs[j].name].Obj?
    && BeyondValue(c[segs[j].name], segs[j + 1], j + 1 == |segs| - 1, value).Undefined?
  }

  /** A key is undefined exactly when its walk reaches an object with a
      field holding a truthy value other than an object and the next step
      past that value is undefined; every other step of the walk is defined. */
  lemma {:induction false} StuckOnlyPastValue(cur: Fields, segs: seq<Segment>, i: nat, value: Node)
    requires i < |segs|
    ensures Walk(cur, segs, i, value).Stuck? <==>
      exists j, c :: i <= j < |segs| - 1 && Reaches(cur, segs, i, j, c) && UndefinedPastValue(segs, j, c, value)
    decreases |segs| - i
  {
    forall j, c | i <= j < |segs| - 1 && Reaches(cur, segs, i, j, c) && UndefinedPastValue(segs, j, c, value)
      ensures Walk(cur, segs, i, value).Stuck?
    {
      StuckPastValue(cur, segs, i, value, j, c);
    }
    if Walk(cur, segs, i, value).Stuck? {
      assert i < |segs| - 1;
      match Descend(cur, segs[i])
      case Enter(d, st, child) =>
        StuckOnlyPastValue(child, segs, i + 1, value);
        var j, c :| i + 1 <= j < |segs| - 1 && Reaches(child, segs, i + 1, j, c) && UndefinedPastValue(segs, j, c, value);
        assert Reaches(cur, segs, i, j, c);
      case OnValue(v) =>
        assert Reaches(cur, segs, i, i, cur);
        assert UndefinedPastValue(segs, i, cur, value);
    }
  }

  /** The converse half: a walk that reaches such a field is undefined. */
  lemma {:induction false} StuckPastValue(cur: Fields, segs: seq<Segment>, i: nat, value: Node, j: nat, c: Fields)
    requires i <= j < |segs| - 1 && Reaches(cur, segs, i, j, c) && UndefinedPastValue(segs, j, c, value)
    ensures Walk(cur, segs, i, value).Stuck?
    decreases j - i
  {
    if i == j {
      assert Descend(cur, segs[i]) == OnValue(cur[segs[i].name]);
    } else {
      match Descend(cur, segs[i])
      case Enter(d, st, child) =>
        StuckPastValue(child, segs, i + 1, value, j, c);
    }
  }

  // ---------------------------------------------------------------------
  // Indexed segment before the last: descend into the element
  // ---------------------------------------------------------------------

  /** With no element of that `_id`, exactly one stub `{ _id: id }` is
      appended and the walk continues into it; otherwise the walk continues
      into the first matching element and the array is left as it was. */
  lemma IndexedMidPath(cur: Fields, name: string, id: string)
    requires name in cur && cur[name].Arr?
    ensures
      var es := cur[name].elems;
      var idx := FindById(es, id);
      var e := Descend(cur, Indexed(name, id));
      && e.Enter?
      && (idx == -1 ==>
            && e.doc == cur[name := Arr(es + [Obj(IdStub(id))])]
            && e.step == Element(name, |es|)
            && e.child == IdStub(id))
      && (idx >= 0 ==>
            && e.doc == cur
            && e.step == Element(name, idx)
            && e.child == es[idx].fields)
  {
  }

  /** `name[id].field` set on a matching element updates that field of the
      element and keeps its other fields, the other elements and the other
      properties of the object. */
  lemma IndexedThenFieldKeepsSiblings(cur: Fields, name: string, id: string, field: string, value: Node)
    requires name in cur && cur[name].Arr?
    requires FindById(cur[name].elems, id) >= 0
    requires value != Null
    ensures
      var es := cur[name].elems;
      var idx := FindById(es, id);
      Walk(cur, [Indexed(name, id), Field(field)], 0, value)
        == Applied(cur[name := Arr(es[idx := Obj(es[idx].fields[field := value])])])
  {
    var segs := [Indexed(name, id), Field(field)];
    var es := cur[name].elems;
    var idx := FindById(es, id);
    assert Descend(cur, segs[0]) == Enter(cur, Element(name, idx), es[idx].fields);
    assert Walk(es[idx].fields, segs, 1, value) == Applied(es[idx].fields[field := value]);
  }

  /** `name[id].field` with no matching element appends one stub and sets
      the field on it: the new element is `{ _id: id, field: value }`. */
  lemma IndexedThenFieldOnMissing(cur: Fields, name: string, id: string, field: string, value: Node)
    requires name in cur && cur[name].Arr?
    requires FindById(cur[name].elems, id) == -1
    requires value != Null
    ensures
      var es := cur[name].elems;
      Walk(cur, [Indexed(name, id), Field(field)], 0, value)
        == Applied(cur[name := Arr(es + [Obj(IdStub(id)[field := value])])])
  {
    var segs := [Indexed(name, id), Field(field)];
    var es := cur[name].elems;
    var d := cur[name := Arr(es + [Obj(IdStub(id))])];
    assert Descend(cur, segs[0]) == Enter(d, Element(name, |es|), IdStub(id));
    assert (es + [Obj(IdStub(id))])[|es| := Obj(IdStub(id)[field := value])] == es + [Obj(IdStub(id)[field := value])];
  }

  /** A field segment over an existing object descends into it: the rest
      of the walk happens inside that object and the result is written back
      in its place. */
  lemma WalkIntoObject(cur: Fields, segs: seq<Segment>, i: nat, value: Node)
    requires i < |segs| - 1 && segs[i].Field?
    requires segs[i].name in cur && cur[segs[i].name].Obj?
    ensures Walk(cur, segs, i, value)
            == Graft(cur, [Member(segs[i].name)], Walk(cur[segs[i].name].fields, segs, i + 1, value))
  {
  }

  /** A two-part key `a.b` whose first part names an existing object: the
      last segment is applied inside that object, which is written back in
      place of the old one; nothing else in the document changes. */
  lemma NestedKey(doc: Fields, a: string, b: string, value: Node)
    requires '.' !in a && '.' !in b && !IsBracketForm(a)
    requires a in doc && doc[a].Obj?
    ensures ApplyKey(doc, a + "." + b, value) == Applied(doc[a := Obj(ApplyLast(doc[a].fields, ParseSegment(b), value))])
  {
    TokenizeTwo(a, b);
    var segs := [Field(a), ParseSegment(b)];
    WalkIntoObject(doc, segs, 0, value);
    WalkLast(doc[a].fields, segs, value);
  }

  // ---------------------------------------------------------------------
  // Order and locality across keys
  // ---------------------------------------------------------------------

  /** Continuing a result with more pairs. */
  function Resume(r: PatchResult, update: seq<(string, Node)>): PatchResult
  {
    match r
    case Failed(k) => Failed(k)
    case Patched(d, ds) =>
      match Run(d, update)
      case Failed(k) => Failed(k)
      case Patched(d2, ds2) => Patched(d2, ds + ds2)
  }

  /** Run unfolded once at the end of the update. */
  lemma RunSnoc(doc: Fields, u: seq<(string, Node)>, p: (string, Node))
    ensures Run(doc, u + [p]) == match Run(doc, u)
      case Failed(k) => Failed(k)
      case Patched(d, ds) => ApplyPair(d, ds, p)
  {
    assert (u + [p])[..|u|] == u;
  }

  /** ApplyPair after some diagnostics is ApplyPair with the earlier ones
      added in front. */
  lemma ApplyPairPrefix(d: Fields, ds: seq<string>, ds2: seq<string>, p: (string, Node))
    ensures ApplyPair(d, ds + ds2, p) == match ApplyPair(d, ds2, p)
      case Failed(k) => Failed(k)
      case Patched(d3, ds3) => Patched(d3, ds + ds3)
  {
    match ApplyKey(d, p.0, p.1)
    case Applied(_) =>
    case Abandoned(_, msg) =>
      assert ds + ds2 + [msg] == ds + (ds2 + [msg]);
    case Stuck =>
  }

  /** Keys are applied in update order: the pairs after a prefix run on the
      document the prefix produced, and the diagnostics of both parts are
      logged in order. */
  lemma {:induction false} RunAppend(doc: Fields, u1: seq<(string, Node)>, u2: seq<(string, Node)>)
    ensures Run(doc, u1 + u2) == Resume(Run(doc, u1), u2)
    decreases |u2|
  {
    if u2 == [] {
      assert u1 + u2 == u1;
      match Run(doc, u1)
      case Failed(k) =>
      case Patched(d, ds) =>
        assert ds + [] == ds;
    } else {
      var front, last := u2[..|u2| - 1], u2[|u2| - 1];
      assert u1 + u2 == (u1 + front) + [last];
      assert u2 == front + [last];
      RunSnoc(doc, u1 + front, last);
      RunAppend(doc, u1, front);
      match Run(doc, u1)
      case Failed(k) =>
      case Patched(d, ds) =>
        RunSnoc(d, front, last);
        match Run(d, front)
        case Failed(k) =>
        case Patched(d2, ds2) =>
          ApplyPairPrefix(d2, ds, ds2, last);
    }
  }

  /** A single abandoned key keeps what it had written, adds its diagnostic,
      and the next keys run on that document. */
  lemma AbandonedKeyIsLocal(doc: Fields, key: string, value: Node, rest: seq<(string, Node)>)
    requires ApplyKey(doc, key, value).Abandoned?
    ensures
      var a := ApplyKey(doc, key, value);
      Run(doc, [(key, value)] + rest) == Resume(Patched(a.doc, [a.diagnostic]), rest)
  {
    var p := (key, value);
    var a := ApplyKey(doc, key, value);
    RunAppend(doc, [p], rest);
    RunOne(doc, p);
    assert [] + [a.diagnostic] == [a.diagnostic];
    assert Run(doc, [p]) == Patched(a.doc, [a.diagnostic]);
  }

  /** An update of a single pair. */
  lemma RunOne(doc: Fields, p: (string, Node))
    ensures Run(doc, [p]) == ApplyPair(doc, [], p)
  {
    assert [p][..0] == [];
  }
}
