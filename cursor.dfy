/** Where the handler's cursor `currentPart` points: the path of property and
    array-element steps from the document root to the object it stands on,
    the object found there, and writing a new version of that object back
    into the root. A write at the cursor is what an in-place assignment
    through `currentPart` does to the document. */
module Cursor {
  import opened Json

  /** `cur[name]`, or `cur[name][index]` for an element of the array there. */
  datatype Step = Member(name: string) | Element(name: string, index: nat)

  /** The object at the end of the path, if every step lands on an object. */
  function ObjAt(doc: Fields, path: seq<Step>): Option<Fields>
    decreases |path|
  {
    if path == [] then Some(doc)
    else match path[0]
      case Member(k) =>
        if k in doc && doc[k].Obj? then ObjAt(doc[k].fields, path[1..]) else None
      case Element(k, i) =>
        if k in doc && doc[k].Arr? && i < |doc[k].elems| && doc[k].elems[i].Obj?
        then ObjAt(doc[k].elems[i].fields, path[1..])
        else None
  }

  /** The document with the object at the end of the path replaced by m. */
  function PutAt(doc: Fields, path: seq<Step>, m: Fields): (r: Fields)
    requires ObjAt(doc, path).Some?
    ensures ObjAt(r, path) == Some(m)
    decreases |path|
  {
    if path == [] then m
    else match path[0]
      case Member(k) =>
        doc[k := Obj(PutAt(doc[k].fields, path[1..], m))]
      case Element(k, i) =>
        var es := doc[k].elems;
        doc[k := Arr(es[i := Obj(PutAt(es[i].fields, path[1..], m))])]
  }

  /** A write at the cursor changes only the root property the path starts
      with, and an element step leaves the array's length and its other
      elements as they were. */
  lemma PutAtLocal(doc: Fields, path: seq<Step>, m: Fields)
    requires ObjAt(doc, path).Some? && path != []
    ensures PutAt(doc, path, m).Keys == doc.Keys
    ensures forall k :: k in doc && k != path[0].name ==> PutAt(doc, path, m)[k] == doc[k]
    ensures path[0].Element? ==>
      var es := doc[path[0].name].elems;
      var es' := PutAt(doc, path, m)[path[0].name];
      && es'.Arr? && |es'.elems| == |es|
      && forall j :: 0 <= j < |es| && j != path[0].index ==> es'.elems[j] == es[j]
  {
  }

  /** Writing back what is already there changes nothing. */
  lemma {:induction false} PutAtSelf(doc: Fields, path: seq<Step>)
    requires ObjAt(doc, path).Some?
    ensures PutAt(doc, path, ObjAt(doc, path).value) == doc
    decreases |path|
  {
    if path != [] {
      match path[0]
      case Member(k) =>
        PutAtSelf(doc[k].fields, path[1..]);
      case Element(k, i) =>
        PutAtSelf(doc[k].elems[i].fields, path[1..]);
        assert doc[k].elems[i := doc[k].elems[i]] == doc[k].elems;
    }
  }

  /** After writing m at path, one step further lands on the object m holds
      at that step. */
  lemma {:induction false} ObjAtExtend(doc: Fields, path: seq<Step>, m: Fields, st: Step)
    requires ObjAt(doc, path).Some?
    requires ObjAt(m, [st]).Some?
    ensures ObjAt(PutAt(doc, path, m), path + [st]) == ObjAt(m, [st])
    decreases |path|
  {
    if path == [] {
      assert path + [st] == [st];
    } else {
      assert (path + [st])[0] == path[0];
      assert (path + [st])[1..] == path[1..] + [st];
      match path[0]
      case Member(k) =>
        ObjAtExtend(doc[k].fields, path[1..], m, st);
      case Element(k, i) =>
        ObjAtExtend(doc[k].elems[i].fields, path[1..], m, st);
    }
  }

  /** Writing m at path and then c one step further is the same as writing m
      with that step already updated to c. */
  lemma {:induction false} PutAtExtend(doc: Fields, path: seq<Step>, m: Fields, st: Step, c: Fields)
    requires ObjAt(doc, path).Some?
    requires ObjAt(m, [st]).Some?
    ensures ObjAt(PutAt(doc, path, m), path + [st]).Some?
    ensures PutAt(PutAt(doc, path, m), path + [st], c) == PutAt(doc, path, PutAt(m, [st], c))
    decreases |path|
  {
    ObjAtExtend(doc, path, m, st);
    if path == [] {
      assert path + [st] == [st];
    } else {
      assert (path + [st])[0] == path[0];
      assert (path + [st])[1..] == path[1..] + [st];
      match path[0]
      case Member(k) =>
        PutAtExtendMember(doc, path, m, st, c);
      case Element(k, i) =>
        PutAtExtendElement(doc, path, m, st, c);
    }
  }

  lemma {:induction false} PutAtExtendMember(doc: Fields, path: seq<Step>, m: Fields, st: Step, c: Fields)
    requires ObjAt(doc, path).Some? && path != [] && path[0].Member?
    requires ObjAt(m, [st]).Some?
    ensures ObjAt(PutAt(doc, path, m), path + [st]).Some?
    ensures PutAt(PutAt(doc, path, m), path + [st], c) == PutAt(doc, path, PutAt(m, [st], c))
    decreases |path|, 0
  {
    ObjAtExtend(doc, path, m, st);
    var k := path[0].name;
    assert (path + [st])[0] == path[0];
    assert (path + [st])[1..] == path[1..] + [st];
    PutAtExtend(doc[k].fields, path[1..], m, st, c);
  }

  lemma {:induction false} PutAtExtendElement(doc: Fields, path: seq<Step>, m: Fields, st: Step, c: Fields)
    requires ObjAt(doc, path).Some? && path != [] && path[0].Element?
    requires ObjAt(m, [st]).Some?
    ensures ObjAt(PutAt(doc, path, m), path + [st]).Some?
    ensures PutAt(PutAt(doc, path, m), path + [st], c) == PutAt(doc, path, PutAt(m, [st], c))
    decreases |path|, 0
  {
    ObjAtExtend(doc, path, m, st);
    var k, i := path[0].name, path[0].index;
    assert (path + [st])[0] == path[0];
    assert (path + [st])[1..] == path[1..] + [st];
    var es := doc[k].elems;
    PutAtExtend(es[i].fields, path[1..], m, st, c);
    var inner := PutAt(es[i].fields, path[1..], m);
    var es1 := es[i := Obj(inner)];
    var later := PutAt(inner, path[1..] + [st], c);
    assert PutAt(doc, path, m) == doc[k := Arr(es1)];
    assert es1[i := Obj(later)] == es[i := Obj(later)];
  }
}
