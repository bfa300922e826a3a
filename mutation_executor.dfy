/** `patchAndUpdateDocumentHandler`: for each (key, value) of the update, walk
    the key's segments from the document root and perform the create, replace
    or delete the last segment calls for. */
module MutationExecutor {
  import opened Json
  import opened PathTokenizer
  import opened ArrayLocator
  import opened Cursor

  /** What one key does to the document. Abandoned is the early `return` after
      `console.error`: what the walk had written before it stays written, and
      the message is the one the handler logs. Stuck stands for a step past a
      value that is not a plain object which the model leaves undefined (see
      BeyondValue). */
  datatype KeyOutcome =
    | Applied(doc: Fields)
    | Abandoned(doc: Fields, diagnostic: string)
    | Stuck

  /** The message the handler logs when a segment before the last names a
      property that is not an array. */
  function NotAnArrayMessage(arrayName: string): string
  {
    arrayName + " is not an array."
  }

  /** `typeof value === 'object'` for a value that is not null. */
  predicate IsObjectType(value: Node)
  {
    value.Obj? || value.Arr?
  }

  /** The value a tagged write stores: `{ _id: id, ...value }` for an object
      (or array), the value itself for a string, number or boolean. */
  function Tagged(value: Node, id: string): Node
    requires value != Null
  {
    if IsObjectType(value) then Obj(TagWithId(value, id)) else value
  }

  /** The last segment, applied to the object under the cursor. */
  function ApplyLast(cur: Fields, seg: Segment, value: Node): Fields
  {
    match seg
    case Field(name) =>
      if value == Null then cur - {name} else cur[name := value]
    case Indexed(name, id) =>
      var cur1 := if FalsyField(cur, name) then cur[name := Arr([])] else cur;
      if !cur1[name].Arr? then cur1[name := Arr([Obj(TagWithId(value, id))])]
      else
        var es := cur1[name].elems;
        var idx := FindById(es, id);
        if value == Null then
          if idx == -1 then cur1 else cur1[name := Arr(es[..idx] + es[idx + 1..])]
        else
          var t := Tagged(value, id);
          if idx == -1 then cur1[name := Arr(es + [t])] else cur1[name := Arr(es[idx := t])]
  }

  /** Moving the cursor across a segment that is not the last: the object the
      cursor stands on afterwards (with a `{}` or a `{ _id: id }` stub put in
      place when needed), the step taken, and the object reached; or the
      truthy value other than an object that a field segment lands on. */
  datatype Descent =
    | Enter(doc: Fields, step: Step, child: Fields)
    | NotAnArray(diagnostic: string)
    | OnValue(v: Node)

  function Descend(cur: Fields, seg: Segment): (d: Descent)
    ensures d.Enter? ==> ObjAt(d.doc, [d.step]) == Some(d.child)
    ensures d.OnValue? <==> seg.Field? && seg.name in cur && !Falsy(cur[seg.name]) && !cur[seg.name].Obj?
    ensures d.OnValue? ==> d.v == cur[seg.name]
  {
    match seg
    case Field(name) =>
      var cur1 := if FalsyField(cur, name) then cur[name := Obj(map[])] else cur;
      if cur1[name].Obj? then Enter(cur1, Member(name), cur1[name].fields) else OnValue(cur1[name])
    case Indexed(name, id) =>
      if name !in cur || !cur[name].Arr? then NotAnArray(NotAnArrayMessage(name))
      else
        var es := cur[name].elems;
        var idx := FindById(es, id);
        if idx == -1 then Enter(cur[name := Arr(es + [Obj(IdStub(id))])], Element(name, |es|), IdStub(id))
        else Enter(cur, Element(name, idx), es[idx].fields)
  }

  /** What the segment after a field that holds a truthy value v other than
      an object does, v being a string, number, boolean or array. */
  datatype Beyond = Unchanged | Abandon(diagnostic: string) | Undefined

  /** An indexed segment before the last finds no array on v (a string,
      number or boolean has none; an array has one only at an index holding
      an array) and abandons the key. A delete on the last segment of a
      property v does not have leaves everything as it was. Every other step
      is Undefined. Some of those throw a TypeError in strict mode (creating a
      property on a primitive, deleting `length` or a character of a string,
      deleting an array's `length`) or a RangeError (setting an array's
      `length` to an invalid length). The others go on in JavaScript: a
      field before the last moves the cursor onto a string's truthy
      `length` or character, or onto an array's truthy element (an object
      one included, so `a.0.x` works) or non-zero `length`; a last indexed
      segment looks up and changes an element that is itself an array; a
      write into an array sets an element or `length`, or adds a named
      property or a hole that an `Arr` value cannot hold. */
  function BeyondValue(v: Node, seg: Segment, isLast: bool, value: Node): Beyond
  {
    match seg
    case Indexed(name, _) =>
      if isLast then Undefined
      else if v.Arr? && exists j :: 0 <= j < |v.elems| && name == IndexKey(j) && v.elems[j].Arr? then Undefined
      else Abandon(NotAnArrayMessage(name))
    case Field(name) =>
      if isLast && value == Null && !HasOwnProperty(v, name) then Unchanged else Undefined
  }

  /** The outcome of walking a sub-path from an object on the cursor's
      path, seen from the document root. */
  function Graft(doc: Fields, path: seq<Step>, o: KeyOutcome): KeyOutcome
    requires ObjAt(doc, path).Some?
  {
    match o
    case Applied(c) => Applied(PutAt(doc, path, c))
    case Abandoned(c, msg) => Abandoned(PutAt(doc, path, c), msg)
    case Stuck => Stuck
  }

  /** The walk of segments i.. from the object cur, as a recursive reference
      definition of the handler's segment loop. */
  function Walk(cur: Fields, segs: seq<Segment>, i: nat, value: Node): KeyOutcome
    requires i < |segs|
    decreases |segs| - i
  {
    if i == |segs| - 1 then Applied(ApplyLast(cur, segs[i], value))
    else match Descend(cur, segs[i])
      case Enter(d, st, child) => Graft(d, [st], Walk(child, segs, i + 1, value))
      case NotAnArray(msg) => Abandoned(cur, msg)
      case OnValue(v) =>
        match BeyondValue(v, segs[i + 1], i + 1 == |segs| - 1, value)
        case Unchanged => Applied(cur)
        case Abandon(msg) => Abandoned(cur, msg)
        case Undefined => Stuck
  }

  /** One key of the update applied to the document. */
  function ApplyKey(doc: Fields, key: string, value: Node): KeyOutcome
  {
    Walk(doc, Tokenize(key), 0, value)
  }

  /** One key of the update: `key.split('.')`, then the segment loop. */
  method WalkKey(document: Fields, key: string, value: Node) returns (outcome: KeyOutcome)
    ensures outcome == ApplyKey(document, key, value)
  {
    outcome := WalkSegments(document, Tokenize(key), value);
  }

  /** The segment loop of the handler: the cursor starts at the root and
      moves one segment at a time, every change being written into the
      document at once, so an abandoned key keeps what it had written. */
  method WalkSegments(document: Fields, path: seq<Segment>, value: Node) returns (outcome: KeyOutcome)
    requires |path| >= 1
    ensures outcome == Walk(document, path, 0, value)
  {
    var root := document;
    var cursor: seq<Step> := [];
    var current := document;
    var i := 0;
    ghost var target := Walk(document, path, 0, value);
    assert Graft(root, cursor, Walk(current, path, i, value)) == target;
    while i < |path| - 1
      invariant 0 <= i < |path|
      invariant ObjAt(root, cursor) == Some(current)
      invariant Graft(root, cursor, Walk(current, path, i, value)) == target
    {
      match Descend(current, path[i]) {
        case Enter(d, st, child) =>
          WalkEnter(root, cursor, current, path, i, value, d, st, child);
          root, cursor, current := PutAt(root, cursor, d), cursor + [st], child;
        case NotAnArray(msg) =>
          WalkNotAnArray(root, cursor, current, path, i, value, msg);
          return Abandoned(root, msg);
        case OnValue(v) =>
          WalkPastValue(root, cursor, current, path, i, value, v);
          match BeyondValue(v, path[i + 1], i + 1 == |path| - 1, value) {
            case Unchanged => return Applied(root);
            case Abandon(msg) => return Abandoned(root, msg);
            case Undefined => return Stuck;
          }
      }
      i := i + 1;
    }
    WalkLast(current, path, value);
    outcome := Graft(root, cursor, Applied(ApplyLast(current, path[i], value)));
  }

  lemma WalkLast(cur: Fields, segs: seq<Segment>, value: Node)
    requires |segs| >= 1
    ensures Walk(cur, segs, |segs| - 1, value) == Applied(ApplyLast(cur, segs[|segs| - 1], value))
  {
  }

  /** The loop's invariant is kept when the cursor moves one segment. */
  lemma WalkEnter(root: Fields, cursor: seq<Step>, current: Fields, segs: seq<Segment>, i: nat, value: Node,
                  d: Fields, st: Step, child: Fields)
    requires ObjAt(root, cursor) == Some(current)
    requires i < |segs| - 1
    requires Descend(current, segs[i]) == Enter(d, st, child)
    ensures ObjAt(PutAt(root, cursor, d), cursor + [st]) == Some(child)
    ensures Graft(PutAt(root, cursor, d), cursor + [st], Walk(child, segs, i + 1, value))
            == Graft(root, cursor, Walk(current, segs, i, value))
  {
    ObjAtExtend(root, cursor, d, st);
    GraftExtend(root, cursor, d, st, Walk(child, segs, i + 1, value));
  }

  /** An abandoned key leaves the document as the walk had left it. */
  lemma WalkNotAnArray(root: Fields, cursor: seq<Step>, current: Fields, segs: seq<Segment>, i: nat, value: Node,
                       msg: string)
    requires ObjAt(root, cursor) == Some(current)
    requires i < |segs| - 1
    requires Descend(current, segs[i]) == NotAnArray(msg)
    ensures Graft(root, cursor, Walk(current, segs, i, value)) == Abandoned(root, msg)
  {
    PutAtSelf(root, cursor);
  }

  /** A key that reaches a value other than an object stops there, with the
      document as the walk had left it. */
  lemma WalkPastValue(root: Fields, cursor: seq<Step>, current: Fields, segs: seq<Segment>, i: nat, value: Node,
                      v: Node)
    requires ObjAt(root, cursor) == Some(current)
    requires i < |segs| - 1
    requires Descend(current, segs[i]) == OnValue(v)
    ensures Graft(root, cursor, Walk(current, segs, i, value)) ==
      match BeyondValue(v, segs[i + 1], i + 1 == |segs| - 1, value)
      case Unchanged => Applied(root)
      case Abandon(msg) => Abandoned(root, msg)
      case Undefined => Stuck
  {
    PutAtSelf(root, cursor);
  }

  lemma GraftExtend(doc: Fields, path: seq<Step>, m: Fields, st: Step, o: KeyOutcome)
    requires ObjAt(doc, path).Some?
    requires ObjAt(m, [st]).Some?
    ensures ObjAt(PutAt(doc, path, m), path + [st]).Some?
    ensures Graft(PutAt(doc, path, m), path + [st], o) == Graft(doc, path, Graft(m, [st], o))
  {
    match o
    case Applied(c) => PutAtExtend(doc, path, m, st, c);
    case Abandoned(c, _) => PutAtExtend(doc, path, m, st, c);
    case Stuck => ObjAtExtend(doc, path, m, st);
  }

  /** The result of the whole update: the document and the diagnostics logged,
      in order, or the key at which the model is stuck. */
  datatype PatchResult = Patched(doc: Fields, diagnostics: seq<string>) | Failed(key: string)

  /** One more (key, value) pair applied after the ones already done. */
  function ApplyPair(doc: Fields, diagnostics: seq<string>, pair: (string, Node)): PatchResult
  {
    match ApplyKey(doc, pair.0, pair.1)
    case Applied(d) => Patched(d, diagnostics)
    case Abandoned(d, msg) => Patched(d, diagnostics + [msg])
    case Stuck => Failed(pair.0)
  }

  /** The update applied pair by pair, in order, each walk starting again at
      the root of the document the previous pairs left. */
  function Run(doc: Fields, update: seq<(string, Node)>): PatchResult
    decreases |update|
  {
    if update == [] then Patched(doc, [])
    else match Run(doc, update[..|update| - 1])
      case Failed(k) => Failed(k)
      case Patched(d, ds) => ApplyPair(d, ds, update[|update| - 1])
  }

  /** Once a prefix of the update is stuck, so is the whole update. */
  lemma {:induction false} RunFailedPrefix(doc: Fields, update: seq<(string, Node)>, k: nat)
    requires k <= |update|
    requires Run(doc, update[..k]).Failed?
    ensures Run(doc, update) == Run(doc, update[..k])
    decreases |update| - k
  {
    if k < |update| {
      assert update[..k + 1][..k] == update[..k];
      RunFailedPrefix(doc, update, k + 1);
    } else {
      assert update[..k] == update;
    }
  }

  /** Run over one pair more is that pair applied after the ones before. */
  lemma RunNext(doc: Fields, update: seq<(string, Node)>, k: nat, d: Fields, ds: seq<string>)
    requires k < |update| && Run(doc, update[..k]) == Patched(d, ds)
    ensures Run(doc, update[..k + 1]) == ApplyPair(d, ds, update[k])
  {
    assert update[..k + 1][..k] == update[..k];
  }

  /** The document the handler is given, updated in place and returned. */
  class Document {
    var root: Fields

    constructor (fields: Fields)
      ensures root == fields
    {
      root := fields;
    }

    /** The `forEach` over the update's keys. On Failed the document holds
        what the keys before the failing one did. */
    method Patch(update: seq<(string, Node)>) returns (diagnostics: seq<string>, failed: bool)
      modifies this
      ensures failed <==> Run(old(root), update).Failed?
      ensures !failed ==> Run(old(root), update) == Patched(root, diagnostics)
      ensures failed ==> exists k :: 0 <= k < |update| && Run(old(root), update[..k]) == Patched(root, diagnostics)
                                   && ApplyKey(root, update[k].0, update[k].1).Stuck?
    {
      diagnostics := [];
      var k := 0;
      while k < |update|
        invariant 0 <= k <= |update|
        invariant Run(old(root), update[..k]) == Patched(root, diagnostics)
      {
        RunNext(old(root), update, k, root, diagnostics);
        var (key, value) := update[k];
        var outcome := WalkKey(root, key, value);
        match outcome {
          case Applied(d) =>
            root := d;
          case Abandoned(d, msg) =>
            root := d;
            diagnostics := diagnostics + [msg];
          case Stuck =>
            RunFailedPrefix(old(root), update, k + 1);
            assert ApplyKey(root, update[k].0, update[k].1).Stuck?;
            return diagnostics, true;
        }
        k := k + 1;
      }
      assert update[..k] == update;
      failed := false;
    }
  }

  /** The handler: the same document object comes back, patched. */
  method PatchAndUpdateDocumentHandler(document: Document, update: seq<(string, Node)>)
      returns (result: Document, diagnostics: seq<string>, failed: bool)
    modifies document
    ensures result == document
    ensures failed <==> Run(old(document.root), update).Failed?
    ensures !failed ==> Run(old(document.root), update) == Patched(document.root, diagnostics)
    ensures failed ==> exists k :: 0 <= k < |update| && Run(old(document.root), update[..k]) == Patched(document.root, diagnostics)
                                 && ApplyKey(document.root, update[k].0, update[k].1).Stuck?
  {
    diagnostics, failed := document.Patch(update);
    result := document;
  }
}
