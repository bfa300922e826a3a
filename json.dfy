/** The JSON-like document tree the handler mutates, and the JavaScript value
    tests (truthiness, `item?._id === id`, object spread) the handler relies on. */
module Json {

  datatype Option<T> = None | Some(value: T)

  /** One node of a document. JavaScript numbers are modelled as integers. */
  datatype Node =
    | Null
    | Bool(b: bool)
    | Num(n: int)
    | Str(s: string)
    | Obj(fields: map<string, Node>)
    | Arr(elems: seq<Node>)

  /** The own properties of a plain object; the document root is one of these. */
  type Fields = map<string, Node>

  /** JavaScript falsiness restricted to Node: null, false, 0 and the empty string.
      Objects and arrays, even empty ones, are truthy. */
  predicate Falsy(n: Node)
  {
    n == Null || n == Bool(false) || n == Num(0) || n == Str("")
  }

  /** `!obj[k]`: a missing property reads as undefined, which is falsy too. */
  predicate FalsyField(obj: Fields, k: string)
  {
    k !in obj || Falsy(obj[k])
  }

  /** `item?._id === id`: only an object whose `_id` is that very string matches. */
  predicate HasId(item: Node, id: string)
  {
    item.Obj? && "_id" in item.fields && item.fields["_id"] == Str(id)
  }

  /** The object literal `{ _id: id }`. */
  function IdStub(id: string): (m: Fields)
    ensures m.Keys == {"_id"} && m["_id"] == Str(id)
  {
    map["_id" := Str(id)]
  }

  /** A digit and the character that writes it. */
  function DigitChar(d: nat): (c: char)
    requires d < 10
    ensures '0' <= c <= '9'
  {
    (48 + d) as char
  }

  function DigitValue(c: char): (d: nat)
    requires '0' <= c <= '9'
    ensures d < 10
  {
    c as int - 48
  }

  /** The canonical decimal form of k: the name of the property that holds
      the element or character at index k of an array or string. */
  function IndexKey(k: nat): (s: string)
    ensures |s| >= 1
    ensures forall j :: 0 <= j < |s| ==> '0' <= s[j] <= '9'
    decreases k
  {
    if k < 10 then [DigitChar(k)] else IndexKey(k / 10) + [DigitChar(k % 10)]
  }

  /** Reading a string of digits as a number. */
  function ParseDigits(s: string): nat
    requires |s| >= 1 && forall j :: 0 <= j < |s| ==> '0' <= s[j] <= '9'
  {
    if |s| == 1 then DigitValue(s[0]) else ParseDigits(s[..|s| - 1]) * 10 + DigitValue(s[|s| - 1])
  }

  lemma {:induction false} ParseIndexKey(k: nat)
    ensures ParseDigits(IndexKey(k)) == k
    decreases k
  {
    if k >= 10 {
      ParseIndexKey(k / 10);
      assert IndexKey(k)[..|IndexKey(k)| - 1] == IndexKey(k / 10);
    }
  }

  /** Different indices have different property names. */
  lemma IndexKeyInjective()
    ensures forall j: nat, k: nat :: IndexKey(j) == IndexKey(k) ==> j == k
  {
    forall j: nat, k: nat | IndexKey(j) == IndexKey(k) ensures j == k {
      ParseIndexKey(j);
      ParseIndexKey(k);
    }
  }

  /** The index-named properties of an array or of a string's characters:
      `"0"` for the first, `"1"` for the second, and so on. */
  function IndexProps(es: seq<Node>): (r: Fields)
    ensures forall j :: 0 <= j < |es| ==> IndexKey(j) in r && r[IndexKey(j)] == es[j]
    ensures forall k :: k in r ==> exists j :: 0 <= j < |es| && k == IndexKey(j)
  {
    IndexKeyInjective();
    map j | 0 <= j < |es| :: IndexKey(j) := es[j]
  }

  /** The characters of a string, each as a one-character string. */
  function Chars(s: string): (r: seq<Node>)
    ensures |r| == |s| && forall j :: 0 <= j < |s| ==> r[j] == Str([s[j]])
  {
    seq(|s|, j requires 0 <= j < |s| => Str([s[j]]))
  }

  /** The own enumerable properties that `{ ...v }` copies out of v. Null,
      booleans and numbers contribute nothing; an object contributes its
      fields; a string contributes one property per character and an array
      one per element, named by the index. */
  function SpreadProps(v: Node): (r: Fields)
    ensures v.Obj? ==> r == v.fields
    ensures (v.Null? || v.Bool? || v.Num?) ==> r == map[]
    ensures v.Str? ==>
      && (forall j :: 0 <= j < |v.s| ==> IndexKey(j) in r && r[IndexKey(j)] == Str([v.s[j]]))
      && (forall k :: k in r ==> exists j :: 0 <= j < |v.s| && k == IndexKey(j))
    ensures v.Arr? ==>
      && (forall j :: 0 <= j < |v.elems| ==> IndexKey(j) in r && r[IndexKey(j)] == v.elems[j])
      && (forall k :: k in r ==> exists j :: 0 <= j < |v.elems| && k == IndexKey(j))
  {
    match v
    case Null => map[]
    case Bool(_) => map[]
    case Num(_) => map[]
    case Str(s) => IndexProps(Chars(s))
    case Obj(m) => m
    case Arr(es) => IndexProps(es)
  }

  /** `{ _id: id, ...v }`: the spread properties overlay the default `_id`. */
  function TagWithId(v: Node, id: string): (r: Fields)
    ensures r.Keys == {"_id"} + SpreadProps(v).Keys
    ensures "_id" in SpreadProps(v) ==> r["_id"] == SpreadProps(v)["_id"]
    ensures "_id" !in SpreadProps(v) ==> r["_id"] == Str(id)
    ensures forall k :: k in SpreadProps(v) ==> r[k] == SpreadProps(v)[k]
  {
    IdStub(id) + SpreadProps(v)
  }

  /** Whether a string or array has an own property of that name: `length`,
      or the index key of one of its characters or elements. Numbers and
      booleans have no own properties. */
  predicate HasOwnProperty(v: Node, name: string)
  {
    match v
    case Str(s) => name == "length" || exists j :: 0 <= j < |s| && name == IndexKey(j)
    case Arr(es) => name == "length" || exists j :: 0 <= j < |es| && name == IndexKey(j)
    case _ => false
  }
}
