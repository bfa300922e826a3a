/** Turning an update key such as "a.b[123].title" into typed segments:
    `key.split('.')`, then each part matched against `/^(.+?)\[(.*)\]$/`. */
module PathTokenizer {

  /** A field name, or `name[id]` addressing an array element by its `_id`. */
  datatype Segment = Field(name: string) | Indexed(name: string, id: string)

  /** `key.split('.')`: the parts between the dots, in order; a key without a
      dot, the empty key included, is a single part. */
  function Split(s: string): (parts: seq<string>)
    ensures |parts| >= 1
    ensures forall j :: 0 <= j < |parts| ==> '.' !in parts[j]
  {
    if s == [] then [""]
    else
      var rest := Split(s[1..]);
      if s[0] == '.' then [""] + rest
      else [[s[0]] + rest[0]] + rest[1..]
  }

  /** `parts.join('.')`, the inverse of Split. */
  function Join(parts: seq<string>): string
    requires |parts| >= 1
  {
    if |parts| == 1 then parts[0] else parts[0] + "." + Join(parts[1..])
  }

  /** Number of dots in s. */
  function Dots(s: string): nat
  {
    if s == [] then 0 else (if s[0] == '.' then 1 else 0) + Dots(s[1..])
  }

  lemma {:induction false} SplitCount(s: string)
    ensures |Split(s)| == Dots(s) + 1
  {
    if s != [] {
      SplitCount(s[1..]);
    }
  }

  lemma {:induction false} JoinSplit(s: string)
    ensures Join(Split(s)) == s
  {
    if s != [] {
      JoinSplit(s[1..]);
      var rest := Split(s[1..]);
      if s[0] == '.' {
        assert Split(s) == [""] + rest;
        assert ([""] + rest)[1..] == rest;
        assert s == "" + "." + s[1..];
      } else if |rest| == 1 {
        assert s == [s[0]] + rest[0];
      } else {
        assert Split(s)[1..] == rest[1..];
        assert Join(rest) == rest[0] + "." + Join(rest[1..]);
        assert s == [s[0]] + s[1..];
      }
    }
  }

  lemma {:induction false} SplitJoin(parts: seq<string>)
    requires |parts| >= 1
    requires forall j :: 0 <= j < |parts| ==> '.' !in parts[j]
    ensures Split(Join(parts)) == parts
  {
    if |parts| == 1 {
      SplitNoDot(parts[0]);
    } else {
      SplitJoin(parts[1..]);
      SplitAcrossDot(parts[0], Join(parts[1..]));
      assert [parts[0]] + parts[1..] == parts;
    }
  }

  lemma {:induction false} SplitNoDot(s: string)
    requires '.' !in s
    ensures Split(s) == [s]
  {
    if s != [] {
      SplitNoDot(s[1..]);
      assert [s[0]] + s[1..] == s;
    }
  }

  lemma {:induction false} SplitAcrossDot(a: string, b: string)
    requires '.' !in a
    ensures Split(a + "." + b) == [a] + Split(b)
  {
    if a == [] {
      assert a + "." + b == ['.'] + b;
      assert (a + "." + b)[1..] == b;
    } else {
      assert (a + "." + b)[1..] == a[1..] + "." + b;
      SplitAcrossDot(a[1..], b);
      assert [a[0]] + a[1..] == a;
    }
  }

  /** The characters JavaScript's `.` in a regular expression does not match. */
  predicate IsLineTerminator(c: char)
  {
    c == '\n' || c == '\r' || c == '\U{2028}' || c == '\U{2029}'
  }

  /** A part the pattern `/^(.+?)\[(.*)\]$/` matches: no line terminator, a
      final `]`, and a `[` somewhere at position one or later. */
  predicate IsBracketForm(raw: string)
  {
    && (forall j :: 0 <= j < |raw| ==> !IsLineTerminator(raw[j]))
    && |raw| >= 1 && raw[|raw| - 1] == ']'
    && exists p :: 1 <= p < |raw| && raw[p] == '['
  }

  /** Position of the first `[` at or after p, or |s| if there is none. */
  function OpenBracketFrom(s: string, p: nat): (q: nat)
    requires p <= |s|
    ensures p <= q <= |s|
    ensures q < |s| ==> s[q] == '['
    ensures forall j :: p <= j < q ==> s[j] != '['
    decreases |s| - p
  {
    if p == |s| || s[p] == '[' then p else OpenBracketFrom(s, p + 1)
  }

  /** One dot-separated part as a segment. The lazy `(.+?)` takes the text
      before the first `[` past position 0, the greedy `(.*)` everything from
      there up to the final `]`. */
  function ParseSegment(raw: string): (seg: Segment)
    ensures seg.Indexed? <==> IsBracketForm(raw)
    ensures seg.Field? ==> seg.name == raw
    ensures seg.Indexed? ==>
      && raw == seg.name + "[" + seg.id + "]"
      && |seg.name| >= 1
      && forall j :: 1 <= j < |seg.name| ==> seg.name[j] != '['
  {
    if |raw| >= 1 && raw[|raw| - 1] == ']' && (forall j :: 0 <= j < |raw| ==> !IsLineTerminator(raw[j])) then
      var p := OpenBracketFrom(raw, 1);
      if p < |raw| then
        assert p < |raw| - 1;
        var seg := Indexed(raw[..p], raw[p + 1..|raw| - 1]);
        assert raw == raw[..p] + "[" + raw[p + 1..|raw| - 1] + "]";
        seg
      else
        Field(raw)
    else
      Field(raw)
  }

  /** The part a segment was written as. */
  function Render(seg: Segment): string
  {
    match seg
    case Field(name) => name
    case Indexed(name, id) => name + "[" + id + "]"
  }

  /** A segment is recovered from its written form when it could have come
      from the pattern: an indexed name that is non-empty and has no `[`
      past its first character, no line terminators in name and id; a field
      name that is not itself in bracket form. */
  lemma {:induction false} ParseRender(seg: Segment)
    requires seg.Field? ==> !IsBracketForm(seg.name)
    requires seg.Indexed? ==>
      && |seg.name| >= 1
      && (forall j :: 1 <= j < |seg.name| ==> seg.name[j] != '[')
      && (forall j :: 0 <= j < |seg.name| ==> !IsLineTerminator(seg.name[j]))
      && (forall j :: 0 <= j < |seg.id| ==> !IsLineTerminator(seg.id[j]))
    ensures ParseSegment(Render(seg)) == seg
  {
    if seg.Indexed? {
      var raw := Render(seg);
      var n := |seg.name|;
      assert raw[n] == '[';
      assert raw[..n] == seg.name;
      assert raw[n + 1..|raw| - 1] == seg.id;
      forall j | 0 <= j < |raw| ensures !IsLineTerminator(raw[j]) {
        if j < n {
          assert raw[j] == seg.name[j];
        } else if n < j < |raw| - 1 {
          assert raw[j] == seg.id[j - n - 1];
        }
      }
      assert IsBracketForm(raw);
      var p := OpenBracketFrom(raw, 1);
      assert p == n by {
        forall j | 1 <= j < n ensures raw[j] != '[' {
          assert raw[j] == seg.name[j];
        }
      }
    }
  }

  /** `key.split('.')` with each part parsed. */
  function Tokenize(key: string): (segs: seq<Segment>)
    ensures |segs| == |Split(key)| == Dots(key) + 1
    ensures forall j :: 0 <= j < |segs| ==> segs[j] == ParseSegment(Split(key)[j])
    ensures forall j :: 0 <= j < |segs| ==> (segs[j].Indexed? <==> IsBracketForm(Split(key)[j]))
    ensures forall j :: 0 <= j < |segs| ==> Render(segs[j]) == Split(key)[j]
  {
    SplitCount(key);
    var parts := Split(key);
    seq(|parts|, j requires 0 <= j < |parts| => ParseSegment(parts[j]))
  }

  /** Writing the segments back out, dot-separated. */
  function RenderPath(segs: seq<Segment>): string
    requires |segs| >= 1
  {
    Join(seq(|segs|, j requires 0 <= j < |segs| => Render(segs[j])))
  }

  lemma TokenizeRoundTrip(key: string)
    ensures RenderPath(Tokenize(key)) == key
  {
    var segs := Tokenize(key);
    assert seq(|segs|, j requires 0 <= j < |segs| => Render(segs[j])) == Split(key);
    JoinSplit(key);
  }

  /** Segments written out and tokenized again come back unchanged when each
      written form is free of dots and parses back to its segment. */
  lemma TokenizeRenderPath(segs: seq<Segment>)
    requires |segs| >= 1
    requires forall j :: 0 <= j < |segs| ==> '.' !in Render(segs[j]) && ParseSegment(Render(segs[j])) == segs[j]
    ensures Tokenize(RenderPath(segs)) == segs
  {
    var parts := seq(|segs|, j requires 0 <= j < |segs| => Render(segs[j]));
    SplitJoin(parts);
  }

  /** A key with a single dot names two segments. */
  lemma TokenizeTwo(a: string, b: string)
    requires '.' !in a && '.' !in b
    ensures Tokenize(a + "." + b) == [ParseSegment(a), ParseSegment(b)]
  {
    SplitAcrossDot(a, b);
    SplitNoDot(b);
  }

  /** A key with two dots names three segments. */
  lemma TokenizeThree(a: string, b: string, c: string)
    requires '.' !in a && '.' !in b && '.' !in c
    ensures Tokenize(a + "." + b + "." + c) == [ParseSegment(a), ParseSegment(b), ParseSegment(c)]
  {
    assert a + "." + b + "." + c == a + "." + (b + "." + c);
    SplitAcrossDot(a, b + "." + c);
    SplitAcrossDot(b, c);
    SplitNoDot(c);
  }
}
