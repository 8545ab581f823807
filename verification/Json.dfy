/**
 JSON text (RFC 8259) as far as the package-list chunks need it: a splitter that takes the elements
 of an array apart by tracking nesting, strings and escapes (sections 5 and 7), and the printer
 `json.dumps`, whose objects the splitter treats as single elements.
 */
module Json {
  import opened Prelude
  import opened Text

  const QUOTE: byte := 0x22
  const COMMA: byte := 0x2C
  const COLON: byte := 0x3A
  const SPACE: byte := 0x20
  const LBRACKET: byte := 0x5B
  const BACKSLASH: byte := 0x5C
  const RBRACKET: byte := 0x5D
  const LBRACE: byte := 0x7B
  const RBRACE: byte := 0x7D

  // ----- scanning -----

  /** Where a scanner is: how deeply nested, and whether inside a string or just after a backslash. */
  datatype Scan = Scan(depth: int, inString: bool, escaped: bool) {
    predicate Top() { depth == 0 && !inString }
  }

  function At(depth: int): Scan { Scan(depth, false, false) }

  function Step(st: Scan, b: byte): Scan {
    if st.inString then
      if st.escaped then st.(escaped := false)
      else if b == BACKSLASH then st.(escaped := true)
      else st.(inString := b != QUOTE)
    else if b == QUOTE then st.(inString := true)
    else if b == LBRACE || b == LBRACKET then st.(depth := st.depth + 1)
    else if b == RBRACE || b == RBRACKET then st.(depth := st.depth - 1)
    else st
  }

  function Run(st: Scan, s: Bytes): Scan
    decreases |s|
  {
    if s == [] then st else Run(Step(st, s[0]), s[1..])
  }

  lemma {:induction false} RunOfConcat(st: Scan, a: Bytes, b: Bytes)
    ensures Run(st, a + b) == Run(Run(st, a), b)
    decreases |a|
  {
    if a == [] {
      assert a + b == b;
    } else {
      assert (a + b)[1..] == a[1..] + b && (a + b)[0] == a[0];
      RunOfConcat(Step(st, a[0]), a[1..], b);
    }
  }

  // ----- splitting an array -----

  /** Reads elements up to the closing bracket; `cur` is the element being read. */
  function Elements(s: Bytes, st: Scan, cur: Bytes, found: seq<Bytes>): Option<seq<Bytes>> {
    if s == [] then None
    else if st.Top() && s[0] == RBRACKET then
      if |s| > 1 then None
      else if cur != [] then Some(found + [cur])
      else if found == [] then Some([]) else None
    else if st.Top() && s[0] == COMMA then
      if cur == [] then None else Elements(s[1..], st, [], found + [cur])
    else Elements(s[1..], Step(st, s[0]), cur + [s[0]], found)
  }

  /** The elements of a JSON array text, or nothing if it is not one. */
  function SplitArray(s: Bytes): Option<seq<Bytes>> {
    if s == [] || s[0] != LBRACKET then None else Elements(s[1..], At(0), [], [])
  }

  /** A text the scanner sees as one object: it opens with a brace and is closed only by its last byte. */
  ghost predicate IsObject(s: Bytes) {
    && s != [] && s[0] == LBRACE
    && Run(At(0), s) == At(0)
    && forall k :: 0 < k < |s| ==> !Run(At(0), s[..k]).Top()
  }

  lemma {:induction false} ElementsOfObject(x: Bytes, k: nat, rest: Bytes, found: seq<Bytes>)
    requires IsObject(x) && k <= |x|
    ensures Elements(x[k..] + rest, Run(At(0), x[..k]), x[..k], found) == Elements(rest, At(0), x, found)
    decreases |x| - k
  {
    if k == |x| {
      assert x[k..] + rest == rest && x[..k] == x;
    } else {
      assert (x[k..] + rest)[1..] == x[k + 1..] + rest && (x[k..] + rest)[0] == x[k];
      assert x[..k + 1] == x[..k] + [x[k]];
      RunOfConcat(At(0), x[..k], [x[k]]);
      ElementsOfObject(x, k + 1, rest, found);
    }
  }

  lemma {:induction false} ElementsOfJoin(run: seq<Bytes>, found: seq<Bytes>)
    requires run != [] && forall x | x in run :: IsObject(x)
    ensures Elements(Join(run, COMMA) + [RBRACKET], At(0), [], found) == Some(found + run)
  {
    var x := run[0];
    assert x in run;
    var rest := Join(run, COMMA)[|x|..] + [RBRACKET];
    assert x[..0] == [] && x[0..] == x;
    assert Join(run, COMMA) + [RBRACKET] == x + rest;
    ElementsOfObject(x, 0, rest, found);
    if |run| == 1 {
      assert rest == [RBRACKET] && run == [x];
    } else {
      assert rest == [COMMA] + (Join(run[1..], COMMA) + [RBRACKET]);
      assert rest[1..] == Join(run[1..], COMMA) + [RBRACKET];
      ElementsOfJoin(run[1..], found + [x]);
      assert found + [x] + run[1..] == found + run;
    }
  }

  /** Wrapping comma-joined objects in brackets loses nothing: the splitter returns them. */
  lemma SplitOfArray(run: seq<Bytes>)
    requires forall x | x in run :: IsObject(x)
    ensures SplitArray([LBRACKET] + Join(run, COMMA) + [RBRACKET]) == Some(run)
  {
    var s := [LBRACKET] + Join(run, COMMA) + [RBRACKET];
    assert s[1..] == Join(run, COMMA) + [RBRACKET];
    if run != [] {
      ElementsOfJoin(run, []);
      assert [] + run == run;
    }
  }

  // ----- json.dumps -----

  datatype Json =
    | Null
    | Bool(b: bool)
    | Int(n: int)
    | Str(points: seq<nat>)
    | Arr(items: seq<Json>)
    | Obj(fields: seq<Field>)

  datatype Field = Field(name: seq<nat>, value: Json)

  function HexDigit(n: nat): byte
    requires n < 16
  {
    if n < 10 then 0x30 + n else 0x61 + (n - 10)
  }

  /** `\uXXXX` */
  function UnicodeEscape(n: nat): Bytes {
    [BACKSLASH, 0x75] + [HexDigit(n / 4096 % 16), HexDigit(n / 256 % 16), HexDigit(n / 16 % 16), HexDigit(n % 16)]
  }

  /** One code point of a string, with `ensure_ascii` and a surrogate pair above the basic plane. */
  function EscapePoint(c: nat): Bytes {
    if c == QUOTE then [BACKSLASH, QUOTE]
    else if c == BACKSLASH then [BACKSLASH, BACKSLASH]
    else if c == 0x0A then [BACKSLASH, 0x6E]
    else if c == 0x0D then [BACKSLASH, 0x72]
    else if c == 0x09 then [BACKSLASH, 0x74]
    else if c == 0x0C then [BACKSLASH, 0x66]
    else if c == 0x08 then [BACKSLASH, 0x62]
    else if 0x20 <= c <= 0x7E then [c]
    else if c < 0x10000 then UnicodeEscape(c)
    else UnicodeEscape(0xD800 + (c - 0x10000) / 0x400 % 0x400) + UnicodeEscape(0xDC00 + (c - 0x10000) % 0x400)
  }

  function EscapePoints(points: seq<nat>): Bytes {
    if points == [] then [] else EscapePoint(points[0]) + EscapePoints(points[1..])
  }

  function DumpString(points: seq<nat>): Bytes { [QUOTE] + EscapePoints(points) + [QUOTE] }

  function DumpNat(n: nat): Bytes {
    if n < 10 then [0x30 + n] else DumpNat(n / 10) + [0x30 + n % 10]
  }

  function Dumps(v: Json): Bytes
    decreases v, 1
  {
    match v
    case Null => [0x6E, 0x75, 0x6C, 0x6C]
    case Bool(b) => if b then [0x74, 0x72, 0x75, 0x65] else [0x66, 0x61, 0x6C, 0x73, 0x65]
    case Int(n) => if n < 0 then [0x2D] + DumpNat(-n) else DumpNat(n)
    case Str(points) => DumpString(points)
    case Arr(items) => [LBRACKET] + DumpItems(items) + [RBRACKET]
    case Obj(fields) => [LBRACE] + DumpFields(fields) + [RBRACE]
  }

  function DumpItems(items: seq<Json>): Bytes
    decreases items, 0
  {
    if items == [] then []
    else Dumps(items[0]) + (if |items| == 1 then [] else [COMMA, SPACE] + DumpItems(items[1..]))
  }

  function DumpFields(fields: seq<Field>): Bytes
    decreases fields, 0
  {
    if fields == [] then []
    else
      var field := fields[0];
      DumpString(field.name) + [COLON, SPACE] + Dumps(field.value)
      + (if |fields| == 1 then [] else [COMMA, SPACE] + DumpFields(fields[1..]))
  }

  // ----- printed values are balanced -----

  /** Scanning the text from `st` comes back to `st` and never nests less deeply on the way. */
  ghost predicate Kept(st: Scan, s: Bytes) {
    && Run(st, s) == st
    && forall k :: 0 <= k <= |s| ==> Run(st, s[..k]).depth >= st.depth
  }

  lemma KeptConcat(st: Scan, a: Bytes, b: Bytes)
    requires Kept(st, a) && Kept(st, b)
    ensures Kept(st, a + b)
  {
    RunOfConcat(st, a, b);
    forall k | 0 <= k <= |a + b|
      ensures Run(st, (a + b)[..k]).depth >= st.depth
    {
      if k <= |a| {
        assert (a + b)[..k] == a[..k];
      } else {
        assert (a + b)[..k] == a + b[..k - |a|];
        RunOfConcat(st, a, b[..k - |a|]);
      }
    }
  }

  /** Bytes that do not move the scanner. */
  lemma {:induction false} PlainIsKept(st: Scan, s: Bytes)
    requires forall i :: 0 <= i < |s| ==> Step(st, s[i]) == st
    ensures Kept(st, s)
  {
    if s != [] {
      PlainIsKept(st, s[1..]);
      forall k | 0 <= k <= |s|
        ensures Run(st, s[..k]).depth >= st.depth
      {
        if k > 0 {
          assert s[..k][1..] == s[1..][..k - 1];
        }
      }
    }
  }

  /** An opening byte, a text kept one step further in, and the byte that steps back out. */
  lemma WrappedIsKept(st: Scan, open: byte, s: Bytes, close: byte)
    requires var inner := Step(st, open);
             Kept(inner, s) && Step(inner, close) == st && inner.depth >= st.depth
    ensures Kept(st, [open] + s + [close])
    ensures forall k :: 0 < k < |s| + 2 ==>
              Run(st, ([open] + s + [close])[..k]).depth >= Step(st, open).depth
  {
    var inner, t := Step(st, open), [open] + s + [close];
    forall k | 0 < k < |t|
      ensures Run(st, t[..k]).depth >= inner.depth
    {
      assert t[..k] == [open] + s[..k - 1] && t[..k][1..] == s[..k - 1];
    }
    RunOfConcat(inner, s, [close]);
    assert t[1..] == s + [close] && [close][1..] == [];
    assert t[..|t|] == t && t[..0] == [];
  }

  lemma EscapeIsKept(st: Scan, b: byte)
    requires st.inString && !st.escaped
    ensures Kept(st, [BACKSLASH, b])
  {
    var t, rest: Bytes := [BACKSLASH, b], [b];
    assert t[..0] == [] && t[..1] == [BACKSLASH] && t[..2] == t;
    assert t[1..] == rest && rest[1..] == [] && t[..1][1..] == [];
    var mid := Step(st, BACKSLASH);
    assert Run(mid, rest) == Run(Step(mid, b), []) == st;
  }

  lemma UnicodeEscapeIsKept(st: Scan, n: nat)
    requires st.inString && !st.escaped
    ensures Kept(st, UnicodeEscape(n))
  {
    var hex: Bytes := [HexDigit(n / 4096 % 16), HexDigit(n / 256 % 16), HexDigit(n / 16 % 16), HexDigit(n % 16)];
    EscapeIsKept(st, 0x75);
    PlainIsKept(st, hex);
    KeptConcat(st, [BACKSLASH, 0x75], hex);
  }

  lemma PointIsKept(st: Scan, c: nat)
    requires st.inString && !st.escaped
    ensures Kept(st, EscapePoint(c))
  {
    var e := EscapePoint(c);
    if |e| == 1 {
      PlainIsKept(st, e);
    } else if |e| == 2 {
      EscapeIsKept(st, e[1]);
      assert e == [BACKSLASH, e[1]];
    } else if c < 0x10000 {
      UnicodeEscapeIsKept(st, c);
    } else {
      var h, l := 0xD800 + (c - 0x10000) / 0x400 % 0x400, 0xDC00 + (c - 0x10000) % 0x400;
      UnicodeEscapeIsKept(st, h);
      UnicodeEscapeIsKept(st, l);
      KeptConcat(st, UnicodeEscape(h), UnicodeEscape(l));
    }
  }

  lemma {:induction false} PointsAreKept(st: Scan, points: seq<nat>)
    requires st.inString && !st.escaped
    ensures Kept(st, EscapePoints(points))
  {
    if points != [] {
      PointIsKept(st, points[0]);
      PointsAreKept(st, points[1..]);
      KeptConcat(st, EscapePoint(points[0]), EscapePoints(points[1..]));
    }
  }

  /** A printed string returns the scanner to where it was, whatever characters it holds. */
  lemma StringIsKept(d: int, points: seq<nat>)
    ensures Kept(At(d), DumpString(points))
  {
    PointsAreKept(Step(At(d), QUOTE), points);
    WrappedIsKept(At(d), QUOTE, EscapePoints(points), QUOTE);
  }

  lemma {:induction false} DumpNatIsKept(d: int, n: nat)
    ensures Kept(At(d), DumpNat(n))
  {
    if n < 10 {
      PlainIsKept(At(d), DumpNat(n));
    } else {
      DumpNatIsKept(d, n / 10);
      PlainIsKept(At(d), [0x30 + n % 10]);
      KeptConcat(At(d), DumpNat(n / 10), [0x30 + n % 10]);
    }
  }

  lemma {:induction false} DumpsIsKept(d: int, v: Json)
    ensures Kept(At(d), Dumps(v))
    decreases v, 1
  {
    match v
    case Null => PlainIsKept(At(d), Dumps(v));
    case Bool(b) => PlainIsKept(At(d), Dumps(v));
    case Int(n) =>
      if n < 0 {
        DumpNatIsKept(d, -n);
        PlainIsKept(At(d), [0x2D]);
        KeptConcat(At(d), [0x2D], DumpNat(-n));
      } else {
        DumpNatIsKept(d, n);
      }
    case Str(points) => StringIsKept(d, points);
    case Arr(items) =>
      ItemsAreKept(d + 1, items);
      WrappedIsKept(At(d), LBRACKET, DumpItems(items), RBRACKET);
    case Obj(fields) =>
      FieldsAreKept(d + 1, fields);
      WrappedIsKept(At(d), LBRACE, DumpFields(fields), RBRACE);
  }

  lemma {:induction false} ItemsAreKept(d: int, items: seq<Json>)
    ensures Kept(At(d), DumpItems(items))
    decreases items, 0
  {
    if items == [] {
      PlainIsKept(At(d), []);
    } else {
      DumpsIsKept(d, items[0]);
      if |items| == 1 {
        assert DumpItems(items) == Dumps(items[0]);
      } else {
        ItemsAreKept(d, items[1..]);
        SeparatedIsKept(d, Dumps(items[0]), DumpItems(items[1..]));
      }
    }
  }

  lemma SeparatedIsKept(d: int, a: Bytes, b: Bytes)
    requires Kept(At(d), a) && Kept(At(d), b)
    ensures Kept(At(d), a + ([COMMA, SPACE] + b))
  {
    PlainIsKept(At(d), [COMMA, SPACE]);
    KeptConcat(At(d), [COMMA, SPACE], b);
    KeptConcat(At(d), a, [COMMA, SPACE] + b);
  }

  lemma {:induction false} FieldsAreKept(d: int, fields: seq<Field>)
    ensures Kept(At(d), DumpFields(fields))
    decreases fields, 0
  {
    if fields == [] {
      PlainIsKept(At(d), []);
    } else {
      var field := fields[0];
      var first := DumpString(field.name) + [COLON, SPACE] + Dumps(field.value);
      StringIsKept(d, field.name);
      DumpsIsKept(d, field.value);
      PlainIsKept(At(d), [COLON, SPACE]);
      KeptConcat(At(d), DumpString(field.name), [COLON, SPACE]);
      KeptConcat(At(d), DumpString(field.name) + [COLON, SPACE], Dumps(field.value));
      if |fields| == 1 {
        assert DumpFields(fields) == first;
      } else {
        FieldsAreKept(d, fields[1..]);
        SeparatedIsKept(d, first, DumpFields(fields[1..]));
      }
    }
  }

  /** `json.dumps` of any dictionary is a single object to the splitter, whatever it contains. */
  lemma DumpedObjectIsObject(fields: seq<Field>)
    ensures IsObject(Dumps(Obj(fields)))
  {
    FieldsAreKept(1, fields);
    WrappedIsKept(At(0), LBRACE, DumpFields(fields), RBRACE);
  }
}
