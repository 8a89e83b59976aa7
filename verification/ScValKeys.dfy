/** Identity strings of `ScVal`s and storage entries (src/soroban/scvalJson.ts, `scvalKey`). */
module ScValKeys {
  import opened Prelude
  import Decimal
  import JsNumbers
  import Doubles

  /**
   * A JSON payload, as far as `String(value)` looks at it: `Number` is an integer literal, `Other` an
   * array, an object or another number, by its text.
   */
  datatype Payload = Undefined | Null | Number(n: int) | Text(s: string) | Boolean(b: bool) | Other(text: string)

  /**
   * An `ScVal` as the trace encodes it, by the cases `scvalKey` switches on. `BareVec` and `BareMap`
   * are a vec and a map whose payload is not an array; `Scalar` is every other type name. Validation
   * narrows the fields of the first levels of a value, and below its depth limit takes them on trust.
   */
  datatype ScVal =
    | Void
    | Error(errType: Payload, code: Payload)
    | Address(addrType: Payload, value: Payload)
    | Vec(items: seq<ScVal>)
    | Map(entries: seq<Entry>)
    | BareVec
    | BareMap
    | Scalar(typeName: string, payload: Payload)

  datatype Entry = Entry(key: ScVal, value: ScVal)

  /** JavaScript's `String(value)`. */
  function JsString(p: Payload): string {
    match p
    case Undefined => "undefined"
    case Null => "null"
    case Number(n) => JsNumbers.NumberText(n)
    case Text(s) => s
    case Boolean(b) => if b then "true" else "false"
    case Other(text) => text
  }

  /** `String(value ?? otherwise)`. */
  function TextOr(p: Payload, otherwise: string): string {
    if p.Undefined? || p.Null? then otherwise else JsString(p)
  }

  function Join(parts: seq<string>): string {
    if parts == [] then "" else if |parts| == 1 then parts[0] else parts[0] + "," + Join(parts[1..])
  }

  function ScvalKey(v: ScVal): string
    decreases v, 1
  {
    match v
    case Void => "void"
    case Error(errType, code) => "error:" + TextOr(errType, "") + ":" + TextOr(code, "0")
    case Address(addrType, value) => "address:" + TextOr(addrType, "") + ":" + TextOr(value, "")
    case Vec(items) => "vec[" + Join(KeysOf(v, items)) + "]"
    case Map(entries) => "map{" + Join(EntryKeysOf(v, entries)) + "}"
    case BareVec => "vec[]"
    case BareMap => "map{}"
    case Scalar(typeName, payload) => typeName + ":" + JsString(payload)
  }

  function KeysOf(context: ScVal, items: seq<ScVal>): (r: seq<string>)
    requires forall i :: 0 <= i < |items| ==> items[i] < context
    ensures |r| == |items| && forall i :: 0 <= i < |items| ==> r[i] == ScvalKey(items[i])
    decreases context, 0, |items|
  {
    if items == [] then [] else [ScvalKey(items[0])] + KeysOf(context, items[1..])
  }

  function EntryKeysOf(context: ScVal, entries: seq<Entry>): (r: seq<string>)
    requires forall i :: 0 <= i < |entries| ==> entries[i].key < context && entries[i].value < context
    ensures |r| == |entries|
    ensures forall i :: 0 <= i < |entries| ==> r[i] == ScvalKey(entries[i].key) + "=>" + ScvalKey(entries[i].value)
    decreases context, 0, |entries|
  {
    if entries == [] then []
    else [ScvalKey(entries[0].key) + "=>" + ScvalKey(entries[0].value)] + EntryKeysOf(context, entries[1..])
  }

  // ----- What a key can tell apart -----

  /**
   * A value up to what its key cannot show: a payload is its text, whatever its JSON type; a missing
   * field is its default; and a `vec` or `map` without an array is empty.
   */
  datatype Canon =
    | CVoid
    | CError(errType: string, code: string)
    | CAddress(addrType: string, text: string)
    | CVec(items: seq<Canon>)
    | CMap(entries: seq<CanonEntry>)
    | CScalar(typeName: string, text: string)

  datatype CanonEntry = CanonEntry(key: Canon, value: Canon)

  function Canonical(v: ScVal): Canon
    decreases v, 1
  {
    match v
    case Void => CVoid
    case Error(errType, code) => CError(TextOr(errType, ""), TextOr(code, "0"))
    case Address(addrType, value) => CAddress(TextOr(addrType, ""), TextOr(value, ""))
    case Vec(items) => CVec(CanonicalItems(v, items))
    case Map(entries) => CMap(CanonicalEntries(v, entries))
    case BareVec => CVec([])
    case BareMap => CMap([])
    case Scalar(typeName, payload) => CScalar(typeName, JsString(payload))
  }

  function CanonicalItems(context: ScVal, items: seq<ScVal>): (r: seq<Canon>)
    requires forall i :: 0 <= i < |items| ==> items[i] < context
    ensures |r| == |items| && forall i :: 0 <= i < |items| ==> r[i] == Canonical(items[i])
    decreases context, 0, |items|
  {
    if items == [] then [] else [Canonical(items[0])] + CanonicalItems(context, items[1..])
  }

  function CanonicalEntries(context: ScVal, entries: seq<Entry>): (r: seq<CanonEntry>)
    requires forall i :: 0 <= i < |entries| ==> entries[i].key < context && entries[i].value < context
    ensures |r| == |entries|
    ensures forall i :: 0 <= i < |entries| ==>
              r[i] == CanonEntry(Canonical(entries[i].key), Canonical(entries[i].value))
    decreases context, 0, |entries|
  {
    if entries == [] then []
    else [CanonEntry(Canonical(entries[0].key), Canonical(entries[0].value))] + CanonicalEntries(context, entries[1..])
  }

  function Head(c: Canon): string {
    match c
    case CVoid => "void"
    case CError(_, _) => "error"
    case CAddress(_, _) => "address"
    case CVec(_) => "vec"
    case CMap(_) => "map"
    case CScalar(typeName, _) => typeName
  }

  /** The key a canonical value prints as: `scvalKey` after `Canonical`. */
  function Print(c: Canon): string
    decreases c, 2
  {
    Head(c) + Body(c)
  }

  function Body(c: Canon): string
    decreases c, 1
  {
    match c
    case CVoid => ""
    case CError(errType, code) => ":" + (errType + (":" + code))
    case CAddress(addrType, text) => ":" + (addrType + (":" + text))
    case CVec(items) => "[" + PrintItems(c, items)
    case CMap(entries) => "{" + PrintEntries(c, entries)
    case CScalar(_, text) => ":" + text
  }

  function PrintItems(context: Canon, items: seq<Canon>): string
    requires forall i :: 0 <= i < |items| ==> items[i] < context
    decreases context, 0, |items|
  {
    if items == [] then "]"
    else Print(items[0]) + (if |items| == 1 then "]" else "," + PrintItems(context, items[1..]))
  }

  function PrintEntries(context: Canon, entries: seq<CanonEntry>): string
    requires forall i :: 0 <= i < |entries| ==> entries[i].key < context && entries[i].value < context
    decreases context, 0, |entries|
  {
    if entries == [] then "}"
    else
      Print(entries[0].key) + ("=>" + (Print(entries[0].value) +
        (if |entries| == 1 then "}" else "," + PrintEntries(context, entries[1..]))))
  }

  lemma ItemText(k: string, rest: string, close: string)
    ensures (k + "," + rest) + close == k + ("," + (rest + close))
  {
  }

  lemma EntryText(k: string, v: string, rest: string)
    ensures (k + "=>" + v) + rest == k + ("=>" + (v + rest))
  {
  }

  lemma {:induction false} ItemsPrinted(v: ScVal, c: Canon, items: seq<ScVal>)
    requires forall i :: 0 <= i < |items| ==> items[i] < v
    requires forall i :: 0 <= i < |items| ==> Canonical(items[i]) < c
    ensures Join(KeysOf(v, items)) + "]" == PrintItems(c, CanonicalItems(v, items))
    decreases v, 0, |items|
  {
    if items != [] {
      KeyIsPrinted(items[0]);
      ItemsPrinted(v, c, items[1..]);
      var keys, canons := KeysOf(v, items), CanonicalItems(v, items);
      assert keys[1..] == KeysOf(v, items[1..]) && canons[1..] == CanonicalItems(v, items[1..]);
      ItemText(keys[0], Join(keys[1..]), "]");
    }
  }

  lemma {:induction false} EntriesPrinted(v: ScVal, c: Canon, entries: seq<Entry>)
    requires forall i :: 0 <= i < |entries| ==> entries[i].key < v && entries[i].value < v
    requires forall i :: 0 <= i < |entries| ==> Canonical(entries[i].key) < c && Canonical(entries[i].value) < c
    ensures Join(EntryKeysOf(v, entries)) + "}" == PrintEntries(c, CanonicalEntries(v, entries))
    decreases v, 0, |entries|
  {
    if entries != [] {
      KeyIsPrinted(entries[0].key);
      KeyIsPrinted(entries[0].value);
      EntriesPrinted(v, c, entries[1..]);
      hide ScvalKey, Print, Canonical;
      var keys, canons := EntryKeysOf(v, entries), CanonicalEntries(v, entries);
      assert keys[1..] == EntryKeysOf(v, entries[1..]) && canons[1..] == CanonicalEntries(v, entries[1..]);
      ItemText(keys[0], Join(keys[1..]), "}");
      EntryText(ScvalKey(entries[0].key), ScvalKey(entries[0].value),
                if |entries| == 1 then "}" else "," + (Join(keys[1..]) + "}"));
    }
  }

  lemma LabelledText(tag: string, name: string, text: string)
    ensures ((tag + ":") + name + ":") + text == tag + (":" + (name + (":" + text)))
  {
  }

  lemma ColonText(name: string, text: string)
    ensures (name + ":") + text == name + (":" + text)
  {
  }

  lemma {:induction false} VecIsPrinted(v: ScVal)
    requires v.Vec?
    ensures ScvalKey(v) == Print(Canonical(v))
    decreases v, 1
  {
    var c := Canonical(v);
    assert forall i :: 0 <= i < |v.items| ==> c.items[i] < c;
    ItemsPrinted(v, c, v.items);
    hide PrintItems, CanonicalItems, Join, KeysOf;
    Bracketed("vec", "[", Join(KeysOf(v, v.items)), "]");
    assert "vec" + "[" == "vec[";
  }

  lemma {:induction false} MapIsPrinted(v: ScVal)
    requires v.Map?
    ensures ScvalKey(v) == Print(Canonical(v))
    decreases v, 1
  {
    var c := Canonical(v);
    assert forall i :: 0 <= i < |v.entries| ==> c.entries[i].key < c && c.entries[i].value < c;
    EntriesPrinted(v, c, v.entries);
    hide PrintEntries, CanonicalEntries, Join, EntryKeysOf;
    Bracketed("map", "{", Join(EntryKeysOf(v, v.entries)), "}");
    assert "map" + "{" == "map{";
  }

  /** A value's key is its canonical form, printed: keys forget exactly what `Canonical` forgets. */
  lemma {:induction false} KeyIsPrinted(v: ScVal)
    ensures ScvalKey(v) == Print(Canonical(v))
    decreases v, 2
  {
    hide PrintItems, PrintEntries, KeysOf, EntryKeysOf, Join, CanonicalItems, CanonicalEntries;
    match v
    case Error(errType, code) =>
      LabelledText("error", TextOr(errType, ""), TextOr(code, "0"));
      assert "error" + ":" == "error:";
    case Address(addrType, value) =>
      LabelledText("address", TextOr(addrType, ""), TextOr(value, ""));
      assert "address" + ":" == "address:";
    case Vec(_) => VecIsPrinted(v);
    case Map(_) => MapIsPrinted(v);
    case Scalar(typeName, payload) => ColonText(typeName, JsString(payload));
    case BareVec => BareIsPrinted();
    case BareMap => BareIsPrinted();
    case Void =>
  }

  lemma BareIsPrinted()
    ensures Print(CVec([])) == "vec[]" && Print(CMap([])) == "map{}"
  {
  }

  lemma Bracketed(name: string, open: string, s: string, close: string)
    ensures ((name + open) + s) + close == name + (open + (s + close))
  {
  }

  // ----- When keys separate values -----

  /** The characters `scvalKey` puts between the parts of a container, without escaping what lies between them. */
  const DELIMITERS: set<char> := {',', ']', '}', '=', '>'}

  /** The characters `scvalKey` puts after a type name. */
  const MARKS: set<char> := {':', '[', '{'}

  /** The texts that stand next to a colon in an error's or an address's key. */
  datatype Field = ErrorType | ErrorCode | AddressType | AddressValue

  /**
   * What the text fields of a value leave out: `anywhere` every one of them; `types` the type names
   * besides; and a colon the fields in `noColon` besides.
   */
  datatype Limits = Limits(anywhere: set<char>, types: set<char>, noColon: set<Field>)

  predicate Avoids(forbidden: set<char>, s: string) {
    forall k :: 0 <= k < |s| ==> s[k] !in forbidden
  }

  predicate FieldAvoids(l: Limits, field: Field, s: string) {
    Avoids(l.anywhere, s) && (field in l.noColon ==> Avoids({':'}, s))
  }

  predicate TypeAvoids(l: Limits, s: string) {
    Avoids(l.anywhere, s) && Avoids(l.types, s)
  }

  /** The type names with a case of their own. */
  predicate OwnCase(typeName: string) {
    typeName in {"void", "error", "address", "vec", "map"}
  }

  /** Every text field of `c` leaves out what `l` says. */
  ghost predicate Safe(l: Limits, c: Canon) {
    match c
    case CVoid => true
    case CError(errType, code) => FieldAvoids(l, ErrorType, errType) && FieldAvoids(l, ErrorCode, code)
    case CAddress(addrType, text) => FieldAvoids(l, AddressType, addrType) && FieldAvoids(l, AddressValue, text)
    case CVec(items) => forall i :: 0 <= i < |items| ==> Safe(l, items[i])
    case CMap(entries) => forall i :: 0 <= i < |entries| ==> Safe(l, entries[i].key) && Safe(l, entries[i].value)
    case CScalar(typeName, text) => !OwnCase(typeName) && TypeAvoids(l, typeName) && Avoids(l.anywhere, text)
  }

  /** Characters whose absence makes the ends of texts clear: the two halves of `=>` are one delimiter. */
  predicate Delimits(forbidden: set<char>) {
    ',' in forbidden && ']' in forbidden && '}' in forbidden && ('=' in forbidden || '>' in forbidden)
  }

  /** Limits under which no two keys are alike. */
  predicate Separates(l: Limits) {
    && l.anywhere <= DELIMITERS && Delimits(l.anywhere) && MARKS <= l.types
    && (ErrorType in l.noColon || ErrorCode in l.noColon)
    && (AddressType in l.noColon || AddressValue in l.noColon)
  }

  /** What may follow a value inside a key. */
  predicate Stops(rest: string) {
    rest == [] || rest[0] in {',', ']', '}'} || (|rest| >= 2 && rest[0] == '=' && rest[1] == '>')
  }

  /** What may follow a text: the end of the value, or one of `marks`. */
  predicate Ends(marks: set<char>, rest: string) {
    Stops(rest) || (rest != [] && rest[0] in marks)
  }

  lemma PartsEqual(m: string, n: string, r: string, q: string)
    requires m + r == n + q && |m| == |n|
    ensures m == n && r == q
  {
    var s, t := m + r, n + q;
    assert m == s[..|m|] && n == t[..|m|] && r == s[|m|..] && q == t[|m|..];
  }

  lemma TextNotShorter(forbidden: set<char>, marks: set<char>, t: string, u: string, r: string, q: string)
    requires Delimits(forbidden) && marks <= MARKS && Avoids(forbidden, u) && Avoids(marks, u)
    requires Ends(marks, r) && Ends(marks, q) && t + r == u + q
    ensures |t| >= |u|
  {
    assert r != [] ==> (t + r)[|t|] == r[0];
    assert |r| >= 2 ==> (t + r)[|t| + 1] == r[1];
    assert q != [] ==> (u + q)[|u|] == q[0];
    assert forall k :: 0 <= k < |u| ==> (u + q)[k] == u[k];
  }

  lemma TextSplit(forbidden: set<char>, marks: set<char>, t: string, u: string, r: string, q: string)
    requires Delimits(forbidden) && marks <= MARKS
    requires Avoids(forbidden, t) && Avoids(forbidden, u) && Avoids(marks, t) && Avoids(marks, u)
    requires Ends(marks, r) && Ends(marks, q) && t + r == u + q
    ensures t == u && r == q
  {
    TextNotShorter(forbidden, marks, t, u, r, q);
    TextNotShorter(forbidden, marks, u, t, q, r);
    PartsEqual(t, u, r, q);
  }

  lemma Assoc(a: string, b: string, c: string)
    ensures (a + b) + c == a + (b + c)
  {
  }

  lemma SameKind(l: Limits, a: Canon, b: Canon)
    requires Safe(l, a) && Safe(l, b) && Head(a) == Head(b)
    ensures (a.CVoid? <==> b.CVoid?) && (a.CError? <==> b.CError?) && (a.CAddress? <==> b.CAddress?)
    ensures (a.CVec? <==> b.CVec?) && (a.CMap? <==> b.CMap?) && (a.CScalar? <==> b.CScalar?)
  {
  }

  lemma HeadSplit(l: Limits, a: Canon, b: Canon, r: string, q: string)
    requires Separates(l) && Safe(l, a) && Safe(l, b) && Stops(r) && Stops(q)
    requires Print(a) + r == Print(b) + q
    ensures Head(a) == Head(b) && Body(a) + r == Body(b) + q
  {
    BodyStart(a, r);
    BodyStart(b, q);
    HeadIsPlain(l, a);
    HeadIsPlain(l, b);
    hide Safe, Head, Body, Avoids, Stops, Ends, Delimits;
    Assoc(Head(a), Body(a), r);
    Assoc(Head(b), Body(b), q);
    TextSplit(l.anywhere, MARKS, Head(a), Head(b), Body(a) + r, Body(b) + q);
  }

  lemma HeadIsPlain(l: Limits, a: Canon)
    requires MARKS <= l.types && l.anywhere <= DELIMITERS && Safe(l, a)
    ensures Avoids(l.anywhere, Head(a)) && Avoids(MARKS, Head(a))
  {
    if a.CScalar? {
      assert Avoids(l.types, a.typeName);
    }
  }

  lemma BodyStart(a: Canon, r: string)
    requires Stops(r)
    ensures Ends(MARKS, Body(a) + r)
  {
    if a.CVoid? {
      assert Body(a) + r == r;
    } else {
      assert (Body(a) + r)[0] == Body(a)[0];
    }
  }

  /**
   * A value followed by a delimiter reads back one way only: if two safe values print to texts that
   * agree when followed by delimiters, the values are equal and so is what follows.
   */
  lemma {:induction false} ReadsOneWay(l: Limits, a: Canon, b: Canon, r: string, q: string)
    requires Separates(l) && Safe(l, a) && Safe(l, b)
    requires Stops(r) && Stops(q) && Print(a) + r == Print(b) + q
    ensures a == b && r == q
    decreases a, 1
  {
    HeadSplit(l, a, b, r, q);
    SameKind(l, a, b);
    hide Stops, Separates, FieldAvoids, TypeAvoids, Avoids, Print, PrintItems, PrintEntries;
    match a
    case CVoid =>
      assert "" + r == r && "" + q == q;
    case CError(errType, code) =>
      PairReadsOneWay(l, ErrorType, ErrorCode, errType, code, b.errType, b.code, r, q);
    case CAddress(addrType, text) =>
      PairReadsOneWay(l, AddressType, AddressValue, addrType, text, b.addrType, b.text, r, q);
    case CVec(items) =>
      DropFirst("[", PrintItems(a, items), PrintItems(b, b.items), r, q);
      ItemsReadOneWay(l, a, b, items, b.items, r, q);
    case CMap(entries) =>
      DropFirst("{", PrintEntries(a, entries), PrintEntries(b, b.entries), r, q);
      EntriesReadOneWay(l, a, b, entries, b.entries, r, q);
    case CScalar(typeName, text) =>
      DropFirst(":", text, b.text, r, q);
      ScalarReadsOneWay(l, text, b.text, r, q);
  }

  lemma ScalarReadsOneWay(l: Limits, s: string, t: string, r: string, q: string)
    requires Separates(l) && Avoids(l.anywhere, s) && Avoids(l.anywhere, t) && Stops(r) && Stops(q) && s + r == t + q
    ensures s == t && r == q
  {
    TextSplit(l.anywhere, {}, s, t, r, q);
  }

  lemma PairReadsOneWay(
    l: Limits, first: Field, second: Field, e: string, s: string, f: string, t: string, r: string, q: string)
    requires Separates(l)
    requires (first == ErrorType && second == ErrorCode) || (first == AddressType && second == AddressValue)
    requires FieldAvoids(l, first, e) && FieldAvoids(l, first, f)
    requires FieldAvoids(l, second, s) && FieldAvoids(l, second, t)
    requires Stops(r) && Stops(q) && (":" + (e + (":" + s))) + r == (":" + (f + (":" + t))) + q
    ensures e == f && s == t && r == q
  {
    var u, v := e + (":" + s), f + (":" + t);
    PairAvoids(l, e, s);
    PairAvoids(l, f, t);
    assert (Avoids({':'}, e) && Avoids({':'}, f)) || (Avoids({':'}, s) && Avoids({':'}, t));
    hide Stops, Avoids;
    DropFirst(":", u, v, r, q);
    ScalarReadsOneWay(l, u, v, r, q);
    ColonSplit(e, s, f, t);
  }

  lemma PairAvoids(l: Limits, e: string, s: string)
    requires Avoids(l.anywhere, e) && Avoids(l.anywhere, s) && l.anywhere <= DELIMITERS
    ensures Avoids(l.anywhere, e + (":" + s))
  {
  }

  /** A text splits at its one colon, or at the last when only what follows it has none. */
  lemma ColonSplit(e: string, s: string, f: string, t: string)
    requires e + (":" + s) == f + (":" + t)
    requires (Avoids({':'}, e) && Avoids({':'}, f)) || (Avoids({':'}, s) && Avoids({':'}, t))
    ensures e == f && s == t
  {
    var u, v := e + (":" + s), f + (":" + t);
    assert u[|e|] == ':' && v[|f|] == ':';
    assert forall k :: 0 <= k < |s| ==> u[|e| + 1 + k] == s[k];
    assert forall k :: 0 <= k < |t| ==> v[|f| + 1 + k] == t[k];
    assert |u| == |e| + 1 + |s| && |v| == |f| + 1 + |t|;
    PartsEqual(e, f, ":" + s, ":" + t);
    DropClose(":", s, t);
  }

  lemma DropFirst(c: string, s: string, t: string, r: string, q: string)
    requires |c| == 1 && (c + s) + r == (c + t) + q
    ensures s + r == t + q
  {
    assert ((c + s) + r)[1..] == s + r && ((c + t) + q)[1..] == t + q;
  }

  lemma DropClose(c: string, r: string, q: string)
    requires |c| == 1 && c + r == c + q
    ensures r == q
  {
    assert (c + r)[1..] == r && (c + q)[1..] == q;
  }

  /** What follows the first of `items`: the closing bracket, or a comma and the rest. */
  function AfterItem(context: Canon, items: seq<Canon>): string
    requires items != [] && forall i :: 0 <= i < |items| ==> items[i] < context
  {
    if |items| == 1 then "]" else "," + PrintItems(context, items[1..])
  }

  lemma {:induction false} ItemsReadOneWay(
    l: Limits, a: Canon, b: Canon, xs: seq<Canon>, ys: seq<Canon>, r: string, q: string)
    requires forall i :: 0 <= i < |xs| ==> xs[i] < a && Safe(l, xs[i])
    requires forall i :: 0 <= i < |ys| ==> ys[i] < b && Safe(l, ys[i])
    requires Separates(l)
    requires PrintItems(a, xs) + r == PrintItems(b, ys) + q
    ensures xs == ys && r == q
    decreases a, 0, |xs|
  {
    ItemsStart(l, a, xs, r);
    ItemsStart(l, b, ys, q);
    hide Safe, Separates, Print;
    if xs == [] {
      DropClose("]", r, q);
    } else {
      var t, u := AfterItem(a, xs), AfterItem(b, ys);
      Assoc(Print(xs[0]), t, r);
      Assoc(Print(ys[0]), u, q);
      ReadsOneWay(l, xs[0], ys[0], t + r, u + q);
      assert (t + r)[0] == t[0] && (u + q)[0] == u[0];
      if |xs| == 1 {
        DropClose("]", r, q);
      } else {
        DropFirst(",", PrintItems(a, xs[1..]), PrintItems(b, ys[1..]), r, q);
        ItemsReadOneWay(l, a, b, xs[1..], ys[1..], r, q);
      }
      assert xs == [xs[0]] + xs[1..] && ys == [ys[0]] + ys[1..];
    }
  }

  /** A closing bracket never opens an item. */
  lemma ItemsStart(l: Limits, context: Canon, items: seq<Canon>, r: string)
    requires forall i :: 0 <= i < |items| ==> items[i] < context && Safe(l, items[i])
    requires Separates(l)
    ensures items == [] <==> (PrintItems(context, items) + r)[0] == ']'
  {
    if items != [] {
      PrintStart(l, items[0]);
    }
  }

  lemma PrintStart(l: Limits, c: Canon)
    requires Separates(l) && Safe(l, c)
    ensures Print(c) != [] && Print(c)[0] !in {']', '}'}
  {
    HeadIsPlain(l, c);
    if Head(c) == [] {
      assert Print(c)[0] == Body(c)[0];
    } else {
      assert Print(c)[0] == Head(c)[0];
    }
  }

  function AfterEntry(context: Canon, entries: seq<CanonEntry>): string
    requires entries != []
    requires forall i :: 0 <= i < |entries| ==> entries[i].key < context && entries[i].value < context
  {
    if |entries| == 1 then "}" else "," + PrintEntries(context, entries[1..])
  }

  lemma {:induction false} EntriesReadOneWay(
    l: Limits, a: Canon, b: Canon, xs: seq<CanonEntry>, ys: seq<CanonEntry>, r: string, q: string)
    requires forall i :: 0 <= i < |xs| ==> xs[i].key < a && xs[i].value < a
    requires forall i :: 0 <= i < |xs| ==> Safe(l, xs[i].key) && Safe(l, xs[i].value)
    requires forall i :: 0 <= i < |ys| ==> ys[i].key < b && ys[i].value < b
    requires forall i :: 0 <= i < |ys| ==> Safe(l, ys[i].key) && Safe(l, ys[i].value)
    requires Separates(l)
    requires PrintEntries(a, xs) + r == PrintEntries(b, ys) + q
    ensures xs == ys && r == q
    decreases a, 0, |xs|
  {
    EntriesStart(l, a, xs, r);
    EntriesStart(l, b, ys, q);
    hide Safe, Separates, Print;
    if xs == [] {
      DropClose("}", r, q);
    } else {
      var t, u := AfterEntry(a, xs), AfterEntry(b, ys);
      EntryReadsOneWay(l, a, xs[0], ys[0], t, u, r, q);
      assert (t + r)[0] == t[0] && (u + q)[0] == u[0];
      if |xs| == 1 {
        DropClose("}", r, q);
      } else {
        DropFirst(",", PrintEntries(a, xs[1..]), PrintEntries(b, ys[1..]), r, q);
        EntriesReadOneWay(l, a, b, xs[1..], ys[1..], r, q);
      }
      assert xs == [xs[0]] + xs[1..] && ys == [ys[0]] + ys[1..];
    }
  }

  lemma {:induction false} EntryReadsOneWay(
    l: Limits, context: Canon, x: CanonEntry, y: CanonEntry, t: string, u: string, r: string, q: string)
    requires x.key < context && x.value < context
    requires Separates(l) && Stops(t + r) && Stops(u + q)
    requires Safe(l, x.key) && Safe(l, x.value) && Safe(l, y.key) && Safe(l, y.value)
    requires (Print(x.key) + ("=>" + (Print(x.value) + t))) + r == (Print(y.key) + ("=>" + (Print(y.value) + u))) + q
    ensures x == y && t + r == u + q
    decreases context, 0, 0
  {
    hide Safe, Separates, Print;
    var v, w := (Print(x.value) + t) + r, (Print(y.value) + u) + q;
    Assoc(Print(x.key), "=>" + (Print(x.value) + t), r);
    Assoc(Print(y.key), "=>" + (Print(y.value) + u), q);
    Assoc("=>", Print(x.value) + t, r);
    Assoc("=>", Print(y.value) + u, q);
    ReadsOneWay(l, x.key, y.key, "=>" + v, "=>" + w);
    assert ("=>" + v)[2..] == v && ("=>" + w)[2..] == w;
    Assoc(Print(x.value), t, r);
    Assoc(Print(y.value), u, q);
    ReadsOneWay(l, x.value, y.value, t + r, u + q);
  }

  lemma EntriesStart(l: Limits, context: Canon, entries: seq<CanonEntry>, r: string)
    requires forall i :: 0 <= i < |entries| ==> entries[i].key < context && entries[i].value < context
    requires forall i :: 0 <= i < |entries| ==> Safe(l, entries[i].key)
    requires Separates(l)
    ensures entries == [] <==> (PrintEntries(context, entries) + r)[0] == '}'
  {
    if entries != [] {
      PrintStart(l, entries[0].key);
    }
  }

  // ----- The main results -----

  ghost predicate Payloads(l: Limits, v: ScVal) {
    Safe(l, Canonical(v))
  }

  ghost predicate Injective(l: Limits) {
    forall v, w :: Payloads(l, v) && Payloads(l, w) && ScvalKey(v) == ScvalKey(w)
                   ==> Canonical(v) == Canonical(w)
  }

  lemma KeysSeparate(l: Limits, v: ScVal, w: ScVal)
    requires Separates(l) && Payloads(l, v) && Payloads(l, w)
    ensures ScvalKey(v) == ScvalKey(w) <==> Canonical(v) == Canonical(w)
  {
    KeyIsPrinted(v);
    KeyIsPrinted(w);
    if ScvalKey(v) == ScvalKey(w) {
      assert Print(Canonical(v)) + "" == Print(Canonical(w)) + "";
      ReadsOneWay(l, Canonical(v), Canonical(w), "", "");
    }
  }

  function Str(s: string): ScVal { Scalar("string", Text(s)) }

  /** `s` has no delimiter, except possibly those in `allowed`. */
  predicate OnlyDelimiters(allowed: set<char>, s: string) {
    forall k :: 0 <= k < |s| ==> s[k] in allowed || s[k] !in DELIMITERS
  }

  /** Limits this module speaks of: among the delimiters, and among the marks. */
  predicate Within(l: Limits) {
    l.anywhere <= DELIMITERS && l.types <= MARKS
  }

  /** A string none of whose delimiters the limits speak of, and the key it prints as. */
  lemma Spelled(l: Limits, allowed: set<char>, s: string)
    requires Within(l) && l.anywhere !! allowed && OnlyDelimiters(allowed, s)
    ensures Safe(l, Canonical(Str(s)))
    ensures ScvalKey(Str(s)) == "string:" + s && Canonical(Str(s)) == CScalar("string", s)
  {
    assert "string" + ":" == "string:";
  }

  /** A scalar is safe when no limit speaks of the delimiters and marks in its type name. */
  lemma ScalarIsSafe(l: Limits, allowed: set<char>, typeName: string, text: string)
    requires Within(l) && l.anywhere !! allowed && l.types !! allowed && !OwnCase(typeName)
    requires forall k :: 0 <= k < |typeName| ==> typeName[k] in allowed || typeName[k] !in DELIMITERS + MARKS
    requires OnlyDelimiters({}, text)
    ensures Safe(l, Canonical(Scalar(typeName, Text(text))))
  {
  }

  ghost predicate Collide(l: Limits, v: ScVal, w: ScVal) {
    && Payloads(l, v) && Payloads(l, w)
    && ScvalKey(v) == ScvalKey(w) && Canonical(v) != Canonical(w)
  }

  lemma ScalarKey(typeName: string, s: string)
    ensures ScvalKey(Scalar(typeName, Text(s))) == typeName + ":" + s
    ensures Canonical(Scalar(typeName, Text(s))) == CScalar(typeName, s)
  {
  }

  lemma VecIsSafe(l: Limits, items: seq<Canon>)
    requires forall i :: 0 <= i < |items| ==> Safe(l, items[i])
    ensures Safe(l, CVec(items))
  {
  }

  lemma MapIsSafe(l: Limits, entries: seq<CanonEntry>)
    requires forall i :: 0 <= i < |entries| ==> Safe(l, entries[i].key) && Safe(l, entries[i].value)
    ensures Safe(l, CMap(entries))
  {
  }

  /** The unescaped comma: `["a","b"]` and `["a,string:b"]` share a key. */
  lemma CommaCollides(l: Limits) returns (v: ScVal, w: ScVal)
    requires Within(l) && ',' !in l.anywhere
    ensures Collide(l, v, w)
  {
    hide Safe, Canonical, ScvalKey, Str;
    Spelled(l, {','}, "a");
    Spelled(l, {','}, "b");
    Spelled(l, {','}, "a,string:b");
    var a, b, ab := Str("a"), Str("b"), Str("a,string:b");
    v, w := Vec([a, b]), Vec([ab]);
    KeyOfTwo(v, a, b);
    KeyOfOne(w, ab);
    VecIsSafe(l, [Canonical(a), Canonical(b)]);
    VecIsSafe(l, [Canonical(ab)]);
    CommaText();
  }

  lemma CommaText()
    ensures ("string:" + "a") + "," + ("string:" + "b") == "string:" + "a,string:b"
  {
  }

  /** The unescaped bracket: `[["a"],"b]"]` and `[["a]","b"]]` share a key. */
  lemma BracketCollides(l: Limits) returns (v: ScVal, w: ScVal)
    requires Within(l) && ']' !in l.anywhere
    ensures Collide(l, v, w)
  {
    hide Safe, Canonical, ScvalKey, Str;
    Spelled(l, {']'}, "a");
    Spelled(l, {']'}, "b]");
    Spelled(l, {']'}, "a]");
    Spelled(l, {']'}, "b");
    var a, b, a', b' := Str("a"), Str("b]"), Str("a]"), Str("b");
    var inner, inner' := Vec([a]), Vec([a', b']);
    v, w := Vec([inner, b]), Vec([inner']);
    KeyOfOne(inner, a);
    KeyOfTwo(inner', a', b');
    KeyOfTwo(v, inner, b);
    KeyOfOne(w, inner');
    VecIsSafe(l, [Canonical(a)]);
    VecIsSafe(l, [Canonical(a'), Canonical(b')]);
    VecIsSafe(l, [Canonical(inner), Canonical(b)]);
    VecIsSafe(l, [Canonical(inner')]);
    BracketText();
  }

  lemma BracketText()
    ensures "vec[" + (("vec[" + ("string:" + "a") + "]") + "," + ("string:" + "b]")) + "]"
         == "vec[" + ("vec[" + (("string:" + "a]") + "," + ("string:" + "b")) + "]") + "]"
  {
  }

  /** The unescaped brace, the same way between nested maps. */
  lemma BraceCollides(l: Limits) returns (v: ScVal, w: ScVal)
    requires Within(l) && '}' !in l.anywhere
    ensures Collide(l, v, w)
  {
    hide Safe, Canonical, ScvalKey, Str;
    Spelled(l, {'}'}, "a");
    Spelled(l, {'}'}, "b}");
    Spelled(l, {'}'}, "a}");
    Spelled(l, {'}'}, "b");
    var a, b, a', b' := Str("a"), Str("b}"), Str("a}"), Str("b");
    var inner, inner' := Map([Entry(a, a)]), Map([Entry(a, a'), Entry(a, b')]);
    v, w := Map([Entry(a, inner), Entry(a, b)]), Map([Entry(a, inner')]);
    KeyOfEntry(inner, Entry(a, a));
    KeyOfEntries(inner', Entry(a, a'), Entry(a, b'));
    KeyOfEntries(v, Entry(a, inner), Entry(a, b));
    KeyOfEntry(w, Entry(a, inner'));
    var ca := Canonical(a);
    MapIsSafe(l, [CanonEntry(ca, ca)]);
    MapIsSafe(l, [CanonEntry(ca, Canonical(a')), CanonEntry(ca, Canonical(b'))]);
    MapIsSafe(l, [CanonEntry(ca, Canonical(inner)), CanonEntry(ca, Canonical(b))]);
    MapIsSafe(l, [CanonEntry(ca, Canonical(inner'))]);
    BraceText("string:a=>");
    assert "string:" + "a" == "string:a" && "string:a" + "=>" == "string:a=>";
  }

  lemma BraceText(k: string)
    ensures "map{" + ((k + ("map{" + (k + ("string:" + "a")) + "}")) + "," + (k + ("string:" + "b}"))) + "}"
         == "map{" + (k + ("map{" + ((k + ("string:" + "a}")) + "," + (k + ("string:" + "b"))) + "}")) + "}"
  {
    var m := ("map{" + (k + "string:a")) + "}";
    assert "string:" + "a}" == "string:a" + "}" && "string:" + "b}" == "string:b" + "}";
  }

  /** The unescaped arrow: a map entry can split at either of two arrows. */
  lemma ArrowCollides(l: Limits) returns (v: ScVal, w: ScVal)
    requires Within(l) && '=' !in l.anywhere && '>' !in l.anywhere
    ensures Collide(l, v, w)
  {
    hide Safe, Canonical, ScvalKey, Str;
    Spelled(l, {'=', '>'}, "a");
    Spelled(l, {'=', '>'}, "b=>string:c");
    Spelled(l, {'=', '>'}, "a=>string:b");
    Spelled(l, {'=', '>'}, "c");
    var a, bc, ab, c := Str("a"), Str("b=>string:c"), Str("a=>string:b"), Str("c");
    v, w := Map([Entry(a, bc)]), Map([Entry(ab, c)]);
    KeyOfEntry(v, Entry(a, bc));
    KeyOfEntry(w, Entry(ab, c));
    MapIsSafe(l, [CanonEntry(Canonical(a), Canonical(bc))]);
    MapIsSafe(l, [CanonEntry(Canonical(ab), Canonical(c))]);
    ArrowText();
  }

  lemma ArrowText()
    ensures ("string:" + "a") + "=>" + ("string:" + "b=>string:c") ==
            ("string:" + "a=>string:b") + "=>" + ("string:" + "c")
  {
  }

  lemma KeyOfEntry(v: ScVal, e: Entry)
    requires v == Map([e])
    ensures ScvalKey(v) == "map{" + (ScvalKey(e.key) + "=>" + ScvalKey(e.value)) + "}"
    ensures Canonical(v) == CMap([CanonEntry(Canonical(e.key), Canonical(e.value))])
  {
    assert EntryKeysOf(v, [e]) == [ScvalKey(e.key) + "=>" + ScvalKey(e.value)];
    assert CanonicalEntries(v, [e]) == [CanonEntry(Canonical(e.key), Canonical(e.value))];
  }

  lemma KeyOfEntries(v: ScVal, e: Entry, f: Entry)
    requires v == Map([e, f])
    ensures ScvalKey(v) ==
            "map{" + ((ScvalKey(e.key) + "=>" + ScvalKey(e.value)) + "," +
                      (ScvalKey(f.key) + "=>" + ScvalKey(f.value))) + "}"
    ensures Canonical(v) ==
            CMap([CanonEntry(Canonical(e.key), Canonical(e.value)), CanonEntry(Canonical(f.key), Canonical(f.value))])
  {
    var s, t := ScvalKey(e.key) + "=>" + ScvalKey(e.value), ScvalKey(f.key) + "=>" + ScvalKey(f.value);
    assert EntryKeysOf(v, [e, f]) == [s, t];
    assert CanonicalEntries(v, [e, f]) ==
           [CanonEntry(Canonical(e.key), Canonical(e.value)), CanonEntry(Canonical(f.key), Canonical(f.value))];
    assert Join([s, t]) == s + "," + Join([t]);
  }

  // ----- Error types and type names -----

  /** An error as validation leaves it: a text and an integer. */
  function Err(errType: string, code: int): ScVal { Error(Text(errType), Number(code)) }

  lemma ErrKey(errType: string, code: nat)
    requires code < 10
    ensures ScvalKey(Err(errType, code)) == "error:" + errType + ":" + [Decimal.Digit(code)]
    ensures Canonical(Err(errType, code)) == CError(errType, [Decimal.Digit(code)])
  {
    JsNumbers.SafeIntegersPrintThemselves(code);
    hide JsNumbers.NumberText;
    assert JsString(Number(code)) == Decimal.ToString(code) == [Decimal.Digit(code)];
  }

  lemma DigitTexts()
    ensures [Decimal.Digit(1)] == "1" && [Decimal.Digit(2)] == "2"
  {
  }

  lemma ErrIsSafe(l: Limits, allowed: set<char>, errType: string, code: nat)
    requires code < 10 && Within(l) && l.anywhere !! allowed && OnlyDelimiters(allowed, errType)
    requires ErrorType in l.noColon ==> Avoids({':'}, errType)
    ensures Safe(l, Canonical(Err(errType, code)))
  {
    ErrKey(errType, code);
    hide Canonical;
  }

  /** Two errors in a vec and one whose type holds the text between them share a key, no payload being a text. */
  lemma ErrorTypesCollide(l: Limits) returns (v: ScVal, w: ScVal)
    requires Within(l) && ',' !in l.anywhere && ErrorType !in l.noColon
    ensures Collide(l, v, w)
    ensures v == Vec([Err("a", 1), Err("b", 2)]) && w == Vec([Err("a:1,error:b", 2)])
  {
    hide Safe, Canonical, ScvalKey, Err, Decimal.Digit, FieldAvoids;
    DigitTexts();
    ErrIsSafe(l, {','}, "a", 1);
    ErrIsSafe(l, {','}, "b", 2);
    ErrIsSafe(l, {','}, "a:1,error:b", 2);
    ErrKey("a", 1);
    ErrKey("b", 2);
    ErrKey("a:1,error:b", 2);
    var a, b, ab := Err("a", 1), Err("b", 2), Err("a:1,error:b", 2);
    v, w := Vec([a, b]), Vec([ab]);
    KeyOfTwo(v, a, b);
    KeyOfOne(w, ab);
    VecIsSafe(l, [Canonical(a), Canonical(b)]);
    VecIsSafe(l, [Canonical(ab)]);
    assert ("error:" + "a" + ":" + "1") + "," + ("error:" + "b" + ":" + "2") == "error:" + "a:1,error:b" + ":" + "2";
  }

  /** The same between scalars, through a type name. */
  lemma TypeNamesCollide(l: Limits) returns (v: ScVal, w: ScVal)
    requires Within(l) && ',' !in l.anywhere && ':' !in l.types
    ensures Collide(l, v, w)
    ensures v == Vec([Scalar("a", Text("1")), Scalar("b", Text("2"))]) && w == Vec([Scalar("a:1,b", Text("2"))])
  {
    hide Safe, Canonical, ScvalKey;
    Unmarked(l, "a", "1");
    Unmarked(l, "b", "2");
    ScalarIsSafe(l, {',', ':'}, "a:1,b", "2");
    ScalarKey("a:1,b", "2");
    var a, b, ab := Scalar("a", Text("1")), Scalar("b", Text("2")), Scalar("a:1,b", Text("2"));
    v, w := Vec([a, b]), Vec([ab]);
    KeyOfTwo(v, a, b);
    KeyOfOne(w, ab);
    VecIsSafe(l, [Canonical(a), Canonical(b)]);
    VecIsSafe(l, [Canonical(ab)]);
    assert ("a" + ":" + "1") + "," + ("b" + ":" + "2") == "a:1,b" + ":" + "2";
  }

  /** A colon in a type name: a scalar of type `error:a` is taken for an error of type `a`. */
  lemma TypeColonCollides(l: Limits) returns (v: ScVal, w: ScVal)
    requires Within(l) && ':' !in l.types
    ensures Collide(l, v, w)
  {
    hide Safe, Canonical, ScvalKey, Err, Decimal.Digit, FieldAvoids;
    DigitTexts();
    v, w := Scalar("error:a", Text("1")), Err("a", 1);
    ScalarIsSafe(l, {':'} - l.anywhere, "error:a", "1");
    ErrIsSafe(l, {}, "a", 1);
    ScalarKey("error:a", "1");
    ErrKey("a", 1);
    assert "error:a" + ":" + "1" == "error:" + "a" + ":" + "1";
  }

  /** A scalar whose type name holds no delimiter, and no mark but `mark`. */
  lemma Marked(l: Limits, mark: char, typeName: string, s: string)
    requires Within(l) && mark in MARKS && mark !in l.types && !OwnCase(typeName) && OnlyDelimiters({}, s)
    requires forall k :: 0 <= k < |typeName| ==> typeName[k] == mark || typeName[k] !in DELIMITERS + MARKS
    ensures Safe(l, Canonical(Scalar(typeName, Text(s))))
    ensures ScvalKey(Scalar(typeName, Text(s))) == typeName + ":" + s
    ensures Canonical(Scalar(typeName, Text(s))) == CScalar(typeName, s)
  {
    ScalarIsSafe(l, {mark}, typeName, s);
  }

  lemma Unmarked(l: Limits, typeName: string, s: string)
    requires Within(l) && !OwnCase(typeName) && OnlyDelimiters({}, s)
    requires forall k :: 0 <= k < |typeName| ==> typeName[k] !in DELIMITERS + MARKS
    ensures Safe(l, Canonical(Scalar(typeName, Text(s))))
    ensures ScvalKey(Scalar(typeName, Text(s))) == typeName + ":" + s
    ensures Canonical(Scalar(typeName, Text(s))) == CScalar(typeName, s)
  {
    ScalarIsSafe(l, {}, typeName, s);
  }

  /** An open bracket in a type name, as if an inner vec began there. */
  lemma TypeBracketCollides(l: Limits) returns (v: ScVal, w: ScVal)
    requires Within(l) && '[' !in l.types
    ensures Collide(l, v, w)
  {
    hide Safe, Canonical, ScvalKey;
    var a, b := Scalar("a", Text("1")), Scalar("vec[b", Text("2"));
    var a', b' := Scalar("vec[a", Text("1")), Scalar("b", Text("2"));
    Unmarked(l, "a", "1");
    Unmarked(l, "b", "2");
    Marked(l, '[', "vec[b", "2");
    Marked(l, '[', "vec[a", "1");
    var inner, inner' := Vec([a, b]), Vec([b']);
    v, w := Vec([inner]), Vec([a', inner']);
    KeyOfTwo(inner, a, b);
    KeyOfOne(inner', b');
    KeyOfOne(v, inner);
    KeyOfTwo(w, a', inner');
    VecIsSafe(l, [Canonical(a), Canonical(b)]);
    VecIsSafe(l, [Canonical(b')]);
    VecIsSafe(l, [Canonical(inner)]);
    VecIsSafe(l, [Canonical(a'), Canonical(inner')]);
    TypeBracketText();
  }

  lemma TypeBracketText()
    ensures "vec[" + ("vec[" + (("a" + ":" + "1") + "," + ("vec[b" + ":" + "2")) + "]") + "]"
         == "vec[" + (("vec[a" + ":" + "1") + "," + ("vec[" + ("b" + ":" + "2") + "]")) + "]"
  {
  }

  /** An open brace in a type name, as if an inner map began there. */
  lemma TypeBraceCollides(l: Limits) returns (v: ScVal, w: ScVal)
    requires Within(l) && '{' !in l.types
    ensures Collide(l, v, w)
  {
    hide Safe, Canonical, ScvalKey;
    var a, b := Scalar("a", Text("1")), Scalar("map{b", Text("2"));
    var a', b' := Scalar("map{a", Text("1")), Scalar("b", Text("2"));
    Unmarked(l, "a", "1");
    Unmarked(l, "b", "2");
    Marked(l, '{', "map{b", "2");
    Marked(l, '{', "map{a", "1");
    var inner, inner' := Map([Entry(a, a), Entry(b, a)]), Map([Entry(b', a)]);
    v, w := Map([Entry(inner, a)]), Map([Entry(a', a), Entry(inner', a)]);
    KeyOfEntries(inner, Entry(a, a), Entry(b, a));
    KeyOfEntry(inner', Entry(b', a));
    KeyOfEntry(v, Entry(inner, a));
    KeyOfEntries(w, Entry(a', a), Entry(inner', a));
    var ca := Canonical(a);
    MapIsSafe(l, [CanonEntry(ca, ca), CanonEntry(Canonical(b), ca)]);
    MapIsSafe(l, [CanonEntry(Canonical(b'), ca)]);
    MapIsSafe(l, [CanonEntry(Canonical(inner), ca)]);
    MapIsSafe(l, [CanonEntry(Canonical(a'), ca), CanonEntry(Canonical(inner'), ca)]);
    TypeBraceText("a" + ":" + "1");
  }

  lemma TypeBraceText(k: string)
    requires k == "a" + ":" + "1"
    ensures "map{" + (("map{" + ((k + "=>" + k) + "," + (("map{b" + ":" + "2") + "=>" + k)) + "}") + "=>" + k) + "}"
         == "map{" + (((("map{a" + ":" + "1") + "=>" + k)) + "," +
                      (("map{" + (("b" + ":" + "2") + "=>" + k) + "}") + "=>" + k)) + "}"
  {
  }

  /** A colon on both sides of the one that separates them: an error's type and code, or an address's. */
  lemma ErrorColonCollides(l: Limits) returns (v: ScVal, w: ScVal)
    requires Within(l) && ErrorType !in l.noColon && ErrorCode !in l.noColon
    ensures Collide(l, v, w)
  {
    v, w := Error(Text("x:y"), Text("z")), Error(Text("x"), Text("y:z"));
    assert Canonical(v) == CError("x:y", "z") && Canonical(w) == CError("x", "y:z");
    assert "error:" + "x:y" + ":" + "z" == "error:" + "x" + ":" + "y:z";
  }

  lemma AddressColonCollides(l: Limits) returns (v: ScVal, w: ScVal)
    requires Within(l) && AddressType !in l.noColon && AddressValue !in l.noColon
    ensures Collide(l, v, w)
  {
    v, w := Address(Text("x:y"), Text("z")), Address(Text("x"), Text("y:z"));
    assert Canonical(v) == CAddress("x:y", "z") && Canonical(w) == CAddress("x", "y:z");
    assert "address:" + "x:y" + ":" + "z" == "address:" + "x" + ":" + "y:z";
  }

  /**
   * Exactly what the text fields must avoid for different values never to collide: the comma, both
   * closing brackets and one half of the arrow, everywhere; the colon and both opening brackets, in
   * type names; and the colon, in one of the two fields of an error and of an address.
   */
  lemma InjectiveIff(l: Limits)
    requires Within(l)
    ensures Injective(l) <==> Separates(l)
  {
    if Separates(l) {
      forall v, w | Payloads(l, v) && Payloads(l, w) && ScvalKey(v) == ScvalKey(w)
        ensures Canonical(v) == Canonical(w)
      {
        KeysSeparate(l, v, w);
      }
    } else {
      var v, w := NotInjective(l);
    }
  }

  lemma NotInjective(l: Limits) returns (v: ScVal, w: ScVal)
    requires Within(l) && !Separates(l)
    ensures Collide(l, v, w)
  {
    hide Collide;
    if ',' !in l.anywhere {
      v, w := CommaCollides(l);
    } else if ']' !in l.anywhere {
      v, w := BracketCollides(l);
    } else if '}' !in l.anywhere {
      v, w := BraceCollides(l);
    } else if '=' !in l.anywhere && '>' !in l.anywhere {
      v, w := ArrowCollides(l);
    } else if ':' !in l.types {
      v, w := TypeColonCollides(l);
    } else if '[' !in l.types {
      v, w := TypeBracketCollides(l);
    } else if '{' !in l.types {
      v, w := TypeBraceCollides(l);
    } else if ErrorType !in l.noColon && ErrorCode !in l.noColon {
      v, w := ErrorColonCollides(l);
    } else {
      v, w := AddressColonCollides(l);
    }
  }

  // ----- The texts themselves -----

  /** The texts JavaScript makes of what is no number, array or object. */
  lemma PayloadTexts(s: string)
    ensures JsString(Text(s)) == s
    ensures JsString(Undefined) == "undefined" && JsString(Null) == "null"
    ensures JsString(Boolean(true)) == "true" && JsString(Boolean(false)) == "false"
  {
  }

  /** A missing or null field is the empty text, and a missing code the number 0. */
  lemma MissingFields(errType: Payload, code: Payload, addrType: Payload, value: Payload)
    requires (errType.Undefined? || errType.Null?) && (addrType.Undefined? || addrType.Null?)
    requires (code.Undefined? || code.Null?) && (value.Undefined? || value.Null?)
    ensures ScvalKey(Error(errType, code)) == "error::0" == ScvalKey(Err("", 0))
    ensures ScvalKey(Address(addrType, value)) == "address::"
  {
    ErrKey("", 0);
    assert [Decimal.Digit(0)] == "0";
    assert "error:" + "" + ":" + "0" == "error::0" && "address:" + "" + ":" + "" == "address::";
  }

  /** A vec or map whose payload is no array is an empty one. */
  lemma MissingArrays()
    ensures ScvalKey(BareVec) == "vec[]" && ScvalKey(Vec([])) == "vec[]"
    ensures ScvalKey(BareMap) == "map{}" && ScvalKey(Map([])) == "map{}"
  {
    assert "vec[" + "" + "]" == "vec[]" && "map{" + "" + "}" == "map{}";
  }

  // ----- What Canonical merges -----

  /** Scalars of one type share a key exactly when `String` makes one text of their payloads. */
  lemma ScalarsShare(typeName: string, p: Payload, q: Payload)
    ensures ScvalKey(Scalar(typeName, p)) == ScvalKey(Scalar(typeName, q)) <==> JsString(p) == JsString(q)
  {
    var s, t := ScvalKey(Scalar(typeName, p)), ScvalKey(Scalar(typeName, q));
    assert s[|typeName| + 1..] == JsString(p) && t[|typeName| + 1..] == JsString(q);
  }

  /** So every payload that is not a text shares its key with one: `true` with `"true"`, null with `"null"`. */
  lemma EveryPayloadHasATwin(typeName: string, p: Payload)
    requires !p.Text?
    ensures Scalar(typeName, p) != Scalar(typeName, Text(JsString(p)))
    ensures ScvalKey(Scalar(typeName, p)) == ScvalKey(Scalar(typeName, Text(JsString(p))))
  {
  }

  /**
   * Two numbers of one type share a key exactly when they are one number once parsed. A number shares
   * a key with a decimal numeral exactly when its magnitude is below 10^21, and then with that of the
   * shortest decimal that parses to it, only.
   */
  lemma NumbersIdentified(typeName: string, m: int, n: int)
    ensures ScvalKey(Scalar(typeName, Number(m))) == ScvalKey(Scalar(typeName, Number(n))) <==>
            JsNumbers.Parse(m) == JsNumbers.Parse(n)
    ensures ScvalKey(Scalar(typeName, Number(m))) == ScvalKey(Scalar(typeName, Text(Decimal.ToString(n)))) <==>
            && Doubles.Round(JsNumbers.Magnitude(m)) < JsNumbers.EXPONENT_FROM
            && n == JsNumbers.Signed(m < 0, JsNumbers.Shortest(Doubles.Round(JsNumbers.Magnitude(m))))
    ensures JsNumbers.Magnitude(m) < Doubles.EXACT ==>
              ScvalKey(Scalar(typeName, Number(m))) == ScvalKey(Scalar(typeName, Text(Decimal.ToString(m))))
  {
    hide JsNumbers.NumberText, JsNumbers.Parse, Doubles.Round, JsNumbers.Shortest, ScvalKey;
    ScalarsShare(typeName, Number(m), Number(n));
    ScalarsShare(typeName, Number(m), Text(Decimal.ToString(n)));
    ScalarsShare(typeName, Number(m), Text(Decimal.ToString(m)));
    JsNumbers.NumberTextInjective(m, n);
    JsNumbers.TextIsNumeralIff(m, n);
    if JsNumbers.Magnitude(m) < Doubles.EXACT {
      JsNumbers.SafeIntegersPrintThemselves(m);
    }
  }

  /** 10^21 as a number and as its decimal string: one integer, two keys. */
  lemma ExponentSplits(typeName: string)
    ensures ScvalKey(Scalar(typeName, Number(JsNumbers.EXPONENT_FROM))) == typeName + ":" + "1e+21"
    ensures ScvalKey(Scalar(typeName, Number(JsNumbers.EXPONENT_FROM)))
         != ScvalKey(Scalar(typeName, Text(Decimal.ToString(JsNumbers.EXPONENT_FROM))))
  {
    hide JsNumbers.NumberText, Doubles.Round, JsNumbers.Shortest, JsNumbers.Parse;
    JsNumbers.FirstExponent();
    JsNumbers.BoundIsRound();
    NumbersIdentified(typeName, JsNumbers.EXPONENT_FROM, JsNumbers.EXPONENT_FROM);
  }

  /** 2^53 and 2^53 + 1 as numbers: two integers, one key. */
  lemma RoundingMerges(typeName: string)
    ensures ScvalKey(Scalar(typeName, Number(Doubles.EXACT))) == ScvalKey(Scalar(typeName, Number(Doubles.EXACT + 1)))
  {
    hide JsNumbers.NumberText, Doubles.Round, JsNumbers.Shortest, JsNumbers.Parse, ScvalKey;
    JsNumbers.FirstRounded();
    NumbersIdentified(typeName, Doubles.EXACT, Doubles.EXACT + 1);
  }

  // ----- storageId -----

  datatype Durability = Instance | Persistent | Temporary

  function DurabilityName(d: Durability): string {
    match d
    case Instance => "instance"
    case Persistent => "persistent"
    case Temporary => "temporary"
  }

  function StorageId(contract: string, durability: Durability, key: ScVal): string {
    contract + " " + DurabilityName(durability) + " " + ScvalKey(key)
  }

  /** The contract, the durability's name and the key, a space between them. */
  lemma StorageIdTexts(contract: string, key: ScVal)
    ensures StorageId(contract, Instance, key) == contract + " instance " + ScvalKey(key)
    ensures StorageId(contract, Persistent, key) == contract + " persistent " + ScvalKey(key)
    ensures StorageId(contract, Temporary, key) == contract + " temporary " + ScvalKey(key)
  {
    hide ScvalKey;
    Spaced(contract, "instance", ScvalKey(key), " instance ");
    Spaced(contract, "persistent", ScvalKey(key), " persistent ");
    Spaced(contract, "temporary", ScvalKey(key), " temporary ");
  }

  lemma Spaced(a: string, b: string, c: string, spaced: string)
    requires spaced == " " + b + " "
    ensures a + " " + b + " " + c == a + spaced + c
  {
    assert a + " " + b + " " == a + spaced;
  }

  predicate Hex(s: string) {
    forall k :: 0 <= k < |s| ==> '0' <= s[k] <= '9' || 'a' <= s[k] <= 'f'
  }

  lemma SpaceSplit(m: string, n: string, r: string, q: string)
    requires (forall k :: 0 <= k < |m| ==> m[k] != ' ') && (forall k :: 0 <= k < |n| ==> n[k] != ' ')
    requires m + (" " + r) == n + (" " + q)
    ensures m == n && r == q
  {
    assert (m + (" " + r))[|m|] == ' ' && (n + (" " + q))[|n|] == ' ';
    assert forall k :: 0 <= k < |n| ==> (n + (" " + q))[k] == n[k];
    assert forall k :: 0 <= k < |m| ==> (m + (" " + r))[k] == m[k];
    PartsEqual(m, n, " " + r, " " + q);
    DropClose(" ", r, q);
  }

  lemma StorageIdForm(c: string, d: Durability, k: ScVal)
    ensures StorageId(c, d, k) == c + (" " + (DurabilityName(d) + (" " + ScvalKey(k))))
  {
  }

  lemma DurabilityNamesDiffer(d: Durability, d': Durability)
    ensures DurabilityName(d) == DurabilityName(d') <==> d == d'
    ensures forall k :: 0 <= k < |DurabilityName(d)| ==> DurabilityName(d)[k] != ' '
  {
    assert DurabilityName(d)[0] == DurabilityName(d')[0] <==> d == d';
  }

  /** A storage id names one contract, one durability and one key (up to canonical form). */
  lemma StorageIdSeparates(
    l: Limits, c: string, d: Durability, k: ScVal, c': string, d': Durability, k': ScVal)
    requires Separates(l) && Payloads(l, k) && Payloads(l, k')
    requires Hex(c) && Hex(c')
    ensures StorageId(c, d, k) == StorageId(c', d', k') <==> c == c' && d == d' && Canonical(k) == Canonical(k')
  {
    KeysSeparate(l, k, k');
    StorageIdForm(c, d, k);
    StorageIdForm(c', d', k');
    DurabilityNamesDiffer(d, d');
    DurabilityNamesDiffer(d', d);
    hide ScvalKey, Canonical, Safe, Separates, StorageId, DurabilityName, Payloads;
    var m, n := DurabilityName(d), DurabilityName(d');
    if StorageId(c, d, k) == StorageId(c', d', k') {
      SpaceSplit(c, c', m + (" " + ScvalKey(k)), n + (" " + ScvalKey(k')));
      SpaceSplit(m, n, ScvalKey(k), ScvalKey(k'));
    }
  }

  lemma KeyOfOne(v: ScVal, x: ScVal)
    requires v == Vec([x])
    ensures ScvalKey(v) == "vec[" + ScvalKey(x) + "]"
    ensures Canonical(v) == CVec([Canonical(x)])
  {
    assert KeysOf(v, [x]) == [ScvalKey(x)];
    assert CanonicalItems(v, [x]) == [Canonical(x)];
  }

  lemma KeyOfTwo(v: ScVal, x: ScVal, y: ScVal)
    requires v == Vec([x, y])
    ensures ScvalKey(v) == "vec[" + (ScvalKey(x) + "," + ScvalKey(y)) + "]"
    ensures Canonical(v) == CVec([Canonical(x), Canonical(y)])
  {
    assert KeysOf(v, [x, y]) == [ScvalKey(x), ScvalKey(y)];
    assert CanonicalItems(v, [x, y]) == [Canonical(x), Canonical(y)];
    assert Join([ScvalKey(x), ScvalKey(y)]) == ScvalKey(x) + "," + Join([ScvalKey(y)]);
  }
}
