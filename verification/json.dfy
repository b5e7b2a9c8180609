/**
  Parsed JSON values as the translation tool sees them after `JSON.parse`.

  An object is an insertion-ordered list of (key, value) members: that is the
  order `for ... in`, `Object.entries` and `JSON.stringify` report for the
  string keys of a catalog. Reading a key returns the value of its first
  member and writing a key replaces that member in place, or appends a new
  member when the key is absent, which is what a JavaScript property
  assignment does. Objects produced by `JSON.parse` never repeat a key;
  `WellFormed` states that, and the lemmas that need it ask for it.

  Every JSON value that is not an object (null, booleans, numbers, strings
  and arrays) is a leaf: none of the tool's algorithms descends into arrays.
  Only a top-level `for ... in` and a property read on a catalog value see
  the indices of an array or a string (`ForIn`, `Prop`).
 */
module JsonTree {
  import opened Text

  datatype Option<T> = None | Some(value: T)

  datatype Json =
    | Null
    | Bool(b: bool)
    | Num(n: int)
    | Str(s: string)
    | Arr(items: seq<Json>)
    | Obj(fields: seq<(string, Json)>)

  type Fields = seq<(string, Json)>

  // ---------------------------------------------------------------------------
  // Members of an object
  // ---------------------------------------------------------------------------

  /** The keys of an object, in member order. */
  function Keys(fs: Fields): (ks: seq<string>)
    ensures |ks| == |fs|
    ensures forall i :: 0 <= i < |fs| ==> ks[i] == fs[i].0
  {
    if |fs| == 0 then [] else [fs[0].0] + Keys(fs[1..])
  }

  /** Member `i` is the first one whose key is `k`. */
  predicate FirstAt(fs: Fields, k: string, i: nat) {
    i < |fs| && fs[i].0 == k && forall j :: 0 <= j < i ==> fs[j].0 != k
  }

  /** `obj[k]` restricted to own keys: the value of the first member named `k`. */
  function Get(fs: Fields, k: string): (r: Option<Json>)
    ensures r.None? <==> k !in Keys(fs)
    ensures r.Some? ==> exists i: nat :: FirstAt(fs, k, i) && fs[i].1 == r.value
  {
    if |fs| == 0 then None
    else if fs[0].0 == k then
      assert FirstAt(fs, k, 0);
      Some(fs[0].1)
    else
      var r := Get(fs[1..], k);
      if r.Some? then
        var i: nat :| FirstAt(fs[1..], k, i) && fs[1..][i].1 == r.value;
        assert FirstAt(fs, k, i + 1);
        r
      else r
  }

  /** `obj[k] = v`: overwrite the member named `k` where it stands, or append one. */
  function Put(fs: Fields, k: string, v: Json): (r: Fields)
    ensures Keys(r) == if k in Keys(fs) then Keys(fs) else Keys(fs) + [k]
  {
    if |fs| == 0 then [(k, v)]
    else if fs[0].0 == k then [(k, v)] + fs[1..]
    else [fs[0]] + Put(fs[1..], k, v)
  }

  /** After `obj[k] = v`, reading `k` gives `v` and every other key reads as before. */
  lemma GetPut(fs: Fields, k: string, v: Json)
    ensures Get(Put(fs, k, v), k) == Some(v)
    ensures forall k' :: k' != k ==> Get(Put(fs, k, v), k') == Get(fs, k')
  {
    GetPutSame(fs, k, v);
    forall k' | k' != k
      ensures Get(Put(fs, k, v), k') == Get(fs, k')
    {
      GetPutOther(fs, k, v, k');
    }
  }

  lemma {:induction false} GetPutSame(fs: Fields, k: string, v: Json)
    ensures Get(Put(fs, k, v), k) == Some(v)
  {
    if |fs| > 0 && fs[0].0 != k {
      GetPutSame(fs[1..], k, v);
      assert Put(fs, k, v)[1..] == Put(fs[1..], k, v);
    }
  }

  lemma {:induction false} GetPutOther(fs: Fields, k: string, v: Json, k': string)
    requires k' != k
    ensures Get(Put(fs, k, v), k') == Get(fs, k')
  {
    if |fs| > 0 {
      var r := Put(fs, k, v);
      if fs[0].0 == k {
        assert r[1..] == fs[1..];
      } else {
        GetPutOther(fs[1..], k, v, k');
        assert r[0] == fs[0] && r[1..] == Put(fs[1..], k, v);
      }
    }
  }

  /** Appending a member under a fresh key is the same as assigning it. */
  lemma {:induction false} PutFresh(fs: Fields, k: string, v: Json)
    requires k !in Keys(fs)
    ensures Put(fs, k, v) == fs + [(k, v)]
  {
    if |fs| > 0 {
      assert Keys(fs) == [fs[0].0] + Keys(fs[1..]);
      PutFresh(fs[1..], k, v);
      assert Put(fs, k, v) == [fs[0]] + Put(fs[1..], k, v);
      assert fs + [(k, v)] == [fs[0]] + (fs[1..] + [(k, v)]);
    }
  }

  /** Writing back the value a key already holds changes nothing. */
  lemma {:induction false} PutSame(fs: Fields, k: string)
    requires k in Keys(fs)
    ensures Put(fs, k, Get(fs, k).value) == fs
  {
    if fs[0].0 != k {
      assert Keys(fs) == [fs[0].0] + Keys(fs[1..]);
      PutSame(fs[1..], k);
    }
  }

  /** No two members share a key. */
  predicate UniqueKeys(fs: Fields) {
    forall i, j :: 0 <= i < j < |fs| ==> fs[i].0 != fs[j].0
  }

  /** Every object reachable through object members has distinct keys, as any
      value produced by `JSON.parse` does. */
  predicate WellFormed(j: Json) {
    match j
    case Obj(fs) => UniqueKeys(fs) && forall i :: 0 <= i < |fs| ==> WellFormed(fs[i].1)
    case _ => true
  }

  /** With distinct keys, reading the key of member `i` yields that member's value. */
  lemma GetUnique(fs: Fields, i: nat)
    requires UniqueKeys(fs) && i < |fs|
    ensures Get(fs, fs[i].0) == Some(fs[i].1)
  {
    var j: nat :| FirstAt(fs, fs[i].0, j) && fs[j].1 == Get(fs, fs[i].0).value;
  }

  lemma UniqueTail(fs: Fields)
    requires UniqueKeys(fs) && |fs| > 0
    ensures UniqueKeys(fs[1..]) && fs[0].0 !in Keys(fs[1..])
  {
  }

  /** The members of an object node; a leaf is read as the empty object `{}`. */
  function AsFields(j: Json): Fields {
    if j.Obj? then j.fields else []
  }

  /** The pairs `for (const key in v)` visits with `v[key]`, and that
      `Object.entries`, `Object.keys` and `Object.values` list: the members
      of an object, the indices of an array or a string, nothing for `null`,
      booleans and numbers (`Object.keys` throws on `null`; callers model
      that themselves). */
  function ForIn(v: Json): Fields {
    match v
    case Obj(fs) => fs
    case Arr(items) => seq(|items|, i requires 0 <= i < |items| => (Decimal(i), items[i]))
    case Str(s) => seq(|s|, i requires 0 <= i < |s| => (Decimal(i), Str([s[i]])))
    case _ => []
  }

  /** A canonical array index: decimal digits without a leading zero. */
  predicate IsIndex(name: string) {
    |name| > 0 && AllDigits(name) && (|name| == 1 || name[0] != '0')
  }

  /** `v[name]` on a non-null value, own properties only; `None` is
      `undefined`. */
  function Prop(v: Json, name: string): Option<Json> {
    match v
    case Obj(fs) => Get(fs, name)
    case Arr(items) =>
      if name == "length" then Some(Num(|items|))
      else if IsIndex(name) && ParseDecimal(name) < |items| then Some(items[ParseDecimal(name)])
      else None
    case Str(s) =>
      if name == "length" then Some(Num(|s|))
      else if IsIndex(name) && ParseDecimal(name) < |s| then Some(Str([s[ParseDecimal(name)]]))
      else None
    case _ => None
  }

  /** Reading back a key `for ... in` visits yields the value visited with it. */
  lemma ForInProp(v: Json, i: nat)
    requires v.Obj? ==> UniqueKeys(v.fields)
    requires i < |ForIn(v)|
    ensures Prop(v, ForIn(v)[i].0) == Some(ForIn(v)[i].1)
  {
    match v
    case Obj(fs) => GetUnique(fs, i);
    case Arr(items) =>
      DecimalRoundTrip(i);
      assert Decimal(i)[0] != 'l';
    case Str(s) =>
      DecimalRoundTrip(i);
      assert Decimal(i)[0] != 'l';
  }

  /** The keys of `ks` that are not in `seen` and not repeated, in order of
      first appearance. */
  function Fresh(ks: seq<string>, seen: seq<string>): seq<string> {
    if |ks| == 0 then []
    else if ks[0] in seen then Fresh(ks[1..], seen)
    else [ks[0]] + Fresh(ks[1..], seen + [ks[0]])
  }

  /** The fresh keys are the keys of `ks` outside `seen`. */
  lemma {:induction false} FreshMembers(ks: seq<string>, seen: seq<string>)
    ensures forall x :: x in Fresh(ks, seen) <==> x in ks && x !in seen
    decreases |ks|
  {
    if |ks| > 0 {
      assert forall x :: x in ks <==> x == ks[0] || x in ks[1..];
      if ks[0] in seen {
        FreshMembers(ks[1..], seen);
      } else {
        FreshMembers(ks[1..], seen + [ks[0]]);
      }
    }
  }

  // ---------------------------------------------------------------------------
  // Key paths
  // ---------------------------------------------------------------------------

  /** The value at a key path, reached by descending through object members
      only; `None` when some step finds no object or no such key. */
  function Resolve(j: Json, p: seq<string>): (r: Option<Json>)
    ensures |p| > 0 && r.Some? ==> j.Obj?
    decreases p
  {
    if |p| == 0 then Some(j)
    else if !j.Obj? then None
    else
      match Get(j.fields, p[0])
      case None => None
      case Some(c) => Resolve(c, p[1..])
  }

  /** One step of `Resolve` into an object. */
  lemma ResolveObj(fs: Fields, p: seq<string>)
    requires |p| > 0
    ensures Resolve(Obj(fs), p) == match Get(fs, p[0]) case None => None case Some(c) => Resolve(c, p[1..])
  {
  }

  // ---------------------------------------------------------------------------
  // A size measure for recursion over members
  // ---------------------------------------------------------------------------

  function Sum(ns: seq<nat>): nat {
    if |ns| == 0 then 0 else ns[0] + Sum(ns[1..])
  }

  function Size(j: Json): nat {
    match j
    case Obj(fs) => 1 + Sum(seq(|fs|, i requires 0 <= i < |fs| => Size(fs[i].1)))
    case _ => 1
  }

  function FieldsSize(fs: Fields): (n: nat)
    ensures |fs| > 0 ==> n == Size(fs[0].1) + FieldsSize(fs[1..])
    ensures Size(Obj(fs)) == 1 + n
  {
    var ns := seq(|fs|, i requires 0 <= i < |fs| => Size(fs[i].1));
    if |fs| > 0 then
      assert ns[1..] == seq(|fs| - 1, i requires 0 <= i < |fs| - 1 => Size(fs[1..][i].1));
      Sum(ns)
    else Sum(ns)
  }

  // ---------------------------------------------------------------------------
  // JavaScript conversions
  // ---------------------------------------------------------------------------

  /** JavaScript truthiness of a property read; an absent property is `undefined`. */
  predicate Truthy(v: Option<Json>) {
    match v
    case None => false
    case Some(Null) => false
    case Some(Bool(b)) => b
    case Some(Num(n)) => n != 0
    case Some(Str(s)) => |s| > 0
    case Some(_) => true
  }

  /** `String(v)` of a property read (an absent property is `undefined`). */
  function ToText(v: Option<Json>): string {
    match v
    case None => "undefined"
    case Some(j) => ValueText(j)
  }

  function ValueText(j: Json): string {
    match j
    case Null => "null"
    case Bool(b) => if b then "true" else "false"
    case Num(n) => IntText(n)
    case Str(s) => s
    case Obj(_) => "[object Object]"
    case Arr(items) =>
      // Array.prototype.join: null elements print as the empty string
      CommaJoin(seq(|items|, i requires 0 <= i < |items| =>
        if items[i].Null? then "" else ValueText(items[i])))
  }

  function CommaJoin(parts: seq<string>): string {
    if |parts| == 0 then "" else Join(parts, ',')
  }
}
