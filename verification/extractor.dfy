/**
  The locale extractor (src/Extractor.tsx). Loading a catalog collects every
  locale name that appears under any key, sorted and without repetitions,
  and preselects the first. Extracting keeps, for every key whose value has a
  truthy text in the selected locale, an object holding only that locale.

  Object.values / Object.keys throw on `null`, and so does reading the
  selected locale of a `null` value; such a file yields `None` here.
 */
module Extractor {
  import opened Text
  import opened JsonTree
  import opened Seqs

  // ---------------------------------------------------------------------------
  // Available locales
  // ---------------------------------------------------------------------------

  /** `Object.keys(entry)` for every value, in order; `None` when a value is
      `null`. */
  function Gather(es: Fields): (r: Option<seq<string>>)
    ensures r.None? <==> exists i :: 0 <= i < |es| && es[i].1.Null?
    ensures r.Some? ==> forall l :: l in r.value <==> exists i :: 0 <= i < |es| && l in Keys(ForIn(es[i].1))
  {
    if |es| == 0 then Some([])
    else
      assert forall i :: 1 <= i < |es| ==> es[1..][i - 1] == es[i];
      if es[0].1.Null? then None
      else match Gather(es[1..])
        case None => None
        case Some(rest) => Some(Keys(ForIn(es[0].1)) + rest)
  }

  /** The locale names in the order `localesSet` first meets them; `None` when
      `Object.values` or `Object.keys` throws. */
  function LocaleSources(original: Json): Option<seq<string>> {
    if original.Null? then None else Gather(ForIn(original))
  }

  predicate StrictlySorted(xs: seq<string>) {
    forall i, j :: 0 <= i < j < |xs| ==> Less(xs[i], xs[j])
  }

  /** Adds `x` to a sorted list of distinct names. */
  function Insert(xs: seq<string>, x: string): (r: seq<string>)
    requires StrictlySorted(xs)
    ensures StrictlySorted(r)
    ensures forall y :: y in r <==> y in xs || y == x
  {
    if |xs| == 0 then [x]
    else if x == xs[0] then xs
    else if Less(x, xs[0]) then
      assert forall j :: 0 <= j < |xs| ==> Less(x, xs[j]) by {
        forall j | 0 <= j < |xs|
          ensures Less(x, xs[j])
        {
          if j > 0 {
            LessTransitive(x, xs[0], xs[j]);
          }
        }
      }
      [x] + xs
    else
      LessTotal(x, xs[0]);
      var rest := Insert(xs[1..], x);
      assert forall y :: y in rest ==> Less(xs[0], y);
      [xs[0]] + rest
  }

  /** `Array.from(localesSet).sort()` */
  function SortUnique(ks: seq<string>): (r: seq<string>)
    ensures StrictlySorted(r)
    ensures forall y :: y in r <==> y in ks
    decreases |ks|
  {
    if |ks| == 0 then []
    else
      var init := ks[..|ks| - 1];
      assert forall y :: y in ks <==> y in init || y == ks[|ks| - 1];
      Insert(SortUnique(init), ks[|ks| - 1])
  }

  /** The names in the locale selector. */
  function Locales(original: Json): (r: Option<seq<string>>)
    ensures r.None? <==> original.Null? || exists i :: 0 <= i < |ForIn(original)| && ForIn(original)[i].1.Null?
    ensures r.Some? ==> StrictlySorted(r.value)
    ensures r.Some? ==> forall l :: l in r.value <==>
              exists i :: 0 <= i < |ForIn(original)| && l in Keys(ForIn(ForIn(original)[i].1))
  {
    match LocaleSources(original)
    case None => None
    case Some(ks) => Some(SortUnique(ks))
  }

  lemma HeadIsMember(s: seq<string>)
    ensures |s| > 0 ==> s[0] in s
  {
  }

  /** A strictly sorted list is determined by its elements. */
  lemma {:induction false} SortedUnique(a: seq<string>, b: seq<string>)
    requires StrictlySorted(a) && StrictlySorted(b)
    requires forall y :: y in a <==> y in b
    ensures a == b
    decreases |a|
  {
    if |a| == 0 {
      HeadIsMember(b);
    } else {
      assert a[0] in b && b[0] in a;
      if a[0] != b[0] {
        var i :| 0 <= i < |a| && a[i] == b[0];
        var j :| 0 <= j < |b| && b[j] == a[0];
        assert i > 0 && j > 0;
        LessAsymmetric(a[0], a[i]);
      }
      assert a[0] == b[0];
      forall y
        ensures y in a[1..] <==> y in b[1..]
      {
        LessIrreflexive(y);
        if y in a[1..] {
          var i :| 1 <= i < |a| && a[i] == y;
          assert y in a;
          var j :| 0 <= j < |b| && b[j] == y;
          assert j != 0;
          assert b[1..][j - 1] == y;
        }
        if y in b[1..] {
          var j :| 1 <= j < |b| && b[j] == y;
          assert y in b;
          var i :| 0 <= i < |a| && a[i] == y;
          assert i != 0;
          assert a[1..][i - 1] == y;
        }
      }
      SortedUnique(a[1..], b[1..]);
      assert a == [a[0]] + a[1..] && b == [b[0]] + b[1..];
    }
  }

  /** The selector shows the one sorted, repetition-free list of the locales
      the catalog uses, whatever order the file lists them in. */
  lemma LocalesCanonical(original: Json, xs: seq<string>)
    requires Locales(original).Some?
    requires StrictlySorted(xs)
    requires forall l :: l in xs <==> l in Locales(original).value
    ensures Locales(original) == Some(xs)
  {
    SortedUnique(Locales(original).value, xs);
  }

  /** `setSelectedLocale(locales[0])`; `None` is `undefined`. */
  function DefaultLocale(locales: seq<string>): (r: Option<string>)
    requires StrictlySorted(locales)
    ensures r.None? <==> |locales| == 0
    ensures r.Some? ==> r.value in locales && forall l :: l in locales && l != r.value ==> Less(r.value, l)
  {
    if |locales| == 0 then None else Some(locales[0])
  }

  // ---------------------------------------------------------------------------
  // Extraction
  // ---------------------------------------------------------------------------

  /** `{ [selectedLocale]: original[key][selectedLocale] }` */
  function Single(sel: string, v: Json): Json {
    Obj([(sel, v)])
  }

  /** Pair `p` is what the loop writes for some entry of `es` whose text in
      `sel` is truthy. */
  predicate GivesPair(es: Fields, sel: string, p: (string, Json)) {
    exists i :: 0 <= i < |es| && Truthy(Prop(es[i].1, sel))
                && p == (es[i].0, Single(sel, Prop(es[i].1, sel).value))
  }

  lemma GivesPairTail(es: Fields, sel: string, p: (string, Json))
    requires |es| > 0 && GivesPair(es[1..], sel, p)
    ensures GivesPair(es, sel, p)
  {
    var i :| 0 <= i < |es[1..]| && Truthy(Prop(es[1..][i].1, sel))
              && p == (es[1..][i].0, Single(sel, Prop(es[1..][i].1, sel).value));
    assert es[1..][i] == es[i + 1];
  }

  /** The loop over `key in original`; `None` when a value is `null`. */
  function ExtractPairs(es: Fields, sel: string): (r: Option<Fields>)
    ensures r.None? <==> exists i :: 0 <= i < |es| && es[i].1.Null?
    ensures r.Some? ==> Subseq(Keys(r.value), Keys(es))
  {
    if |es| == 0 then Some([])
    else
      assert forall i :: 1 <= i < |es| ==> es[1..][i - 1] == es[i];
      assert Keys(es)[1..] == Keys(es[1..]);
      if es[0].1.Null? then None
      else match ExtractPairs(es[1..], sel)
        case None => None
        case Some(rest) =>
          var v := Prop(es[0].1, sel);
          if Truthy(v) then
            var r := [(es[0].0, Single(sel, v.value))] + rest;
            assert Keys(r)[0] == Keys(es)[0] && Keys(r)[1..] == Keys(rest);
            Some(r)
          else
            Some(rest)
  }

  /** Every extracted pair holds, under the key of an entry whose text in the
      selected locale is truthy, an object with that text alone. */
  lemma {:induction false} ExtractSound(es: Fields, sel: string, p: (string, Json))
    requires ExtractPairs(es, sel).Some? && p in ExtractPairs(es, sel).value
    ensures GivesPair(es, sel, p)
    decreases |es|
  {
    var v := Prop(es[0].1, sel);
    var rest := ExtractPairs(es[1..], sel).value;
    if Truthy(v) && p == (es[0].0, Single(sel, v.value)) {
      assert GivesPair(es, sel, p) by {
        assert 0 < |es| && Truthy(Prop(es[0].1, sel));
      }
    } else {
      assert p in rest;
      ExtractSound(es[1..], sel, p);
      GivesPairTail(es, sel, p);
    }
  }

  /** Every entry whose text in the selected locale is truthy is extracted. */
  lemma {:induction false} ExtractComplete(es: Fields, sel: string, i: nat)
    requires ExtractPairs(es, sel).Some? && i < |es| && Truthy(Prop(es[i].1, sel))
    ensures (es[i].0, Single(sel, Prop(es[i].1, sel).value)) in ExtractPairs(es, sel).value
    decreases |es|
  {
    if i > 0 {
      assert es[1..][i - 1] == es[i];
      ExtractComplete(es[1..], sel, i - 1);
    }
  }

  /** `extractLocale`: nothing happens without a file or a (truthy) selected
      locale; otherwise the extracted catalog, or `None` when reading throws. */
  function Extract(file: Option<Json>, selected: Option<string>): (r: Option<Fields>)
    ensures file.None? || selected.None? || selected == Some("") ==> r.None?
  {
    match (file, selected)
    case (Some(original), Some(sel)) =>
      if sel == "" then None else ExtractPairs(ForIn(original), sel)
    case _ => None
  }

  /** With distinct keys, a key is extracted exactly when its text in the
      selected locale is truthy. */
  lemma ExtractedIff(es: Fields, sel: string, i: nat)
    requires UniqueKeys(es) && i < |es|
    requires ExtractPairs(es, sel).Some?
    ensures es[i].0 in Keys(ExtractPairs(es, sel).value) <==> Truthy(Prop(es[i].1, sel))
  {
    var r := ExtractPairs(es, sel).value;
    if es[i].0 in Keys(r) {
      var m :| 0 <= m < |r| && Keys(r)[m] == es[i].0;
      ExtractSound(es, sel, r[m]);
      var j :| 0 <= j < |es| && Truthy(Prop(es[j].1, sel)) && r[m] == (es[j].0, Single(sel, Prop(es[j].1, sel).value));
      assert es[j].0 == es[i].0;
      assert j == i;
    }
    if Truthy(Prop(es[i].1, sel)) {
      var p := (es[i].0, Single(sel, Prop(es[i].1, sel).value));
      ExtractComplete(es, sel, i);
      var m :| 0 <= m < |r| && r[m] == p;
      assert Keys(r)[m] == es[i].0;
    }
  }

  /** Extracting the same locale again from an extracted catalog gives it
      back unchanged. */
  lemma {:induction false} ExtractIdempotent(es: Fields, sel: string)
    requires ExtractPairs(es, sel).Some?
    ensures ExtractPairs(ExtractPairs(es, sel).value, sel) == ExtractPairs(es, sel)
    decreases |es|
  {
    if |es| > 0 {
      assert forall i :: 1 <= i < |es| ==> es[1..][i - 1] == es[i];
      ExtractIdempotent(es[1..], sel);
      var rest := ExtractPairs(es[1..], sel).value;
      var v := Prop(es[0].1, sel);
      if Truthy(v) {
        var r := [(es[0].0, Single(sel, v.value))] + rest;
        assert r[1..] == rest;
        assert Prop(Single(sel, v.value), sel) == v;
        assert !r[0].1.Null?;
      }
    }
  }

  /** An extracted catalog that is not empty offers exactly the selected
      locale when it is loaded again. */
  lemma ExtractedLocales(es: Fields, sel: string)
    requires ExtractPairs(es, sel).Some? && |ExtractPairs(es, sel).value| > 0
    ensures Locales(Obj(ExtractPairs(es, sel).value)) == Some([sel])
  {
    var r := ExtractPairs(es, sel).value;
    var loc := Locales(Obj(r));
    assert !Obj(r).Null?;
    forall i | 0 <= i < |r|
      ensures !r[i].1.Null? && Keys(ForIn(r[i].1)) == [sel]
    {
      ExtractSound(es, sel, r[i]);
    }
    assert loc.Some?;
    forall l
      ensures l in loc.value <==> l in [sel]
    {
      assert Keys(ForIn(r[0].1)) == [sel];
    }
    SortedUnique(loc.value, [sel]);
  }
}
