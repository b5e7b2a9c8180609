/**
  The survey merger (src/SurveyMergeJSON.tsx): a list of selected files is
  folded, in order, into one catalog `key -> {locale: text}`. Every merge
  starts from the empty catalog. A file that fails to parse is skipped and
  not counted. For each `key in json` whose value is a non-null, non-array
  object, the catalog entry becomes `{ ...previous, ...value }`: locales of
  later files override earlier ones, new locales are appended, and a key
  keeps the position where it first appeared.

  A file is `None` when reading or parsing it failed, `Some(json)` otherwise.
  Its pairs are those `for (const key in json)` visits (`ForIn`); a string
  top level yields one-character strings, none of which is an object, so it
  adds nothing, like `null`, booleans and numbers.
 */
module SurveyMerge {
  import opened Text
  import opened JsonTree

  /** The merged catalog and `filesProcessed`. */
  datatype Merged = Merged(data: Fields, processed: nat)

  /** `{ ...prior, ...value }` */
  function Spread(prior: Fields, value: Fields): Fields
    decreases |value|
  {
    if |value| == 0 then prior
    else Put(Spread(prior, value[..|value| - 1]), value[|value| - 1].0, value[|value| - 1].1)
  }

  /** `tempData[key]`, with `{}` put in place when it is missing. */
  function Prior(acc: Fields, k: string): Fields {
    match Get(acc, k)
    case None => []
    case Some(p) => AsFields(p)
  }

  /** One pass of the inner loop. */
  function MergeEntry(acc: Fields, e: (string, Json)): Fields {
    if e.1.Obj? then Put(acc, e.0, Obj(Spread(Prior(acc, e.0), e.1.fields))) else acc
  }

  /** The inner loop over the pairs of one file. */
  function MergeEntries(acc: Fields, es: Fields): Fields
    decreases |es|
  {
    if |es| == 0 then acc
    else MergeEntry(MergeEntries(acc, es[..|es| - 1]), es[|es| - 1])
  }

  /** `mergeSelectedFiles`: the outer loop, from the empty catalog. */
  function MergeFiles(files: seq<Option<Json>>): (r: Merged)
    ensures r.processed <= |files|
    decreases |files|
  {
    if |files| == 0 then Merged([], 0)
    else
      var prev := MergeFiles(files[..|files| - 1]);
      match files[|files| - 1]
      case None => prev
      case Some(j) => Merged(MergeEntries(prev.data, ForIn(j)), prev.processed + 1)
  }

  // ---------------------------------------------------------------------------
  // Reference reading: the pairs of all parsed files, in order
  // ---------------------------------------------------------------------------

  /** The pairs of every file that parsed, file after file. */
  function AllEntries(files: seq<Option<Json>>): Fields
    decreases |files|
  {
    if |files| == 0 then []
    else
      AllEntries(files[..|files| - 1])
      + match files[|files| - 1] case None => [] case Some(j) => ForIn(j)
  }

  /** The keys whose value is an object, in order, with repetitions. */
  function ObjectKeys(es: Fields): (r: seq<string>)
    ensures forall k :: k in r <==> exists i :: 0 <= i < |es| && es[i].0 == k && es[i].1.Obj?
    decreases |es|
  {
    if |es| == 0 then []
    else
      var init := es[..|es| - 1];
      var r := ObjectKeys(init) + if es[|es| - 1].1.Obj? then [es[|es| - 1].0] else [];
      assert forall i :: 0 <= i < |init| ==> init[i] == es[i];
      r
  }

  /** The value of the last member named `l`. */
  function LastGet(fs: Fields, l: string): (r: Option<Json>)
    ensures r.None? <==> forall i :: 0 <= i < |fs| ==> fs[i].0 != l
    decreases |fs|
  {
    if |fs| == 0 then None
    else if fs[|fs| - 1].0 == l then Some(fs[|fs| - 1].1)
    else
      var init := fs[..|fs| - 1];
      assert forall i :: 0 <= i < |init| ==> init[i] == fs[i];
      LastGet(init, l)
  }

  /** The text for `(k, l)` given by the last pair that mentions it. */
  function EntriesLocale(es: Fields, k: string, l: string): (r: Option<Json>)
    ensures r.None? <==> forall i :: 0 <= i < |es| && es[i].0 == k && es[i].1.Obj? ==> LastGet(es[i].1.fields, l).None?
    decreases |es|
  {
    if |es| == 0 then None
    else
      var e := es[|es| - 1];
      if e.0 == k && e.1.Obj? && LastGet(e.1.fields, l).Some? then LastGet(e.1.fields, l)
      else
        var init := es[..|es| - 1];
        assert forall i :: 0 <= i < |init| ==> init[i] == es[i];
        EntriesLocale(init, k, l)
  }

  /** `data[k][l]` of a merged catalog. */
  function Lookup(data: Fields, k: string, l: string): Option<Json> {
    match Get(data, k)
    case None => None
    case Some(p) => Get(AsFields(p), l)
  }

  // ---------------------------------------------------------------------------
  // Sequence and key-order facts
  // ---------------------------------------------------------------------------

  lemma {:induction false} KeysSnoc(fs: Fields)
    requires |fs| > 0
    ensures Keys(fs) == Keys(fs[..|fs| - 1]) + [fs[|fs| - 1].0]
  {
    var init := fs[..|fs| - 1];
    var r := Keys(init) + [fs[|fs| - 1].0];
    forall i | 0 <= i < |fs|
      ensures Keys(fs)[i] == r[i]
    {
      if i < |init| {
        assert r[i] == Keys(init)[i] == init[i].0;
      }
    }
  }

  /** `Fresh` depends on the seen keys only through membership. */
  lemma {:induction false} FreshSameSeen(ks: seq<string>, s1: seq<string>, s2: seq<string>)
    requires forall x :: x in s1 <==> x in s2
    ensures Fresh(ks, s1) == Fresh(ks, s2)
    decreases |ks|
  {
    if |ks| > 0 {
      FreshSameSeen(ks[1..], s1 + [ks[0]], s2 + [ks[0]]);
      FreshSameSeen(ks[1..], s1, s2);
    }
  }

  /** Appending a key to `ks` appends it to the fresh keys when it is new. */
  lemma {:induction false} FreshSnoc(ks: seq<string>, seen: seq<string>, x: string)
    ensures Fresh(ks + [x], seen) == Fresh(ks, seen) + (if x in seen || x in ks then [] else [x])
    decreases |ks|
  {
    if |ks| == 0 {
      assert [] + [x] == [x];
      assert [x][1..] == [];
    } else {
      var a := ks[0];
      var rest := ks[1..];
      assert (ks + [x])[0] == a && (ks + [x])[1..] == rest + [x];
      assert x in ks <==> x == a || x in rest;
      if a in seen {
        FreshSnoc(rest, seen, x);
      } else {
        FreshSnoc(rest, seen + [a], x);
      }
    }
  }

  /** `Fresh` on a list with a known first key. */
  lemma FreshCons(x: string, t: seq<string>, seen: seq<string>)
    ensures Fresh([x] + t, seen) == if x in seen then Fresh(t, seen) else [x] + Fresh(t, seen + [x])
  {
    assert ([x] + t)[0] == x && ([x] + t)[1..] == t;
  }

  /** The fresh keys of `a + b` are those of `a`, then those of `b` that
      neither `seen` nor `a` already gave. */
  predicate FreshSplits(a: seq<string>, b: seq<string>, seen: seq<string>) {
    Fresh(a + b, seen) == Fresh(a, seen) + Fresh(b, seen + Fresh(a, seen))
  }

  /** A first key already seen adds nothing in front. */
  lemma FreshSplitsSeen(x: string, t: seq<string>, b: seq<string>, seen: seq<string>)
    requires x in seen && FreshSplits(t, b, seen)
    ensures FreshSplits([x] + t, b, seen)
  {
    assert ([x] + t) + b == [x] + (t + b);
    FreshCons(x, t + b, seen);
    FreshCons(x, t, seen);
  }

  /** A new first key is put in front and joins the seen keys. */
  lemma FreshSplitsNew(x: string, t: seq<string>, b: seq<string>, seen: seq<string>)
    requires x !in seen && FreshSplits(t, b, seen + [x])
    ensures FreshSplits([x] + t, b, seen)
  {
    var s1 := seen + [x];
    assert ([x] + t) + b == [x] + (t + b);
    FreshCons(x, t + b, seen);
    FreshCons(x, t, seen);
    assert seen + ([x] + Fresh(t, s1)) == s1 + Fresh(t, s1);
  }

  /** Fresh keys of a concatenation. */
  lemma {:induction false} FreshConcat(a: seq<string>, b: seq<string>, seen: seq<string>)
    ensures Fresh(a + b, seen) == Fresh(a, seen) + Fresh(b, seen + Fresh(a, seen))
    decreases |a|
  {
    if |a| == 0 {
      assert a + b == b && seen + [] == seen;
    } else {
      assert a == [a[0]] + a[1..];
      if a[0] in seen {
        FreshConcat(a[1..], b, seen);
        FreshSplitsSeen(a[0], a[1..], b, seen);
      } else {
        FreshConcat(a[1..], b, seen + [a[0]]);
        FreshSplitsNew(a[0], a[1..], b, seen);
      }
    }
  }

  // ---------------------------------------------------------------------------
  // The spread
  // ---------------------------------------------------------------------------

  /** After `{ ...prior, ...value }`, a locale reads its last value in `value`
      when it has one there, and its value in `prior` otherwise. */
  lemma {:induction false} SpreadGet(prior: Fields, value: Fields, l: string)
    ensures Get(Spread(prior, value), l)
         == if LastGet(value, l).Some? then LastGet(value, l) else Get(prior, l)
    decreases |value|
  {
    if |value| > 0 {
      var init := value[..|value| - 1];
      SpreadGet(prior, init, l);
      GetPut(Spread(prior, init), value[|value| - 1].0, value[|value| - 1].1);
    }
  }

  /** Adding key `x` after the keys `prior + Fresh(init, prior)` gives the
      keys `prior + Fresh(init + [x], prior)`. */
  lemma FreshKeysSnoc(prior: seq<string>, init: seq<string>, x: string, before: seq<string>)
    requires before == prior + Fresh(init, prior)
    ensures (if x in before then before else before + [x]) == prior + Fresh(init + [x], prior)
  {
    FreshSnoc(init, prior, x);
    FreshMembers(init, prior);
    assert x in before <==> x in prior || x in Fresh(init, prior);
  }

  /** The spread keeps the prior locales in place and appends new ones in
      order of first appearance. */
  lemma {:induction false} SpreadKeys(prior: Fields, value: Fields)
    ensures Keys(Spread(prior, value)) == Keys(prior) + Fresh(Keys(value), Keys(prior))
    decreases |value|
  {
    if |value| > 0 {
      var init := value[..|value| - 1];
      var x := value[|value| - 1].0;
      var before := Spread(prior, init);
      SpreadKeys(prior, init);
      KeysSnoc(value);
      FreshKeysSnoc(Keys(prior), Keys(init), x, Keys(before));
    }
  }

  // ---------------------------------------------------------------------------
  // The fold over pairs
  // ---------------------------------------------------------------------------

  /** Merging two runs of pairs one after the other is merging their
      concatenation. */
  lemma {:induction false} MergeEntriesConcat(acc: Fields, a: Fields, b: Fields)
    ensures MergeEntries(acc, a + b) == MergeEntries(MergeEntries(acc, a), b)
    decreases |b|
  {
    if |b| == 0 {
      assert a + b == a;
    } else {
      assert (a + b)[..|a + b| - 1] == a + b[..|b| - 1];
      assert (a + b)[|a + b| - 1] == b[|b| - 1];
      MergeEntriesConcat(acc, a, b[..|b| - 1]);
    }
  }

  /** The catalog keys: the previous ones in place, then every key first given
      an object value, in order of first appearance. */
  lemma {:induction false} EntriesKeys(acc: Fields, es: Fields)
    ensures Keys(MergeEntries(acc, es)) == Keys(acc) + Fresh(ObjectKeys(es), Keys(acc))
    decreases |es|
  {
    if |es| > 0 {
      var init := es[..|es| - 1];
      var e := es[|es| - 1];
      EntriesKeys(acc, init);
      if e.1.Obj? {
        FreshSnoc(ObjectKeys(init), Keys(acc), e.0);
        FreshMembers(ObjectKeys(init), Keys(acc));
      } else {
        assert ObjectKeys(es) == ObjectKeys(init) + [] == ObjectKeys(init);
        assert MergeEntries(acc, es) == MergeEntries(acc, init);
      }
    }
  }

  /** A locale of a key reads the last text any pair gave it, or what the
      previous catalog held. */
  lemma {:induction false} EntriesLookup(acc: Fields, es: Fields, k: string, l: string)
    ensures Lookup(MergeEntries(acc, es), k, l)
         == if EntriesLocale(es, k, l).Some? then EntriesLocale(es, k, l) else Lookup(acc, k, l)
    decreases |es|
  {
    if |es| > 0 {
      var init := es[..|es| - 1];
      var e := es[|es| - 1];
      var before := MergeEntries(acc, init);
      EntriesLookup(acc, init, k, l);
      if e.1.Obj? {
        var spread := Spread(Prior(before, e.0), e.1.fields);
        GetPut(before, e.0, Obj(spread));
        if e.0 == k {
          SpreadGet(Prior(before, k), e.1.fields, l);
        }
      }
    }
  }

  /** The locales given to key `k`, pair after pair, with repetitions. */
  function LocalesOf(es: Fields, k: string): seq<string>
    decreases |es|
  {
    if |es| == 0 then []
    else
      var e := es[|es| - 1];
      LocalesOf(es[..|es| - 1], k) + if e.0 == k && e.1.Obj? then Keys(e.1.fields) else []
  }

  /** One pair: the locales it gives key `k`, if any, are spread in. */
  lemma LocaleStep(before: Fields, e: (string, Json), k: string)
    ensures Keys(Prior(MergeEntry(before, e), k))
         == Keys(Prior(before, k))
            + if e.0 == k && e.1.Obj? then Fresh(Keys(e.1.fields), Keys(Prior(before, k))) else []
  {
    if e.1.Obj? {
      var spread := Spread(Prior(before, e.0), e.1.fields);
      if e.0 == k {
        GetPutSame(before, k, Obj(spread));
        SpreadKeys(Prior(before, k), e.1.fields);
      } else {
        GetPutOther(before, e.0, Obj(spread), k);
      }
    }
  }

  /** `FreshConcat` below a fixed prefix of seen keys. */
  lemma FreshAfter(p0: seq<string>, earlier: seq<string>, added: seq<string>)
    ensures p0 + Fresh(earlier + added, p0)
         == (p0 + Fresh(earlier, p0)) + Fresh(added, p0 + Fresh(earlier, p0))
  {
    FreshConcat(earlier, added, p0);
  }

  /** The locales of a key keep their first position; new ones are appended
      in order of first appearance. */
  lemma {:induction false} EntriesLocaleKeys(acc: Fields, es: Fields, k: string)
    ensures Keys(Prior(MergeEntries(acc, es), k))
         == Keys(Prior(acc, k)) + Fresh(LocalesOf(es, k), Keys(Prior(acc, k)))
    decreases |es|
  {
    if |es| > 0 {
      var init := es[..|es| - 1];
      var e := es[|es| - 1];
      var before := MergeEntries(acc, init);
      var added := if e.0 == k && e.1.Obj? then Keys(e.1.fields) else [];
      EntriesLocaleKeys(acc, init, k);
      LocaleStep(before, e, k);
      assert LocalesOf(es, k) == LocalesOf(init, k) + added;
      FreshAfter(Keys(Prior(acc, k)), LocalesOf(init, k), added);
    }
  }

  // ---------------------------------------------------------------------------
  // The whole merge
  // ---------------------------------------------------------------------------

  lemma {:induction false} AllEntriesConcat(a: seq<Option<Json>>, b: seq<Option<Json>>)
    ensures AllEntries(a + b) == AllEntries(a) + AllEntries(b)
    decreases |b|
  {
    if |b| == 0 {
      assert a + b == a;
    } else {
      var b' := b[..|b| - 1];
      var last := match b[|b| - 1] case None => [] case Some(j) => ForIn(j);
      assert (a + b)[..|a + b| - 1] == a + b';
      assert (a + b)[|a + b| - 1] == b[|b| - 1];
      assert AllEntries(a + b) == AllEntries(a + b') + last;
      assert AllEntries(b) == AllEntries(b') + last;
      AllEntriesConcat(a, b');
    }
  }

  /** The file-by-file fold is the fold over all parsed pairs. */
  lemma {:induction false} MergeIsFlat(files: seq<Option<Json>>)
    ensures MergeFiles(files).data == MergeEntries([], AllEntries(files))
    decreases |files|
  {
    if |files| > 0 {
      var init := files[..|files| - 1];
      MergeIsFlat(init);
      match files[|files| - 1]
      case None =>
        assert AllEntries(files) == AllEntries(init) + [] == AllEntries(init);
      case Some(j) =>
        MergeEntriesConcat([], AllEntries(init), ForIn(j));
    }
  }

  /** The merged keys are the keys that some parsed file gives an object,
      in order of first appearance; a later file never moves a key. */
  lemma MergedKeys(files: seq<Option<Json>>)
    ensures Keys(MergeFiles(files).data) == Fresh(ObjectKeys(AllEntries(files)), [])
  {
    MergeIsFlat(files);
    EntriesKeys([], AllEntries(files));
  }

  /** Last file wins: each `(key, locale)` holds the text of the last parsed
      pair that gives that key an object holding that locale. */
  lemma LastFileWins(files: seq<Option<Json>>, k: string, l: string)
    ensures Lookup(MergeFiles(files).data, k, l) == EntriesLocale(AllEntries(files), k, l)
  {
    MergeIsFlat(files);
    EntriesLookup([], AllEntries(files), k, l);
  }

  /** The locales of a key are the union of the locales every parsed file
      gives it. */
  lemma LocaleUnion(files: seq<Option<Json>>, k: string, l: string)
    ensures Lookup(MergeFiles(files).data, k, l).Some?
        <==> exists e :: e in AllEntries(files) && e.0 == k && e.1.Obj?
                         && l in Keys(e.1.fields)
  {
    LastFileWins(files, k, l);
    var es := AllEntries(files);
    if EntriesLocale(es, k, l).Some? {
      var i :| 0 <= i < |es| && es[i].0 == k && es[i].1.Obj? && LastGet(es[i].1.fields, l).Some?;
      LastGetNone(es[i].1.fields, l);
      assert es[i] in es;
    } else {
      forall e | e in es && e.0 == k && e.1.Obj?
        ensures l !in Keys(e.1.fields)
      {
        var i :| 0 <= i < |es| && es[i] == e;
        LastGetNone(e.1.fields, l);
      }
    }
  }

  /** A locale has a last member exactly when it has a member at all. */
  lemma LastGetNone(fs: Fields, l: string)
    ensures LastGet(fs, l).None? <==> l !in Keys(fs)
  {
    assert forall i :: 0 <= i < |fs| ==> Keys(fs)[i] == fs[i].0;
  }

  /** The locales of a merged key, in order of first appearance over the
      parsed files. */
  lemma MergedLocales(files: seq<Option<Json>>, k: string)
    ensures Keys(Prior(MergeFiles(files).data, k)) == Fresh(LocalesOf(AllEntries(files), k), [])
  {
    MergeIsFlat(files);
    EntriesLocaleKeys([], AllEntries(files), k);
  }

  /** A file that fails to parse changes nothing in the catalog. */
  lemma FailureIgnored(a: seq<Option<Json>>, b: seq<Option<Json>>)
    ensures MergeFiles(a + [None] + b).data == MergeFiles(a + b).data
  {
    MergeIsFlat(a + [None] + b);
    MergeIsFlat(a + b);
    AllEntriesConcat(a + [None], b);
    AllEntriesConcat(a, [None]);
    AllEntriesConcat(a, b);
    var none: seq<Option<Json>> := [None];
    assert none[..0] == [];
    assert AllEntries(none) == AllEntries([]) + [] == [];
    assert AllEntries(a + [None]) == AllEntries(a);
  }

  /** Pairs whose values are not objects leave the catalog as it was. */
  lemma {:induction false} NoObjectsNoChange(acc: Fields, es: Fields)
    requires forall i :: 0 <= i < |es| ==> !es[i].1.Obj?
    ensures MergeEntries(acc, es) == acc
    decreases |es|
  {
    if |es| > 0 {
      NoObjectsNoChange(acc, es[..|es| - 1]);
    }
  }

  /** A parsed file with no object-valued pair (`null`, a number, a string,
      an array of scalars, an object of strings) is counted and adds nothing. */
  lemma NonObjectFileIgnored(files: seq<Option<Json>>, j: Json)
    requires forall i :: 0 <= i < |ForIn(j)| ==> !ForIn(j)[i].1.Obj?
    ensures MergeFiles(files + [Some(j)]).data == MergeFiles(files).data
    ensures MergeFiles(files + [Some(j)]).processed == MergeFiles(files).processed + 1
  {
    assert (files + [Some(j)])[..|files|] == files;
    NoObjectsNoChange(MergeFiles(files).data, ForIn(j));
  }

  /** The indices of the files that parsed. */
  function ParsedIndices(files: seq<Option<Json>>): set<nat> {
    set i: nat | i < |files| && files[i].Some?
  }

  /** `filesProcessed` counts exactly the files that parsed. */
  lemma {:induction false} ProcessedCount(files: seq<Option<Json>>)
    ensures MergeFiles(files).processed == |ParsedIndices(files)|
    decreases |files|
  {
    if |files| > 0 {
      var n := |files| - 1;
      var init := files[..n];
      ProcessedCount(init);
      var before := ParsedIndices(init);
      assert forall i :: 0 <= i < n ==> init[i] == files[i];
      if files[n].Some? {
        assert ParsedIndices(files) == before + {n};
      } else {
        assert ParsedIndices(files) == before;
      }
    }
  }

  // ---------------------------------------------------------------------------
  // The selection list
  // ---------------------------------------------------------------------------

  /** Where `splice(index, 1)` starts: a negative index counts from the end
      and is clamped at 0, a large one is clamped at the length. */
  function SpliceStart(len: nat, index: int): (s: nat)
    ensures s <= len
  {
    if index < 0 then (if len + index < 0 then 0 else len + index)
    else if index > len then len
    else index
  }

  /** `removeFile(index)`: a copy of the list with `splice(index, 1)` applied. */
  function RemoveFile<T>(files: seq<T>, index: int): (r: seq<T>)
    ensures |r| == if SpliceStart(|files|, index) < |files| then |files| - 1 else |files|
    ensures 0 <= index < |files| ==>
              forall j :: 0 <= j < |r| ==> r[j] == if j < index then files[j] else files[j + 1]
    ensures 0 <= index < |files| ==> multiset(r) + multiset{files[index]} == multiset(files)
    ensures index >= |files| ==> r == files
  {
    var s := SpliceStart(|files|, index);
    if s < |files| then
      assert files == files[..s] + [files[s]] + files[s + 1..];
      files[..s] + files[s + 1..]
    else files
  }

  /** Removing a file the list shows, then merging, is merging the others. */
  lemma RemoveThenMerge(files: seq<Option<Json>>, index: nat)
    requires index < |files|
    ensures MergeFiles(RemoveFile(files, index)).data
         == MergeEntries([], AllEntries(files[..index]) + AllEntries(files[index + 1..]))
  {
    var r := RemoveFile(files, index);
    assert r == files[..index] + files[index + 1..];
    MergeIsFlat(r);
    AllEntriesConcat(files[..index], files[index + 1..]);
  }
}
