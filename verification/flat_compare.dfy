/**
  The flat catalog comparison (`compareFiles` in src/Compare.tsx): the
  entries of the base catalog whose key the compare catalog lacks, with the
  base's values, in base order. Only the top level is looked at; values are
  never compared.
 */
module FlatCompare {
  import opened JsonTree
  import opened Seqs
  import KeyDiff

  /** The loop `for (const key in baseFile) if (!(key in compareFile)) missing[key] = baseFile[key]`.
      Keys of a parsed catalog are distinct, so each assignment adds a member. */
  function CompareFiles(base: Fields, compare: Fields): (r: Fields)
    ensures forall k :: k in Keys(r) <==> k in Keys(base) && k !in Keys(compare)
    ensures Subseq(r, base)
  {
    if |base| == 0 then []
    else
      var rest := CompareFiles(base[1..], compare);
      if base[0].0 in Keys(compare) then rest else [base[0]] + rest
  }

  /** `compareFiles`: nothing (an alert) until both catalogs are loaded. */
  function CompareLoaded(base: Option<Fields>, compare: Option<Fields>): (r: Option<Fields>)
    ensures r.Some? <==> base.Some? && compare.Some?
    ensures r.Some? ==> r.value == CompareFiles(base.value, compare.value)
  {
    if base.None? || compare.None? then None else Some(CompareFiles(base.value, compare.value))
  }

  /** Every reported value is the one the base holds for that key. */
  lemma ValuesFromBase(base: Fields, compare: Fields)
    ensures forall m :: m in CompareFiles(base, compare) ==> m in base && m.0 !in Keys(compare)
  {
    SubseqMembers(CompareFiles(base, compare), base);
    forall m | m in CompareFiles(base, compare)
      ensures m.0 !in Keys(compare)
    {
      var i :| 0 <= i < |CompareFiles(base, compare)| && CompareFiles(base, compare)[i] == m;
      assert m.0 == Keys(CompareFiles(base, compare))[i];
    }
  }

  lemma HeadKey(fs: Fields)
    ensures |fs| > 0 ==> fs[0].0 in Keys(fs)
  {
  }

  /** A catalog compared with itself has nothing missing. */
  lemma CompareSelf(t: Fields)
    ensures CompareFiles(t, t) == []
  {
    HeadKey(CompareFiles(t, t));
  }

  /** Against an empty catalog, everything is missing. */
  lemma {:induction false} CompareEmpty(t: Fields)
    ensures CompareFiles(t, []) == t
    decreases |t|
  {
    if |t| > 0 {
      CompareEmpty(t[1..]);
    }
  }

  /** Only the set of compare keys matters, never the compare values. */
  lemma {:induction false} OnlyKeysMatter(base: Fields, c1: Fields, c2: Fields)
    requires forall k :: k in Keys(c1) <==> k in Keys(c2)
    ensures CompareFiles(base, c1) == CompareFiles(base, c2)
    decreases |base|
  {
    if |base| > 0 {
      OnlyKeysMatter(base[1..], c1, c2);
    }
  }

  /** More compare keys can only remove entries from the result. */
  lemma {:induction false} MoreKeysFewerMissing(base: Fields, c1: Fields, c2: Fields)
    requires forall k :: k in Keys(c1) ==> k in Keys(c2)
    ensures Subseq(CompareFiles(base, c2), CompareFiles(base, c1))
    decreases |base|
  {
    if |base| > 0 {
      MoreKeysFewerMissing(base[1..], c1, c2);
      var r1 := CompareFiles(base, c1);
      var r2 := CompareFiles(base, c2);
      var t1 := CompareFiles(base[1..], c1);
      var t2 := CompareFiles(base[1..], c2);
      if base[0].0 !in Keys(c1) {
        assert r1 == [base[0]] + t1 && r1[1..] == t1;
        if base[0].0 !in Keys(c2) {
          assert r2 == [base[0]] + t2 && r2[1..] == t2;
        } else {
          assert r2 == t2;
        }
      }
    }
  }

  /** Each key as a one-segment path. */
  function Singletons(ks: seq<string>): (r: seq<KeyDiff.Path>)
    ensures |r| == |ks| && forall i :: 0 <= i < |ks| ==> r[i] == [ks[i]]
  {
    seq(|ks|, i requires 0 <= i < |ks| => [ks[i]])
  }

  /** On a catalog whose values are all leaves, the flat comparison reports
      the same keys as the recursive one of the hard-coded catalog screen. */
  lemma {:induction false} FlatMatchesDeep(base: Fields, compare: Fields)
    requires forall i :: 0 <= i < |base| ==> !base[i].1.Obj?
    ensures KeyDiff.MissingIn(base, compare) == Singletons(Keys(CompareFiles(base, compare)))
    decreases |base|
  {
    if |base| > 0 {
      var (k, v) := base[0];
      FlatMatchesDeep(base[1..], compare);
      var restKeys := Keys(CompareFiles(base[1..], compare));
      var rest := Singletons(restKeys);
      if k in Keys(compare) {
        assert !v.Obj?;
        assert KeyDiff.MissingAt(k, v, compare) == [];
        assert CompareFiles(base, compare) == CompareFiles(base[1..], compare);
        assert KeyDiff.MissingIn(base, compare) == [] + rest;
      } else {
        assert KeyDiff.MissingAt(k, v, compare) == [[k]];
        assert CompareFiles(base, compare) == [base[0]] + CompareFiles(base[1..], compare);
        assert Keys(CompareFiles(base, compare)) == [k] + restKeys;
        assert Singletons([k] + restKeys) == [[k]] + rest;
        assert KeyDiff.MissingIn(base, compare) == [[k]] + rest;
      }
    }
  }
}
