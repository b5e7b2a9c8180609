/**
  The recursive key comparison of the hard-coded catalog screen
  (`findMissing` in src/CompareHardcode.tsx) and the report built from it.

  `findMissing(base, compare, path)` walks the members of `base` in order.
  A key absent from the compare object is reported as the dotted path that
  leads to it; a key present in both is descended into. A non-object base
  reports nothing; a compare value that is not an object is read as `{}`, so
  every key of the base object under it is reported.

  The walk is modelled twice: `FindMissing` builds the dotted strings the way
  the code does, and `Missing` reports the same keys as lists of path
  segments, which is what the properties are stated on. `TextIsJoinedPaths`
  ties the two together.
 */
module KeyDiff {
  import opened Text
  import opened JsonTree
  import opened LineLocator
  import opened Seqs
  import MergeJson

  /** A key path, one segment per object level. */
  type Path = seq<string>

  /** Every path of `qs`, one level deeper under `k`. */
  function PrefixAll(k: string, qs: seq<Path>): (r: seq<Path>)
    ensures |r| == |qs|
    ensures forall i :: 0 <= i < |qs| ==> r[i] == [k] + qs[i]
  {
    seq(|qs|, i requires 0 <= i < |qs| => [k] + qs[i])
  }

  // ---------------------------------------------------------------------------
  // The walk over key paths
  // ---------------------------------------------------------------------------

  /** The keys of `base` missing from `compare`, as paths relative to them. */
  function Missing(base: Json, compare: Json): seq<Path> {
    if base.Obj? then MissingIn(base.fields, AsFields(compare)) else []
  }

  /** The `for (const key in baseObj)` loop against the compare members `cmp`. */
  function MissingIn(fs: Fields, cmp: Fields): seq<Path>
    decreases FieldsSize(fs), 1
  {
    if |fs| == 0 then [] else MissingAt(fs[0].0, fs[0].1, cmp) + MissingIn(fs[1..], cmp)
  }

  /** One iteration of that loop, for the base member `k: v`. */
  function MissingAt(k: string, v: Json, cmp: Fields): seq<Path>
    decreases Size(v), 0
  {
    if k !in Keys(cmp) then [[k]]
    else PrefixAll(k, if v.Obj? then MissingIn(v.fields, AsFields(Get(cmp, k).value)) else [])
  }

  // ---------------------------------------------------------------------------
  // The walk over dotted strings, as the code builds them
  // ---------------------------------------------------------------------------

  /** `path ? `${path}.${key}` : key` */
  function Extend(path: string, key: string): string {
    if path == "" then key else path + "." + key
  }

  /** `findMissing(base, compare, path)` */
  function FindMissing(base: Json, compare: Json, path: string): seq<string> {
    if base.Obj? then TextIn(base.fields, AsFields(compare), path) else []
  }

  function TextIn(fs: Fields, cmp: Fields, path: string): seq<string>
    decreases FieldsSize(fs), 1
  {
    if |fs| == 0 then [] else TextAt(fs[0].0, fs[0].1, cmp, path) + TextIn(fs[1..], cmp, path)
  }

  function TextAt(k: string, v: Json, cmp: Fields, path: string): seq<string>
    decreases Size(v), 0
  {
    var full := Extend(path, k);
    if k !in Keys(cmp) then [full]
    else if v.Obj? then TextIn(v.fields, AsFields(Get(cmp, k).value), full)
    else []
  }

  /** The dotted string the code builds for path `q` below the string `path`. */
  function JoinFrom(path: string, q: Path): string
    decreases |q|
  {
    if |q| == 0 then path else JoinFrom(Extend(path, q[0]), q[1..])
  }

  function JoinAll(path: string, qs: seq<Path>): (r: seq<string>)
    ensures |r| == |qs|
    ensures forall i :: 0 <= i < |qs| ==> r[i] == JoinFrom(path, qs[i])
  {
    seq(|qs|, i requires 0 <= i < |qs| => JoinFrom(path, qs[i]))
  }

  lemma JoinAllConcat(path: string, a: seq<Path>, b: seq<Path>)
    ensures JoinAll(path, a + b) == JoinAll(path, a) + JoinAll(path, b)
  {
  }

  lemma JoinAllPrefix(path: string, k: string, qs: seq<Path>)
    ensures JoinAll(path, PrefixAll(k, qs)) == JoinAll(Extend(path, k), qs)
  {
    forall i | 0 <= i < |qs|
      ensures JoinFrom(path, [k] + qs[i]) == JoinFrom(Extend(path, k), qs[i])
    {
      assert ([k] + qs[i])[1..] == qs[i];
    }
  }

  /** The strings the code reports are the segment paths, each joined with
      dots onto the starting path. */
  lemma {:induction false} TextIsJoinedPaths(fs: Fields, cmp: Fields, path: string)
    ensures TextIn(fs, cmp, path) == JoinAll(path, MissingIn(fs, cmp))
    decreases FieldsSize(fs)
  {
    if |fs| > 0 {
      var (k, v) := fs[0];
      TextIsJoinedPaths(fs[1..], cmp, path);
      JoinAllConcat(path, MissingAt(k, v, cmp), MissingIn(fs[1..], cmp));
      if k in Keys(cmp) {
        var inner := if v.Obj? then MissingIn(v.fields, AsFields(Get(cmp, k).value)) else [];
        JoinAllPrefix(path, k, inner);
        if v.Obj? {
          TextIsJoinedPaths(v.fields, AsFields(Get(cmp, k).value), Extend(path, k));
        }
      } else {
        assert JoinFrom(path, [k]) == JoinFrom(Extend(path, k), []);
      }
    }
  }

  lemma FindMissingIsJoinedPaths(base: Json, compare: Json)
    ensures FindMissing(base, compare, "") == JoinAll("", Missing(base, compare))
  {
    if base.Obj? {
      TextIsJoinedPaths(base.fields, AsFields(compare), "");
    }
  }

  /** Below a non-empty path every segment adds a dot and the segment. */
  lemma {:induction false} JoinFromNonEmpty(path: string, q: Path)
    requires path != ""
    ensures JoinFrom(path, q) == Join([path] + q, '.')
    decreases |q|
  {
    if |q| > 0 {
      var ext := Extend(path, q[0]);
      JoinFromNonEmpty(ext, q[1..]);
      var tail := [q[0]] + q[1..];
      assert tail == q;
      assert ([path] + q)[1..] == q;
      assert ([ext] + q[1..])[1..] == q[1..];
      assert ([q[0]] + q[1..])[1..] == q[1..];
      assert Join([path] + q, '.') == path + "." + Join(q, '.');
      if |q| == 1 {
        assert Join([ext] + q[1..], '.') == ext;
      } else {
        assert Join(q, '.') == q[0] + "." + Join(q[1..], '.');
      }
    }
  }

  /** A reported path whose first segment is not empty is its segments joined
      with dots. */
  lemma JoinFromTop(q: Path)
    requires |q| >= 1 && q[0] != ""
    ensures JoinFrom("", q) == Join(q, '.')
  {
    JoinFromNonEmpty(q[0], q[1..]);
    assert [q[0]] + q[1..] == q;
  }

  /** When no segment is empty or holds a dot, splitting the reported string
      on dots gives back the segments. */
  lemma ReportedPathRoundTrip(q: Path)
    requires |q| >= 1 && q[0] != ""
    requires forall i :: 0 <= i < |q| ==> '.' !in q[i]
    ensures Split(JoinFrom("", q), '.') == q
  {
    JoinFromTop(q);
    SplitJoin(q, '.');
  }

  /** The last piece of a reported string is the path's last segment, as long
      as that segment holds no dot; the segments before it do not matter. */
  lemma {:induction false} LastSegment(path: string, q: Path)
    requires |q| >= 1 && '.' !in q[|q| - 1]
    ensures LastPiece(JoinFrom(path, q), '.') == q[|q| - 1]
    decreases |q|
  {
    if |q| == 1 {
      var ext := Extend(path, q[0]);
      assert JoinFrom(path, q) == JoinFrom(ext, q[1..]);
      if path == "" {
        LastPieceNoSep(q[0], '.');
      } else {
        assert ext == path + ['.'] + q[0];
        LastPieceAfter(path, '.', q[0]);
      }
    } else {
      LastSegment(Extend(path, q[0]), q[1..]);
    }
  }

  // ---------------------------------------------------------------------------
  // What is reported
  // ---------------------------------------------------------------------------

  /** `q` is missing from `compare` at the first level where it departs: it is
      a key path of `base`, the compare tree has the path up to its last key,
      and not the path itself. */
  predicate MinimalMissing(base: Json, compare: Json, q: Path) {
    && |q| > 0
    && Resolve(base, q).Some?
    && Resolve(compare, q).None?
    && Resolve(compare, q[..|q| - 1]).Some?
  }

  lemma {:induction false} InMissingIn(fs: Fields, cmp: Fields, q: Path)
    ensures q in MissingIn(fs, cmp)
      <==> exists i :: 0 <= i < |fs| && q in MissingAt(fs[i].0, fs[i].1, cmp)
    decreases |fs|
  {
    if |fs| > 0 {
      InMissingIn(fs[1..], cmp, q);
      if q in MissingIn(fs[1..], cmp) {
        var i :| 0 <= i < |fs[1..]| && q in MissingAt(fs[1..][i].0, fs[1..][i].1, cmp);
        assert fs[1..][i] == fs[i + 1];
      }
      forall i | 1 <= i < |fs| && q in MissingAt(fs[i].0, fs[i].1, cmp)
        ensures q in MissingIn(fs[1..], cmp)
      {
        assert fs[1..][i - 1] == fs[i];
      }
    }
  }

  /** Descending one key: through an object holding it, or nowhere. */
  lemma ResolveStep(j: Json, k: string, rest: Path)
    ensures Resolve(j, [k] + rest)
      == if k in Keys(AsFields(j)) then Resolve(Get(AsFields(j), k).value, rest) else None
  {
    assert ([k] + rest)[1..] == rest;
  }

  /** A base key absent from the compare object is missing right there. */
  lemma SoundTop(base: Json, compare: Json, k: string)
    requires base.Obj? && Get(base.fields, k).Some? && k !in Keys(AsFields(compare))
    ensures MinimalMissing(base, compare, [k])
  {
    ResolveStep(base, k, []);
    ResolveStep(compare, k, []);
    assert [k][..0] == [];
  }

  /** The parent of `[k] + q'` is reached through `k` as well. */
  lemma ResolveParent(j: Json, k: string, q': Path)
    requires |q'| > 0
    ensures var q := [k] + q';
      Resolve(j, q[..|q| - 1])
        == if k in Keys(AsFields(j)) then Resolve(Get(AsFields(j), k).value, q'[..|q'| - 1]) else None
  {
    var q := [k] + q';
    assert q[..|q| - 1] == [k] + q'[..|q'| - 1];
    ResolveStep(j, k, q'[..|q'| - 1]);
  }

  /** A path missing below `v` is missing below the key holding `v`. */
  lemma SoundDeeper(base: Json, compare: Json, k: string, q': Path)
    requires base.Obj? && Get(base.fields, k).Some?
    requires k in Keys(AsFields(compare))
    requires MinimalMissing(Get(base.fields, k).value, Get(AsFields(compare), k).value, q')
    ensures MinimalMissing(base, compare, [k] + q')
  {
    assert AsFields(base) == base.fields;
    ResolveStep(base, k, q');
    ResolveStep(compare, k, q');
    ResolveParent(compare, k, q');
  }

  /** A path reported for the base member `k: v` is missing at the first
      level where it departs. */
  lemma {:induction false} MemberSound(base: Json, compare: Json, k: string, v: Json, q: Path)
    requires WellFormed(base) && base.Obj? && Get(base.fields, k) == Some(v)
    requires q in MissingAt(k, v, AsFields(compare))
    ensures MinimalMissing(base, compare, q)
    decreases |q|, 0
  {
    var cmp := AsFields(compare);
    if k !in Keys(cmp) {
      assert q == [k];
      SoundTop(base, compare, k);
    } else {
      var w := Get(cmp, k).value;
      var inner := if v.Obj? then MissingIn(v.fields, AsFields(w)) else [];
      var j :| 0 <= j < |inner| && q == [k] + inner[j];
      assert v.Obj? && inner == Missing(v, w);
      assert WellFormed(v) by { GetWellFormedMember(base, k); }
      MissingSound(v, w, inner[j]);
      SoundDeeper(base, compare, k, inner[j]);
    }
  }

  /** A member of a well-formed object is well-formed. */
  lemma GetWellFormedMember(base: Json, k: string)
    requires WellFormed(base) && base.Obj? && Get(base.fields, k).Some?
    ensures WellFormed(Get(base.fields, k).value)
  {
    var i: nat :| FirstAt(base.fields, k, i) && base.fields[i].1 == Get(base.fields, k).value;
  }

  /** Every path reported is missing at the first level where it departs. */
  lemma {:induction false} MissingSound(base: Json, compare: Json, q: Path)
    requires WellFormed(base)
    requires q in Missing(base, compare)
    ensures MinimalMissing(base, compare, q)
    decreases |q|, 1
  {
    var fs := base.fields;
    var cmp := AsFields(compare);
    InMissingIn(fs, cmp, q);
    var i :| 0 <= i < |fs| && q in MissingAt(fs[i].0, fs[i].1, cmp);
    GetUnique(fs, i);
    MemberSound(base, compare, fs[i].0, fs[i].1, q);
  }

  lemma {:induction false} MemberInFields(fs: Fields, cmp: Fields, i: nat, q: Path)
    requires i < |fs| && q in MissingAt(fs[i].0, fs[i].1, cmp)
    ensures q in MissingIn(fs, cmp)
  {
    InMissingIn(fs, cmp, q);
  }

  /** A minimal missing path is reported by the member of its first key. */
  lemma {:induction false} MemberComplete(base: Json, compare: Json, q: Path)
    requires MinimalMissing(base, compare, q)
    ensures base.Obj? && Get(base.fields, q[0]).Some?
    ensures q in MissingAt(q[0], Get(base.fields, q[0]).value, AsFields(compare))
    decreases |q|, 1
  {
    if |q| == 1 {
      MemberCompleteLeaf(base, compare, q);
    } else {
      MemberCompleteDeeper(base, compare, q);
    }
  }

  /** The case of `MemberComplete` where the path is one key long: the
      compare tree does not hold that key. */
  lemma MemberCompleteLeaf(base: Json, compare: Json, q: Path)
    requires |q| == 1 && MinimalMissing(base, compare, q)
    ensures base.Obj? && Get(base.fields, q[0]).Some?
    ensures MissingAt(q[0], Get(base.fields, q[0]).value, AsFields(compare)) == [q]
  {
    assert q[..0] == [];
    ResolveOne(base, q);
    ResolveOne(compare, q);
    assert [q[0]] == q;
  }

  /** A path of one key resolves exactly when the value holds that key. */
  lemma ResolveOne(j: Json, q: Path)
    requires |q| == 1
    ensures Resolve(j, q).Some? <==> q[0] in Keys(AsFields(j))
  {
    assert |q[1..]| == 0;
  }

  /** The case of `MemberComplete` where the path goes on below its first
      key: the compare tree holds that key and lacks the rest of the path
      beneath it. */
  lemma {:induction false} MemberCompleteDeeper(base: Json, compare: Json, q: Path)
    requires |q| > 1 && MinimalMissing(base, compare, q)
    ensures base.Obj? && Get(base.fields, q[0]).Some?
    ensures q in MissingAt(q[0], Get(base.fields, q[0]).value, AsFields(compare))
    decreases |q|, 0
  {
    var cmp := AsFields(compare);
    var k := q[0];
    var q' := q[1..];
    assert q == [k] + q';
    ResolveStep(base, k, q');
    ResolveStep(compare, k, q');
    ResolveParent(compare, k, q');
    var v := Get(base.fields, k).value;
    var w := Get(cmp, k).value;
    assert MinimalMissing(v, w, q');
    MissingComplete(v, w, q');
    var inner := Missing(v, w);
    assert MissingAt(k, v, cmp) == PrefixAll(k, inner);
    var j :| 0 <= j < |inner| && inner[j] == q';
    assert PrefixAll(k, inner)[j] == q;
  }

  /** Every key path of the base that the compare tree lacks is reported, at
      the level where it departs. */
  lemma {:induction false} MissingComplete(base: Json, compare: Json, q: Path)
    requires MinimalMissing(base, compare, q)
    ensures q in Missing(base, compare)
    decreases |q|, 2
  {
    MemberComplete(base, compare, q);
    var fs := base.fields;
    var i: nat :| FirstAt(fs, q[0], i) && fs[i].1 == Get(fs, q[0]).value;
    MemberInFields(fs, AsFields(compare), i, q);
  }

  /** `findMissing` reports exactly the minimal missing paths. */
  lemma MissingExactly(base: Json, compare: Json, q: Path)
    requires WellFormed(base)
    ensures q in Missing(base, compare) <==> MinimalMissing(base, compare, q)
  {
    if q in Missing(base, compare) {
      MissingSound(base, compare, q);
    }
    if MinimalMissing(base, compare, q) {
      MissingComplete(base, compare, q);
    }
  }

  // ---------------------------------------------------------------------------
  // Special cases
  // ---------------------------------------------------------------------------

  /** A compare value that is not an object reports every key of the base. */
  lemma {:induction false} AgainstNonObject(fs: Fields)
    ensures MissingIn(fs, []) == seq(|fs|, i requires 0 <= i < |fs| => [fs[i].0])
    decreases |fs|
  {
    if |fs| > 0 {
      AgainstNonObject(fs[1..]);
    }
  }

  /** Nothing is reported when the compare tree covers the base. */
  lemma {:induction false} CoveredIn(fs: Fields, cmp: Fields)
    requires MergeJson.Covers(Obj(cmp), Obj(fs))
    ensures MissingIn(fs, cmp) == []
    decreases FieldsSize(fs)
  {
    if |fs| > 0 {
      var (k, v) := fs[0];
      assert Get(cmp, k).Some?;
      var w := Get(cmp, k).value;
      if v.Obj? {
        assert MergeJson.Covers(w, v);
        CoveredIn(v.fields, w.fields);
      }
      assert MergeJson.Covers(Obj(cmp), Obj(fs[1..])) by {
        forall i | 0 <= i < |fs[1..]|
          ensures Get(cmp, fs[1..][i].0).Some?
          ensures MergeJson.Covers(Get(cmp, fs[1..][i].0).value, fs[1..][i].1)
        {
          assert fs[1..][i] == fs[i + 1];
        }
      }
      CoveredIn(fs[1..], cmp);
    }
  }

  /** A catalog compared with itself has nothing missing. */
  lemma SelfComparison(t: Json)
    requires WellFormed(t)
    ensures Missing(t, t) == []
  {
    MergeJson.CoversRefl(t);
    if t.Obj? {
      CoveredIn(t.fields, t.fields);
    }
  }

  /** After inserting the missing keys of `insert` into `base` with the
      merge of the same tool, comparing `insert` against the result reports
      nothing. */
  lemma MergeFillsMissing(base: Fields, insert: Fields)
    ensures Missing(Obj(insert), Obj(MergeJson.MergeOnlyMissing(base, insert))) == []
  {
    MergeJson.MergeCoversInsert(base, insert);
    CoveredIn(insert, MergeJson.MergeOnlyMissing(base, insert));
  }

  /** Under a base object whose compare counterpart is a leaf, the children
      are reported, not the key itself. */
  lemma ObjectAgainstLeaf(k: string, v: Json, cmp: Fields)
    requires v.Obj? && k in Keys(cmp) && !Get(cmp, k).value.Obj?
    ensures |MissingAt(k, v, cmp)| == |v.fields|
    ensures forall i :: 0 <= i < |v.fields| ==> MissingAt(k, v, cmp)[i] == [k, v.fields[i].0]
  {
    AgainstNonObject(v.fields);
    var inner := MissingIn(v.fields, []);
    var r := PrefixAll(k, inner);
    assert AsFields(Get(cmp, k).value) == [];
    assert MissingAt(k, v, cmp) == r;
    forall i | 0 <= i < |v.fields|
      ensures r[i] == [k, v.fields[i].0]
    {
      assert inner[i] == [v.fields[i].0];
      assert r[i] == [k] + inner[i];
    }
  }

  // ---------------------------------------------------------------------------
  // Only key presence matters
  // ---------------------------------------------------------------------------

  /** The key structure of a tree: every leaf replaced by `null`. */
  function Shape(j: Json): (r: Json)
    ensures r.Obj? <==> j.Obj?
    decreases Size(j), 0
  {
    if j.Obj? then Obj(ShapeFields(j.fields)) else Null
  }

  function ShapeFields(fs: Fields): (r: Fields)
    ensures |r| == |fs|
    decreases FieldsSize(fs), 1
  {
    if |fs| == 0 then [] else [(fs[0].0, Shape(fs[0].1))] + ShapeFields(fs[1..])
  }

  /** Each member keeps its key and has its value reduced to its shape. */
  lemma {:induction false} ShapeMembers(fs: Fields)
    ensures forall i :: 0 <= i < |fs| ==> ShapeFields(fs)[i] == (fs[i].0, Shape(fs[i].1))
    decreases |fs|
  {
    if |fs| > 0 {
      ShapeMembers(fs[1..]);
      assert forall i :: 1 <= i < |fs| ==> fs[i] == fs[1..][i - 1];
    }
  }

  lemma ShapeKeys(fs: Fields)
    ensures Keys(ShapeFields(fs)) == Keys(fs)
  {
    ShapeMembers(fs);
  }

  lemma {:induction false} GetShape(fs: Fields, k: string)
    ensures Get(ShapeFields(fs), k)
      == if k in Keys(fs) then Some(Shape(Get(fs, k).value)) else None
    decreases |fs|
  {
    ShapeKeys(fs);
    if |fs| > 0 && fs[0].0 != k {
      GetShape(fs[1..], k);
      assert ShapeFields(fs)[1..] == ShapeFields(fs[1..]);
      assert Keys(fs) == [fs[0].0] + Keys(fs[1..]);
    }
  }

  /** Replacing leaves by other leaves, in either tree, changes nothing. */
  lemma {:induction false} MissingOnlyShape(fs: Fields, cmp: Fields)
    ensures MissingIn(fs, cmp) == MissingIn(ShapeFields(fs), ShapeFields(cmp))
    decreases FieldsSize(fs)
  {
    if |fs| > 0 {
      var (k, v) := fs[0];
      var sf := ShapeFields(fs);
      var sc := ShapeFields(cmp);
      ShapeMembers(fs);
      ShapeMembers(fs[1..]);
      assert sf[0] == (k, Shape(v)) && sf[1..] == ShapeFields(fs[1..]);
      MissingOnlyShape(fs[1..], cmp);
      ShapeKeys(cmp);
      if k in Keys(cmp) && v.Obj? {
        var w := Get(cmp, k).value;
        GetShape(cmp, k);
        assert AsFields(Get(sc, k).value) == ShapeFields(AsFields(w));
        MissingOnlyShape(v.fields, AsFields(w));
      }
      assert MissingAt(k, v, cmp) == MissingAt(k, Shape(v), sc);
    }
  }

  /** Trees with the same key structure give the same report. */
  lemma SameShapeSameReport(b1: Json, b2: Json, c1: Json, c2: Json)
    requires Shape(b1) == Shape(b2) && Shape(c1) == Shape(c2)
    ensures Missing(b1, c1) == Missing(b2, c2)
  {
    if b1.Obj? {
      MissingOnlyShape(b1.fields, AsFields(c1));
      MissingOnlyShape(b2.fields, AsFields(c2));
      assert ShapeFields(AsFields(c1)) == AsFields(Shape(c1));
      assert ShapeFields(AsFields(c2)) == AsFields(Shape(c2));
    }
  }

  // ---------------------------------------------------------------------------
  // No path is reported twice
  // ---------------------------------------------------------------------------

  lemma {:induction false} MissingHeads(fs: Fields, cmp: Fields, q: Path)
    requires q in MissingIn(fs, cmp)
    ensures |q| > 0 && q[0] in Keys(fs)
  {
    InMissingIn(fs, cmp, q);
    var i :| 0 <= i < |fs| && q in MissingAt(fs[i].0, fs[i].1, cmp);
    assert q[0] == fs[i].0;
  }

  lemma DistinctPrefix(k: string, qs: seq<Path>)
    requires Distinct(qs)
    ensures Distinct(PrefixAll(k, qs))
  {
    var r := PrefixAll(k, qs);
    forall i, j | 0 <= i < j < |r|
      ensures r[i] != r[j]
    {
      assert r[i][1..] == qs[i] && r[j][1..] == qs[j];
    }
  }

  /** The paths one member reports all start with its key and are distinct. */
  lemma {:induction false} MemberDistinct(k: string, v: Json, cmp: Fields)
    requires WellFormed(v)
    ensures Distinct(MissingAt(k, v, cmp))
    ensures forall q :: q in MissingAt(k, v, cmp) ==> |q| > 0 && q[0] == k
    decreases Size(v), 0
  {
    if k in Keys(cmp) && v.Obj? {
      var inner := MissingIn(v.fields, AsFields(Get(cmp, k).value));
      MissingDistinct(v.fields, AsFields(Get(cmp, k).value));
      DistinctPrefix(k, inner);
    }
  }

  /** With distinct keys at every level, every missing path is reported once. */
  lemma {:induction false} MissingDistinct(fs: Fields, cmp: Fields)
    requires WellFormed(Obj(fs))
    ensures Distinct(MissingIn(fs, cmp))
    decreases FieldsSize(fs), 1
  {
    if |fs| > 0 {
      var (k, v) := fs[0];
      var head := MissingAt(k, v, cmp);
      var rest := MissingIn(fs[1..], cmp);
      UniqueTail(fs);
      assert WellFormed(Obj(fs[1..]));
      MissingDistinct(fs[1..], cmp);
      MemberDistinct(k, v, cmp);
      forall x | x in rest
        ensures x !in head
      {
        MissingHeads(fs[1..], cmp, x);
      }
      DistinctConcat(head, rest);
    }
  }

  // ---------------------------------------------------------------------------
  // Reports follow the base key order
  // ---------------------------------------------------------------------------

  /** The position of the first member named `k`. */
  function KeyIndex(fs: Fields, k: string): (i: nat)
    requires k in Keys(fs)
    ensures i < |fs| && fs[i].0 == k
    decreases |fs|
  {
    if fs[0].0 == k then 0
    else
      assert Keys(fs) == [fs[0].0] + Keys(fs[1..]);
      1 + KeyIndex(fs[1..], k)
  }

  /** Before the first member, every member's key has index 0. */
  lemma KeyIndexHead(fs: Fields)
    requires |fs| > 0
    ensures fs[0].0 in Keys(fs) && KeyIndex(fs, fs[0].0) == 0
  {
  }

  /** A key of the later members sits one place further along in the whole. */
  lemma KeyIndexTail(fs: Fields, x: string)
    requires UniqueKeys(fs) && |fs| > 0 && x in Keys(fs[1..])
    ensures x in Keys(fs) && KeyIndex(fs, x) == 1 + KeyIndex(fs[1..], x)
  {
    UniqueTail(fs);
    assert Keys(fs) == [fs[0].0] + Keys(fs[1..]);
  }

  /** `p` comes strictly before `q` in a depth-first pre-order walk of the
      members `fs`: the first key of `p` is an earlier member, or both paths
      enter the same member and the rest of `p` comes first below it. */
  predicate PathBefore(fs: Fields, p: Path, q: Path)
    decreases |p|
  {
    |p| > 0 && |q| > 0 && p[0] in Keys(fs) && q[0] in Keys(fs)
    && (KeyIndex(fs, p[0]) < KeyIndex(fs, q[0])
        || (p[0] == q[0] && PathBefore(AsFields(fs[KeyIndex(fs, p[0])].1), p[1..], q[1..])))
  }

  /** The walk order is asymmetric, so no path comes before itself. */
  lemma {:induction false} BeforeAsymmetric(fs: Fields, p: Path, q: Path)
    requires PathBefore(fs, p, q)
    ensures !PathBefore(fs, q, p)
    decreases |p|
  {
    if p[0] == q[0] && KeyIndex(fs, p[0]) == KeyIndex(fs, q[0]) {
      BeforeAsymmetric(AsFields(fs[KeyIndex(fs, p[0])].1), p[1..], q[1..]);
    }
  }

  /** An order among the later members holds among all of them. */
  lemma BeforeTail(fs: Fields, p: Path, q: Path)
    requires UniqueKeys(fs) && |fs| > 0 && PathBefore(fs[1..], p, q)
    ensures PathBefore(fs, p, q)
  {
    KeyIndexTail(fs, p[0]);
    KeyIndexTail(fs, q[0]);
    assert fs[KeyIndex(fs, p[0])] == fs[1..][KeyIndex(fs[1..], p[0])];
  }

  /** Two paths into the first member keep the order they have below it. */
  lemma BeforeInHead(fs: Fields, p: Path, q: Path)
    requires |fs| > 0 && |p| > 0 && |q| > 0 && p[0] == fs[0].0 && q[0] == fs[0].0
    requires PathBefore(AsFields(fs[0].1), p[1..], q[1..])
    ensures PathBefore(fs, p, q)
  {
    KeyIndexHead(fs);
  }

  /** A path into the first member comes before any path into a later one. */
  lemma BeforeAcross(fs: Fields, p: Path, q: Path)
    requires UniqueKeys(fs) && |fs| > 0 && |p| > 0 && |q| > 0
    requires p[0] == fs[0].0 && q[0] in Keys(fs[1..])
    ensures PathBefore(fs, p, q)
  {
    KeyIndexHead(fs);
    KeyIndexTail(fs, q[0]);
  }

  /** The paths one member reports enter it and follow the walk below its value. */
  lemma {:induction false} MemberInOrder(k: string, v: Json, cmp: Fields)
    requires WellFormed(v)
    ensures var h := MissingAt(k, v, cmp);
      forall a, b :: 0 <= a < b < |h| ==>
        |h[a]| > 0 && |h[b]| > 0 && h[a][0] == k && h[b][0] == k
        && PathBefore(AsFields(v), h[a][1..], h[b][1..])
    decreases Size(v), 0
  {
    if k in Keys(cmp) && v.Obj? {
      var inner := MissingIn(v.fields, AsFields(Get(cmp, k).value));
      MissingInOrder(v.fields, AsFields(Get(cmp, k).value));
      var h := PrefixAll(k, inner);
      assert MissingAt(k, v, cmp) == h;
      forall a, b | 0 <= a < b < |h|
        ensures |h[a]| > 0 && |h[b]| > 0 && h[a][0] == k && h[b][0] == k
          && PathBefore(AsFields(v), h[a][1..], h[b][1..])
      {
        assert PathBefore(v.fields, inner[a], inner[b]);
        assert h[a][1..] == inner[a] && h[b][1..] == inner[b];
      }
    }
  }

  /** Two paths the first member reports are in walk order. */
  lemma HeadPairBefore(fs: Fields, cmp: Fields, a: nat, b: nat)
    requires |fs| > 0 && WellFormed(fs[0].1)
    requires a < b < |MissingAt(fs[0].0, fs[0].1, cmp)|
    ensures PathBefore(fs, MissingAt(fs[0].0, fs[0].1, cmp)[a], MissingAt(fs[0].0, fs[0].1, cmp)[b])
    decreases FieldsSize(fs), 1
  {
    MemberInOrder(fs[0].0, fs[0].1, cmp);
    BeforeInHead(fs, MissingAt(fs[0].0, fs[0].1, cmp)[a], MissingAt(fs[0].0, fs[0].1, cmp)[b]);
  }

  /** A sequence made of two runs in walk order, the first run wholly
      before the second, is in walk order. */
  lemma ConcatBefore(fs: Fields, head: seq<Path>, rest: seq<Path>)
    requires forall a, b :: 0 <= a < b < |head| ==> PathBefore(fs, head[a], head[b])
    requires forall a, b :: 0 <= a < b < |rest| ==> PathBefore(fs, rest[a], rest[b])
    requires forall a, b :: 0 <= a < |head| && 0 <= b < |rest| ==> PathBefore(fs, head[a], rest[b])
    ensures forall a, b :: 0 <= a < b < |head + rest| ==> PathBefore(fs, (head + rest)[a], (head + rest)[b])
  {
  }

  /** Paths are reported in the depth-first pre-order of the base: member by
      member in base key order, and below a member in the order of its value. */
  lemma {:induction false} MissingInOrder(fs: Fields, cmp: Fields)
    requires WellFormed(Obj(fs))
    ensures forall a, b :: 0 <= a < b < |MissingIn(fs, cmp)| ==>
      PathBefore(fs, MissingIn(fs, cmp)[a], MissingIn(fs, cmp)[b])
    decreases FieldsSize(fs), 2
  {
    if |fs| > 0 {
      var head := MissingAt(fs[0].0, fs[0].1, cmp);
      var rest := MissingIn(fs[1..], cmp);
      UniqueTail(fs);
      assert WellFormed(Obj(fs[1..])) && WellFormed(fs[0].1);
      forall a, b | 0 <= a < b < |head|
        ensures PathBefore(fs, head[a], head[b])
      {
        HeadPairBefore(fs, cmp, a, b);
      }
      MissingInOrder(fs[1..], cmp);
      forall a, b | 0 <= a < b < |rest|
        ensures PathBefore(fs, rest[a], rest[b])
      {
        BeforeTail(fs, rest[a], rest[b]);
      }
      MemberDistinct(fs[0].0, fs[0].1, cmp);
      forall a, b | 0 <= a < |head| && 0 <= b < |rest|
        ensures PathBefore(fs, head[a], rest[b])
      {
        assert head[a] in head;
        MissingHeads(fs[1..], cmp, rest[b]);
        BeforeAcross(fs, head[a], rest[b]);
      }
      ConcatBefore(fs, head, rest);
    }
  }

  // ---------------------------------------------------------------------------
  // The report with line numbers
  // ---------------------------------------------------------------------------

  /** One row of the report: the dotted key path and its line in the base text. */
  datatype MissingKey = MissingKey(key: string, line: nat)

  /** `compareKeys`: nothing when either catalog is not loaded (or parsed to
      a falsy value); otherwise each missing path with the line where its
      last segment first appears quoted in the base text. */
  function CompareKeys(base: Option<Json>, compare: Option<Json>, baseText: string)
    : (r: Option<seq<MissingKey>>)
    ensures r.None? <==> !Truthy(base) || !Truthy(compare)
    ensures r.Some? ==> |r.value| == |Missing(base.value, compare.value)|
  {
    if !Truthy(base) || !Truthy(compare) then None
    else
      var paths := FindMissing(base.value, compare.value, "");
      var lines := Split(baseText, '\n');
      FindMissingIsJoinedPaths(base.value, compare.value);
      Some(seq(|paths|, i requires 0 <= i < |paths| =>
        MissingKey(paths[i], Locate(lines, LastPiece(paths[i], '.')))))
  }

  /** Each report row names a missing path, and when its last segment holds
      no dot, the line is the first one holding that segment in quotes. */
  lemma ReportRows(base: Json, compare: Json, baseText: string, i: nat)
    requires Truthy(Some(base)) && Truthy(Some(compare))
    requires i < |Missing(base, compare)|
    ensures var q := Missing(base, compare)[i];
      var row := CompareKeys(Some(base), Some(compare), baseText).value[i];
      && |q| > 0
      && row.key == JoinFrom("", q)
      && ('.' !in q[|q| - 1] ==> row.line == Locate(Split(baseText, '\n'), q[|q| - 1]))
  {
    var q := Missing(base, compare)[i];
    FindMissingIsJoinedPaths(base, compare);
    assert q in Missing(base, compare);
    MissingHeads(base.fields, AsFields(compare), q);
    if '.' !in q[|q| - 1] {
      LastSegment("", q);
    }
  }

  /** `{a: {b: 1}, c: 2}` against `{a: {}}` reports `a.b` and `c`. */
  lemma ExampleReport()
    ensures FindMissing(Obj([("a", Obj([("b", Num(1))])), ("c", Num(2))]),
                        Obj([("a", Obj([]))]), "") == ["a.b", "c"]
  {
    var cmp := [("a", Obj([]))];
    assert Keys(cmp) == ["a"];
    assert Get(cmp, "a") == Some(Obj([]));
    assert "c" !in Keys(cmp);
    var inner := [("b", Num(1))];
    assert inner[1..] == [];
    assert Extend("a", "b") == "a.b";
    assert TextAt("b", Num(1), [], "a") == ["a.b"];
    assert TextIn(inner, [], "a") == ["a.b"];
  }
}
