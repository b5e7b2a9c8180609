/**
  The "insert only missing keys" merge of the hard-coded catalog screen
  (`mergeOnlyMissing` in src/MergeJSON.tsx).

  The base catalog is deep-cloned (the clone is the identity on immutable
  values) and the insert catalog is walked member by member:
  - an insert object forces an object at its key, replacing whatever
    non-object the target holds there (string, number, boolean, null or
    array) by `{}`, and the walk continues inside it;
  - an insert leaf is written only when the key is absent from the target.
  So a base leaf is lost exactly where the insert holds an object at the same
  path; everywhere else the base wins.
 */
module MergeJson {
  import opened JsonTree

  /** The members of an object found at a key; anything else reads as `{}`. */
  function ObjFields(o: Option<Json>): Fields {
    match o
    case Some(Obj(fs)) => fs
    case _ => []
  }

  /** The inner `merge(target, source)`: visit the source members in order. */
  function MergeFields(target: Fields, source: Fields): Fields
    decreases FieldsSize(source), 1
  {
    if |source| == 0 then target
    else MergeFields(MergeMember(target, source[0].0, source[0].1), source[1..])
  }

  /** One iteration of the loop of `merge`, for the source member `k: v`. */
  function MergeMember(target: Fields, k: string, v: Json): Fields
    decreases Size(v), 0
  {
    if v.Obj? then
      // a non-object (or missing) target value is replaced by {} first
      Put(target, k, Obj(MergeFields(ObjFields(Get(target, k)), v.fields)))
    else if k in Keys(target) then target
    else Put(target, k, v)
  }

  /** `mergeOnlyMissing(base, insert)`. Base keys keep their positions (also
      those whose value was replaced by `{}`); keys new to the base follow, in
      the order the insert first lists them. */
  function MergeOnlyMissing(base: Fields, insert: Fields): (r: Fields)
    ensures Keys(r) == Keys(base) + Fresh(Keys(insert), Keys(base))
  {
    MergeKeys(base, insert);
    MergeFields(base, insert)
  }

  /** What key `k` holds after merging the insert value `v` into a target
      that held `prior` there. */
  function MergedValue(prior: Option<Json>, v: Json): Json {
    if v.Obj? then Obj(MergeFields(ObjFields(prior), v.fields))
    else if prior.Some? then prior.value
    else v
  }

  // ---------------------------------------------------------------------------
  // One level: keys and values
  // ---------------------------------------------------------------------------

  lemma {:induction false} MergeKeys(t: Fields, s: Fields)
    ensures Keys(MergeFields(t, s)) == Keys(t) + Fresh(Keys(s), Keys(t))
    decreases |s|
  {
    if |s| > 0 {
      var t1 := MergeMember(t, s[0].0, s[0].1);
      MergeKeys(t1, s[1..]);
      assert Keys(s) == [s[0].0] + Keys(s[1..]);
    }
  }

  lemma MemberGet(t: Fields, k: string, v: Json)
    ensures forall k' :: Get(MergeMember(t, k, v), k')
                         == (if k' == k then Some(MergedValue(Get(t, k), v)) else Get(t, k'))
  {
    forall k'
      ensures Get(MergeMember(t, k, v), k')
              == (if k' == k then Some(MergedValue(Get(t, k), v)) else Get(t, k'))
    {
      MemberGetAt(t, k, v, k');
    }
  }

  /** `MemberGet` at one key. */
  lemma MemberGetAt(t: Fields, k: string, v: Json, k': string)
    ensures Get(MergeMember(t, k, v), k')
            == (if k' == k then Some(MergedValue(Get(t, k), v)) else Get(t, k'))
  {
    if v.Obj? || k !in Keys(t) {
      var nv := MergedValue(Get(t, k), v);
      assert MergeMember(t, k, v) == Put(t, k, nv);
      if k' == k {
        GetPutSame(t, k, nv);
      } else {
        GetPutOther(t, k, nv, k');
      }
    }
  }

  /** The value every key holds after the merge, one level down: keys the
      insert does not mention keep their value; an insert leaf leaves a
      present key untouched, whatever it holds, and fills an absent one; an
      insert object yields an object merged from the target's object there
      (or from `{}`). */
  lemma {:induction false} MergeGet(t: Fields, s: Fields, k: string)
    requires UniqueKeys(s)
    ensures Get(MergeFields(t, s), k)
      == match Get(s, k)
         case None => Get(t, k)
         case Some(v) => Some(MergedValue(Get(t, k), v))
    decreases |s|
  {
    if |s| > 0 {
      var t1 := MergeMember(t, s[0].0, s[0].1);
      UniqueTail(s);
      MemberGetAt(t, s[0].0, s[0].1, k);
      MergeGet(t1, s[1..], k);
    }
  }

  // ---------------------------------------------------------------------------
  // Coverage: one tree has every key path of another, with objects where
  // the other has objects
  // ---------------------------------------------------------------------------

  /** `t` covers `s`: every member key of `s` is present in `t` at the same
      place, and wherever `s` holds an object, so does `t`. */
  predicate Covers(t: Json, s: Json)
    decreases s
  {
    s.Obj? ==>
      && t.Obj?
      && forall i :: 0 <= i < |s.fields| ==>
           && Get(t.fields, s.fields[i].0).Some?
           && Covers(Get(t.fields, s.fields[i].0).value, s.fields[i].1)
  }

  /** A well-formed tree covers itself. */
  lemma {:induction false} CoversRefl(j: Json)
    requires WellFormed(j)
    ensures Covers(j, j)
    decreases j
  {
    if j.Obj? {
      forall i | 0 <= i < |j.fields|
        ensures Get(j.fields, j.fields[i].0).Some?
        ensures Covers(Get(j.fields, j.fields[i].0).value, j.fields[i].1)
      {
        GetUnique(j.fields, i);
        CoversRefl(j.fields[i].1);
      }
    }
  }

  /** Merging more into a target never uncovers what it covered. */
  lemma {:induction false} FieldsPreserveCovers(t: Fields, s: Fields, c: Json)
    requires Covers(Obj(t), c)
    ensures Covers(Obj(MergeFields(t, s)), c)
    decreases FieldsSize(s), 1
  {
    if |s| > 0 {
      MemberPreservesCovers(t, s[0].0, s[0].1, c);
      FieldsPreserveCovers(MergeMember(t, s[0].0, s[0].1), s[1..], c);
    }
  }

  lemma {:induction false} MemberPreservesCovers(t: Fields, k: string, v: Json, c: Json)
    requires Covers(Obj(t), c)
    ensures Covers(Obj(MergeMember(t, k, v)), c)
    decreases Size(v), 0
  {
    var t1 := MergeMember(t, k, v);
    MemberGet(t, k, v);
    if c.Obj? {
      forall i | 0 <= i < |c.fields|
        ensures Get(t1, c.fields[i].0).Some?
        ensures Covers(Get(t1, c.fields[i].0).value, c.fields[i].1)
      {
        var prior := Get(t, c.fields[i].0);
        if c.fields[i].0 == k && v.Obj? && c.fields[i].1.Obj? {
          FieldsPreserveCovers(prior.value.fields, v.fields, c.fields[i].1);
        }
      }
    }
  }

  /** The merge result covers the insert: every insert key path is present,
      and every insert object is an object in the result. */
  lemma {:induction false} MergeCoversInsert(t: Fields, s: Fields)
    ensures Covers(Obj(MergeFields(t, s)), Obj(s))
    decreases FieldsSize(s), 1
  {
    if |s| > 0 {
      var t1 := MergeMember(t, s[0].0, s[0].1);
      var r := MergeFields(t1, s[1..]);
      MemberCoversHead(t, s[0].0, s[0].1);
      SingleCovers(t1, s[0]);
      FieldsPreserveCovers(t1, s[1..], Obj([s[0]]));
      SingleCovered(r, s[0]);
      MergeCoversInsert(t1, s[1..]);
      CoversCons(r, s);
    }
  }

  /** After merging the member `k: v`, the target holds at `k` a value that
      covers `v`. */
  lemma {:induction false} MemberCoversHead(t: Fields, k: string, v: Json)
    ensures Get(MergeMember(t, k, v), k).Some?
    ensures Covers(Get(MergeMember(t, k, v), k).value, v)
    decreases Size(v), 0
  {
    MemberGetAt(t, k, v, k);
    if v.Obj? {
      MergeCoversInsert(ObjFields(Get(t, k)), v.fields);
    }
  }

  /** Covering a one-member tree is covering its member. */
  lemma SingleCovered(r: Fields, x: (string, Json))
    requires Covers(Obj(r), Obj([x]))
    ensures Get(r, x.0).Some? && Covers(Get(r, x.0).value, x.1)
  {
    assert [x][0] == x;
  }

  /** A target holding a value that covers a member covers the one-member
      tree of that member. */
  lemma SingleCovers(r: Fields, x: (string, Json))
    ensures Get(r, x.0).Some? && Covers(Get(r, x.0).value, x.1) ==> Covers(Obj(r), Obj([x]))
  {
    assert [x][0] == x;
  }

  /** Covering the first member and the rest is covering the whole. */
  lemma CoversCons(r: Fields, s: Fields)
    requires |s| > 0 && Get(r, s[0].0).Some? && Covers(Get(r, s[0].0).value, s[0].1)
    requires Covers(Obj(r), Obj(s[1..]))
    ensures Covers(Obj(r), Obj(s))
  {
    forall i | 0 < i < |s|
      ensures Get(r, s[i].0).Some? && Covers(Get(r, s[i].0).value, s[i].1)
    {
      assert s[i] == s[1..][i - 1];
    }
  }

  /** Dropping the first member of a covered tree leaves it covered. */
  lemma CoversTail(t: Fields, s: Fields)
    requires |s| > 0 && Covers(Obj(t), Obj(s))
    ensures Get(t, s[0].0).Some? && Covers(Get(t, s[0].0).value, s[0].1)
    ensures Covers(Obj(t), Obj(s[1..]))
  {
    forall i | 0 <= i < |s[1..]|
      ensures Get(t, s[1..][i].0).Some? && Covers(Get(t, s[1..][i].0).value, s[1..][i].1)
    {
      assert s[1..][i] == s[i + 1];
    }
  }

  /** Merging a member the target already covers changes nothing. */
  lemma {:induction false} MemberFixpoint(t: Fields, k: string, v: Json)
    requires Get(t, k).Some? && Covers(Get(t, k).value, v)
    ensures MergeMember(t, k, v) == t
    decreases Size(v), 0
  {
    var w := Get(t, k).value;
    if v.Obj? {
      assert w.Obj? && ObjFields(Get(t, k)) == w.fields;
      MergeFixpoint(w.fields, v.fields);
      assert Obj(w.fields) == w;
      PutSame(t, k);
    } else {
      assert k in Keys(t);
    }
  }

  /** Merging a tree the target already covers changes nothing. */
  lemma {:induction false} MergeFixpoint(t: Fields, s: Fields)
    requires Covers(Obj(t), Obj(s))
    ensures MergeFields(t, s) == t
    decreases FieldsSize(s), 1
  {
    if |s| > 0 {
      CoversTail(t, s);
      MemberFixpoint(t, s[0].0, s[0].1);
      MergeFixpoint(t, s[1..]);
    }
  }

  /** Merging into a catalog that has none of the insert's keys appends the
      insert as it is. */
  lemma {:induction false} MergeIntoFresh(t: Fields, s: Fields)
    requires WellFormed(Obj(s))
    requires forall i :: 0 <= i < |s| ==> s[i].0 !in Keys(t)
    ensures MergeFields(t, s) == t + s
    decreases FieldsSize(s)
  {
    if |s| > 0 {
      var (k, v) := s[0];
      var t1 := t + [s[0]];
      assert k !in Keys(t);
      if v.Obj? {
        assert WellFormed(v);
        MergeIntoFresh([], v.fields);
        assert ObjFields(Get(t, k)) == [];
        assert [] + v.fields == v.fields;
        assert Obj(v.fields) == v;
        assert MergeMember(t, k, v) == Put(t, k, v);
      }
      PutFresh(t, k, v);
      assert MergeMember(t, k, v) == t1;
      UniqueTail(s);
      assert WellFormed(Obj(s[1..])) by {
        forall i | 0 <= i < |s[1..]| ensures WellFormed(s[1..][i].1) {
          assert s[1..][i] == s[i + 1];
        }
      }
      forall i | 0 <= i < |s[1..]| ensures s[1..][i].0 !in Keys(t1) {
        assert s[1..][i] == s[i + 1];
        assert Keys(t1) == Keys(t) + [k];
      }
      MergeIntoFresh(t1, s[1..]);
      AppendHead(t, s);
    }
  }

  lemma AppendHead<T>(a: seq<T>, s: seq<T>)
    requires |s| > 0
    ensures (a + [s[0]]) + s[1..] == a + s
  {
    assert s == [s[0]] + s[1..];
  }

  // ---------------------------------------------------------------------------
  // Whole-tree properties
  // ---------------------------------------------------------------------------

  /** Merging an empty insert, or a catalog into itself, returns the base. */
  lemma MergeNeutral(b: Fields)
    requires WellFormed(Obj(b))
    ensures MergeOnlyMissing(b, []) == b
    ensures MergeOnlyMissing(b, b) == b
  {
    CoversRefl(Obj(b));
    MergeFixpoint(b, b);
  }

  /** Merging the same insert twice is the same as merging it once. */
  lemma MergeIdempotent(b: Fields, i: Fields)
    ensures MergeOnlyMissing(MergeOnlyMissing(b, i), i) == MergeOnlyMissing(b, i)
  {
    MergeCoversInsert(b, i);
    MergeFixpoint(MergeFields(b, i), i);
  }

  lemma GetWellFormed(fs: Fields, k: string)
    requires WellFormed(Obj(fs)) && Get(fs, k).Some?
    ensures WellFormed(Get(fs, k).value)
  {
    var i: nat :| FirstAt(fs, k, i) && fs[i].1 == Get(fs, k).value;
  }

  /** No base key path is lost, and base objects stay objects. */
  lemma {:induction false} BasePathsSurvive(t: Fields, s: Fields, p: seq<string>)
    requires WellFormed(Obj(s))
    requires Resolve(Obj(t), p).Some?
    ensures Resolve(Obj(MergeFields(t, s)), p).Some?
    ensures Resolve(Obj(t), p).value.Obj? ==> Resolve(Obj(MergeFields(t, s)), p).value.Obj?
    decreases |p|
  {
    if |p| > 0 {
      var k := p[0];
      var m := MergeFields(t, s);
      var c := Get(t, k).value;
      assert Resolve(Obj(t), p) == Resolve(c, p[1..]);
      MergeGet(t, s, k);
      match Get(s, k)
      case None =>
        assert Resolve(Obj(m), p) == Resolve(c, p[1..]);
      case Some(w) =>
        var mv := MergedValue(Some(c), w);
        assert Resolve(Obj(m), p) == Resolve(mv, p[1..]);
        if w.Obj? && |p| > 1 {
          assert c.Obj? && Obj(c.fields) == c;
          assert mv == Obj(MergeFields(c.fields, w.fields));
          GetWellFormed(s, k);
          BasePathsSurvive(c.fields, w.fields, p[1..]);
        } else if !w.Obj? {
          assert mv == c;
        }
    }
  }

  /** A base leaf keeps its value wherever the insert holds no object at its path. */
  lemma {:induction false} BaseLeafSurvives(t: Fields, s: Fields, p: seq<string>)
    requires WellFormed(Obj(s))
    requires Resolve(Obj(t), p).Some? && !Resolve(Obj(t), p).value.Obj?
    requires !(Resolve(Obj(s), p).Some? && Resolve(Obj(s), p).value.Obj?)
    ensures Resolve(Obj(MergeFields(t, s)), p) == Resolve(Obj(t), p)
    decreases |p|, 1
  {
    var k := p[0];
    var m := MergeFields(t, s);
    ResolveObj(t, p);
    ResolveObj(m, p);
    MergeGet(t, s, k);
    if Get(s, k).Some? && Get(s, k).value.Obj? {
      BaseLeafBelowObject(t, s, p);
    }
  }

  /** The case of `BaseLeafSurvives` where the insert holds an object at the
      first key of the path: the merge goes on inside it. */
  lemma {:induction false} BaseLeafBelowObject(t: Fields, s: Fields, p: seq<string>)
    requires WellFormed(Obj(s))
    requires Resolve(Obj(t), p).Some? && !Resolve(Obj(t), p).value.Obj?
    requires !(Resolve(Obj(s), p).Some? && Resolve(Obj(s), p).value.Obj?)
    requires |p| > 0 && Get(s, p[0]).Some? && Get(s, p[0]).value.Obj?
    ensures Resolve(Obj(MergeFields(t, s)), p) == Resolve(Obj(t), p)
    decreases |p|, 0
  {
    var k := p[0];
    var m := MergeFields(t, s);
    var c := Get(t, k).value;
    var w := Get(s, k).value;
    ResolveObj(t, p);
    ResolveObj(s, p);
    ResolveObj(m, p);
    MergeGet(t, s, k);
    assert |p| > 1 && c.Obj?;
    GetWellFormed(s, k);
    assert Obj(c.fields) == c && Obj(w.fields) == w;
    BaseLeafSurvives(c.fields, w.fields, p[1..]);
  }

  /** Where the base has no value at a path of the insert, or has a
      non-object where the insert has an object, the result holds the
      insert's value there. This gives completeness (every insert leaf whose
      path is absent from the base arrives with the insert's value) and says
      which base leaves are discarded. */
  lemma {:induction false} InsertWins(t: Fields, s: Fields, p: seq<string>)
    requires WellFormed(Obj(s))
    requires Resolve(Obj(s), p).Some?
    requires Resolve(Obj(t), p).None?
             || (Resolve(Obj(s), p).value.Obj? && !Resolve(Obj(t), p).value.Obj?)
    ensures Resolve(Obj(MergeFields(t, s)), p) == Resolve(Obj(s), p)
    decreases |p|
  {
    var k := p[0];
    var m := MergeFields(t, s);
    var w := Get(s, k).value;
    assert Resolve(Obj(s), p) == Resolve(w, p[1..]);
    MergeGet(t, s, k);
    GetWellFormed(s, k);
    var t' := ObjFields(Get(t, k));
    if |p| == 1 {
      if w.Obj? {
        assert t' == [];
        MergeIntoFresh([], w.fields);
        assert [] + w.fields == w.fields;
        assert Get(m, k) == Some(w);
      } else {
        assert Get(t, k).None?;
        assert Get(m, k) == Some(w);
      }
    } else {
      assert w.Obj?;
      assert Get(m, k) == Some(Obj(MergeFields(t', w.fields)));
      assert Obj(w.fields) == w;
      if Get(t, k).Some? && Get(t, k).value.Obj? {
        assert Resolve(Obj(t'), p[1..]) == Resolve(Obj(t), p);
      } else {
        assert Resolve(Obj(t'), p[1..]).None?;
      }
      InsertWins(t', w.fields, p[1..]);
    }
  }

  /** Every path at which the insert holds an object is an object in the result. */
  lemma {:induction false} InsertObjectsForced(t: Fields, s: Fields, p: seq<string>)
    requires WellFormed(Obj(s))
    requires Resolve(Obj(s), p).Some? && Resolve(Obj(s), p).value.Obj?
    ensures Resolve(Obj(MergeFields(t, s)), p).Some?
    ensures Resolve(Obj(MergeFields(t, s)), p).value.Obj?
    decreases |p|
  {
    if |p| > 0 {
      var k := p[0];
      var w := Get(s, k).value;
      MergeGet(t, s, k);
      GetWellFormed(s, k);
      InsertObjectsForced(ObjFields(Get(t, k)), w.fields, p[1..]);
    }
  }

  // ---------------------------------------------------------------------------
  // Worked examples
  // ---------------------------------------------------------------------------

  /** `{"a": "1"}` merged with `{"a": "2", "b": "3"}` is `{"a": "1", "b": "3"}`. */
  lemma ExampleKeepsBase()
    ensures MergeOnlyMissing([("a", Str("1"))], [("a", Str("2")), ("b", Str("3"))])
            == [("a", Str("1")), ("b", Str("3"))]
  {
  }

  /** A base leaf under a key where the insert has an object is discarded:
      `{"a": "x"}` merged with `{"a": {"b": "y"}}` is `{"a": {"b": "y"}}`. */
  lemma ExampleLeafReplaced()
    ensures MergeOnlyMissing([("a", Str("x"))], [("a", Obj([("b", Str("y"))]))])
            == [("a", Obj([("b", Str("y"))]))]
  {
  }
}
