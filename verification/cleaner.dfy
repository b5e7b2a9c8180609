/**
  The catalog cleaner (src/Cleaner.tsx): every entry `key: {"en-US": value}`
  of the parsed catalog is either kept as it is or removed and reported with
  the text of its value and the line where its key first appears quoted in
  the file.

  Reading `valueObj["en-US"]` on a `null` entry throws, which aborts the whole
  run before anything is shown; `Clean` answers `None` for such a catalog.
  Any other entry reads its `en-US` member, or `undefined` when it has none
  (strings, numbers, booleans and arrays have no such member).
 */
module Cleaner {
  import opened Text
  import opened JsonTree
  import opened Seqs
  import opened LineLocator
  import opened CleanerRules

  /** One reported removal: `{ key, value: String(val), line }`. */
  datatype CleanResult = CleanResult(key: string, value: string, line: nat)

  /** The kept catalog (`cleaned`) and the removals (`deletedItems`). */
  datatype Cleaned = Cleaned(kept: Fields, deleted: seq<CleanResult>)

  /** `valueObj["en-US"]` for a non-null entry. */
  function EnUs(valueObj: Json): Option<Json> {
    Prop(valueObj, "en-US")
  }

  /** `String(val)` of an entry. */
  function ValueOf(valueObj: Json): string {
    ToText(EnUs(valueObj))
  }

  /** The decision for one entry. */
  predicate Removed(e: (string, Json)) {
    ShouldDelete(e.0, ValueOf(e.1))
  }

  /** The report row of a removed entry. */
  function Row(e: (string, Json), lines: seq<string>): CleanResult {
    CleanResult(e.0, ValueOf(e.1), Locate(lines, e.0))
  }

  predicate HasNull(entries: Fields) {
    exists i :: 0 <= i < |entries| && entries[i].1.Null?
  }

  /** The loop over `Object.entries(original)`; the keys of a parsed catalog
      are distinct, so `cleaned[key] = valueObj` appends a member. */
  function Clean(entries: Fields, lines: seq<string>): (r: Option<Cleaned>)
    ensures r.None? <==> HasNull(entries)
    ensures r.Some? ==> |r.value.kept| + |r.value.deleted| == |entries|
    ensures r.Some? ==> Subseq(r.value.kept, entries)
  {
    if |entries| == 0 then Some(Cleaned([], []))
    else if entries[0].1.Null? then
      assert HasNull(entries) by { assert entries[0].1.Null?; }
      None
    else
      assert HasNull(entries) <==> HasNull(entries[1..]) by {
        assert forall i :: 1 <= i < |entries| ==> entries[i] == entries[1..][i - 1];
      }
      match Clean(entries[1..], lines)
      case None => None
      case Some(rest) =>
        if Removed(entries[0]) then
          Some(Cleaned(rest.kept, [Row(entries[0], lines)] + rest.deleted))
        else
          Some(Cleaned([entries[0]] + rest.kept, rest.deleted))
  }

  /** One step of the loop: the first entry aborts, is kept in front, or
      is reported in front of the rest. */
  lemma CleanCons(e: (string, Json), rest: Fields, lines: seq<string>)
    ensures Clean([e] + rest, lines)
      == if e.1.Null? then None
         else match Clean(rest, lines)
           case None => None
           case Some(c) =>
             if Removed(e) then Some(Cleaned(c.kept, [Row(e, lines)] + c.deleted))
             else Some(Cleaned([e] + c.kept, c.deleted))
  {
  }

  /** `handleFileChange` after parsing: `Object.entries(null)` throws, any
      other top level is cleaned pair by pair against the lines of the text. */
  function CleanFile(original: Json, text: string): (r: Option<Cleaned>)
    ensures r.None? <==> original.Null? || HasNull(ForIn(original))
  {
    if original.Null? then None else Clean(ForIn(original), Split(text, '\n'))
  }

  /** The status line reports how many entries were removed. */
  function RemovedCount(c: Cleaned): nat {
    |c.deleted|
  }

  /** Every entry lands on exactly one side: an entry is kept exactly when
      the rule spares it, and a row is reported exactly for an entry the rule
      removes. */
  lemma {:induction false} CleanPartition(entries: Fields, lines: seq<string>)
    requires !HasNull(entries)
    ensures var c := Clean(entries, lines).value;
      && (forall e :: e in entries ==> (e in c.kept <==> !Removed(e)))
      && (forall e :: e in c.kept ==> e in entries)
      && (forall d :: d in c.deleted <==> exists e :: e in entries && Removed(e) && d == Row(e, lines))
    decreases |entries|
  {
    if |entries| > 0 {
      var tail := entries[1..];
      assert !HasNull(tail) by {
        forall i | 0 <= i < |tail|
          ensures !tail[i].1.Null?
        {
          assert tail[i] == entries[i + 1];
        }
      }
      CleanPartition(tail, lines);
      assert forall e :: e in entries <==> e == entries[0] || e in tail;
    }
  }

  /** The keys of the removal rows, in report order. */
  function RowKeys(ds: seq<CleanResult>): (ks: seq<string>)
    ensures |ks| == |ds|
  {
    if |ds| == 0 then [] else [ds[0].key] + RowKeys(ds[1..])
  }

  /** Removed rows follow the catalog order. */
  lemma {:induction false} DeletedInOrder(entries: Fields, lines: seq<string>)
    requires !HasNull(entries)
    ensures Subseq(RowKeys(Clean(entries, lines).value.deleted), Keys(entries))
    decreases |entries|
  {
    if |entries| > 0 {
      var tail := entries[1..];
      assert !HasNull(tail) by {
        forall i | 0 <= i < |tail|
          ensures !tail[i].1.Null?
        {
          assert tail[i] == entries[i + 1];
        }
      }
      DeletedInOrder(tail, lines);
      var c := Clean(entries, lines).value;
      var r := Clean(tail, lines).value;
      var ks := RowKeys(c.deleted);
      var rs := RowKeys(r.deleted);
      assert Keys(entries)[1..] == Keys(tail);
      if Removed(entries[0]) {
        assert c.deleted[1..] == r.deleted;
        assert ks == [entries[0].0] + rs;
        assert ks[1..] == rs;
      } else {
        assert c.deleted == r.deleted;
      }
    }
  }

  /** Cleaning the cleaned catalog removes nothing more. */
  lemma {:induction false} CleanIdempotent(entries: Fields, lines: seq<string>)
    requires !HasNull(entries)
    ensures var c := Clean(entries, lines).value;
      !HasNull(c.kept) && Clean(c.kept, lines) == Some(Cleaned(c.kept, []))
    decreases |entries|
  {
    if |entries| > 0 {
      var tail := entries[1..];
      assert !HasNull(tail) by {
        forall i | 0 <= i < |tail|
          ensures !tail[i].1.Null?
        {
          assert tail[i] == entries[i + 1];
        }
      }
      CleanIdempotent(tail, lines);
      var c := Clean(entries, lines).value;
      var r := Clean(tail, lines).value;
      if !Removed(entries[0]) {
        assert c.kept == [entries[0]] + r.kept;
        assert c.kept[1..] == r.kept;
        assert !HasNull(c.kept) by {
          forall i | 0 <= i < |c.kept|
            ensures !c.kept[i].1.Null?
          {
            if i > 0 {
              assert c.kept[i] == r.kept[i - 1];
            }
          }
        }
      }
    }
  }

  lemma ExampleLegalKept()
    ensures !Removed(("NJ-1234", Obj([("en-US", Str("###"))])))
  {
    assert ValueOf(Obj([("en-US", Str("###"))])) == "###";
    LegalKeyKept();
  }

  /** Whatever its value, an entry whose key is only digits is reported, on
      the line that first quotes its key. */
  lemma NumericKeysReported(entries: Fields, lines: seq<string>, e: (string, Json))
    requires !HasNull(entries) && e in entries && IsOnlyNumbers(e.0)
    ensures var c := Clean(entries, lines).value;
      e !in c.kept && CleanResult(e.0, ValueOf(e.1), Locate(lines, e.0)) in c.deleted
  {
    NumericKeyDeleted(e.0, ValueOf(e.1));
    CleanPartition(entries, lines);
  }

  /** An entry whose key holds a URL, a markdown link or a legal reference is
      always kept, whatever its value. */
  lemma ExemptKeysKept(entries: Fields, lines: seq<string>, e: (string, Json))
    requires !HasNull(entries) && e in entries
    requires ContainsUrl(e.0) || ContainsMarkdownLink(e.0) || ContainsLegalRef(e.0)
    ensures e in Clean(entries, lines).value.kept
  {
  }

  /** A `null` entry anywhere aborts the run. */
  lemma ExampleNullAborts()
    ensures Clean([("a", Obj([])), ("b", Null)], []).None?
  {
    var entries := [("a", Obj([])), ("b", Null)];
    assert entries[1].1.Null?;
  }
}
