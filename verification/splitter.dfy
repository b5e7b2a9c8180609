/**
  The catalog splitter (src/Splitter.tsx): the entries of a parsed catalog
  are cut, in order, into consecutive blocks of 50, and block `i` (counting
  from 0) is offered as `split-part-<i + 1>.json`. An empty catalog yields no
  blocks; `Object.entries(null)` throws, which yields `None` here.
 */
module Splitter {
  import opened Text
  import opened JsonTree

  const ChunkSize: nat := 50

  /** One offered file: its name and the entries `Object.fromEntries` turns
      into its object. */
  datatype Chunk = Chunk(name: string, entries: Fields)

  /** `split-part-${i + 1}.json` for the block numbered `n = i + 1`. */
  function PartName(n: nat): string {
    "split-part-" + Decimal(n) + ".json"
  }

  /** The entries of the blocks, one block after the other. */
  function Flatten(chunks: seq<Chunk>): Fields {
    if |chunks| == 0 then [] else chunks[0].entries + Flatten(chunks[1..])
  }

  lemma {:induction false} FlattenSnoc(chunks: seq<Chunk>, c: Chunk)
    ensures Flatten(chunks + [c]) == Flatten(chunks) + c.entries
    decreases |chunks|
  {
    if |chunks| == 0 {
      assert [] + [c] == [c];
      assert [c][1..] == [];
    } else {
      assert (chunks + [c])[1..] == chunks[1..] + [c];
      FlattenSnoc(chunks[1..], c);
    }
  }

  /** Where block `i` of `n` entries starts and ends, for a block that
      exists: it is not empty, and only the last one is short. */
  lemma BlockBounds(n: nat, i: nat)
    requires i < (n + 49) / 50
    ensures 50 * i < n
    ensures i < (n + 49) / 50 - 1 ==> 50 * i + 50 <= n
  {
  }

  /** Every block holds 1 to 50 entries, and all but the last of `total`
      blocks hold exactly 50. */
  predicate SizesOk(chunks: seq<Chunk>, total: nat) {
    forall j :: 0 <= j < |chunks| ==>
      0 < |chunks[j].entries| <= ChunkSize && (j < total - 1 ==> |chunks[j].entries| == ChunkSize)
  }

  /** Block `j` is offered under the number `j + 1`. */
  predicate NamesOk(chunks: seq<Chunk>) {
    forall j :: 0 <= j < |chunks| ==> chunks[j].name == PartName(j + 1)
  }

  lemma SizesSnoc(chunks: seq<Chunk>, c: Chunk, total: nat)
    requires SizesOk(chunks, total)
    requires 0 < |c.entries| <= ChunkSize && (|chunks| < total - 1 ==> |c.entries| == ChunkSize)
    ensures SizesOk(chunks + [c], total)
  {
    assert forall j :: 0 <= j < |chunks| ==> (chunks + [c])[j] == chunks[j];
  }

  lemma NamesSnoc(chunks: seq<Chunk>, c: Chunk)
    requires NamesOk(chunks) && c.name == PartName(|chunks| + 1)
    ensures NamesOk(chunks + [c])
  {
    assert forall j :: 0 <= j < |chunks| ==> (chunks + [c])[j] == chunks[j];
  }

  /** The loop over `totalChunks` blocks of the entries. */
  method CutBlocks(entries: Fields) returns (chunks: seq<Chunk>)
    ensures |chunks| == (|entries| + ChunkSize - 1) / ChunkSize
    ensures Flatten(chunks) == entries
    ensures SizesOk(chunks, |chunks|)
    ensures NamesOk(chunks)
  {
    var n := |entries|;
    var totalChunks := (n + 49) / 50;
    chunks := [];
    var i := 0;
    while i < totalChunks
      invariant 0 <= i <= totalChunks
      invariant |chunks| == i
      invariant Flatten(chunks) == entries[..if 50 * i <= n then 50 * i else n]
      invariant SizesOk(chunks, totalChunks)
      invariant NamesOk(chunks)
    {
      BlockBounds(n, i);
      var lo := 50 * i;
      var hi := if lo + 50 <= n then lo + 50 else n;
      var c := Chunk(PartName(i + 1), entries[lo..hi]);
      FlattenSnoc(chunks, c);
      SizesSnoc(chunks, c, totalChunks);
      NamesSnoc(chunks, c);
      assert entries[..lo] + c.entries == entries[..hi];
      chunks := chunks + [c];
      i := i + 1;
    }
    assert entries[..n] == entries;
  }

  /** `handleFileChange` after parsing: `Object.entries(null)` throws, and an
      empty catalog offers no block. */
  method SplitCatalog(parsed: Json) returns (r: Option<seq<Chunk>>)
    ensures r.None? <==> parsed.Null?
    ensures r.Some? ==> |r.value| == (|ForIn(parsed)| + ChunkSize - 1) / ChunkSize
    ensures r.Some? ==> Flatten(r.value) == ForIn(parsed)
    ensures r.Some? ==> SizesOk(r.value, |r.value|) && NamesOk(r.value)
  {
    if parsed.Null? {
      return None;
    }
    var entries := ForIn(parsed);
    if |entries| == 0 {
      return Some([]);
    }
    var chunks := CutBlocks(entries);
    return Some(chunks);
  }

  /** The offered names are pairwise distinct. */
  lemma PartNamesDistinct(m: nat, n: nat)
    requires PartName(m) == PartName(n)
    ensures m == n
  {
    var prefix := "split-part-";
    var a := PartName(m);
    var da := Decimal(m);
    var db := Decimal(n);
    assert |da| == |db| by {
      assert |a| == |prefix| + |da| + 5 == |prefix| + |db| + 5;
    }
    assert a[|prefix|..|prefix| + |da|] == da;
    assert PartName(n)[|prefix|..|prefix| + |db|] == db;
    DecimalInjective(m, n);
  }
}
