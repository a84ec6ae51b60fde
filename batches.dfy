/**
 * The handler's batched lookups: `for i in range(0, len(ids), size)` over the
 * slices `ids[i:i + size]`, each slice sent to a describe call whose reply is
 * merged into a dict.
 */
module Batches {
  import opened PyDict

  function Min(a: int, b: int): int {
    if a < b then a else b
  }

  function Flatten<T>(ss: seq<seq<T>>): seq<T>
    decreases |ss|
  {
    if ss == [] then [] else ss[0] + Flatten(ss[1..])
  }

  /** The slices `s[i:i + size]` for `i` in `range(0, len(s), size)`, in order. */
  function Chunks<T>(s: seq<T>, size: nat): seq<seq<T>>
    requires size > 0
    decreases |s|
  {
    if s == [] then [] else [s[..Min(size, |s|)]] + Chunks(s[Min(size, |s|)..], size)
  }

  /** The chunks, laid end to end, give back the list. */
  lemma {:induction false} ChunksConcat<T>(s: seq<T>, size: nat)
    requires size > 0
    ensures Flatten(Chunks(s, size)) == s
    decreases |s|
  {
    if s != [] {
      var n := Min(size, |s|);
      ChunksConcat(s[n..], size);
      assert s == s[..n] + s[n..];
    }
  }

  /** Every chunk is non-empty and holds at most `size` ids. */
  lemma {:induction false} ChunksSizes<T>(s: seq<T>, size: nat)
    requires size > 0
    ensures forall k :: 0 <= k < |Chunks(s, size)| ==> 0 < |Chunks(s, size)[k]| <= size
    decreases |s|
  {
    if s != [] {
      var n := Min(size, |s|);
      ChunksSizes(s[n..], size);
      var cs := Chunks(s, size);
      forall k | 0 <= k < |cs|
        ensures 0 < |cs[k]| <= size
      {
        if k > 0 {
          assert cs[k] == Chunks(s[n..], size)[k - 1];
        }
      }
    }
  }

  /**
   * There are ceil(len(s) / size) chunks, hence that many describe calls: the
   * least count whose chunks of `size` cover the list.
   */
  lemma {:induction false} ChunksCount<T>(s: seq<T>, size: nat)
    requires size > 0
    ensures s == [] ==> |Chunks(s, size)| == 0
    ensures s != [] ==> (|Chunks(s, size)| - 1) * size < |s| <= |Chunks(s, size)| * size
    decreases |s|
  {
    if |s| > size {
      var c := |Chunks(s[size..], size)|;
      ChunksCount(s[size..], size);
      assert (c + 1) * size == c * size + size;
      assert (c + 1 - 1) * size == (c - 1) * size + size;
    }
  }

  /** The first chunk of the ids from position `i` on is the slice `s[i:i + size]`. */
  lemma ChunksFrom<T>(s: seq<T>, size: nat, i: nat)
    requires size > 0 && i < |s|
    ensures Chunks(s[i..], size) == [s[i..Min(i + size, |s|)]] + Chunks(s[Min(i + size, |s|)..], size)
  {
    var n := Min(size, |s| - i);
    assert s[i..][..n] == s[i..i + n];
    assert s[i..][n..] == s[i + n..];
  }

  /** Merges the reply to each chunk into `d`, chunk after chunk. */
  function FoldChunks<V>(d: Dict<V>, cs: seq<seq<string>>, writes: seq<string> -> seq<(string, V)>): Dict<V>
    decreases |cs|
  {
    if cs == [] then d else FoldChunks(PutAll(d, writes(cs[0])), cs[1..], writes)
  }

  /**
   * A key ends up in the merged dict iff it was there before or the reply to
   * some chunk wrote it; a chunk whose reply writes nothing does not stop the
   * later chunks; and the key list stays duplicate-free.
   */
  lemma {:induction false} FoldChunksKeys<V>(d: Dict<V>, cs: seq<seq<string>>, writes: seq<string> -> seq<(string, V)>, k: string)
    requires d.Valid()
    ensures FoldChunks(d, cs, writes).Valid()
    ensures k in FoldChunks(d, cs, writes).entries <==>
              k in d.entries || exists c :: 0 <= c < |cs| && Written(writes(cs[c]), k)
    decreases |cs|
  {
    if cs != [] {
      var d' := PutAll(d, writes(cs[0]));
      PutAllValid(d, writes(cs[0]));
      PutAllKeys(d, writes(cs[0]), k);
      FoldChunksKeys(d', cs[1..], writes, k);
      if exists c :: 0 <= c < |cs[1..]| && Written(writes(cs[1..][c]), k) {
        var c :| 0 <= c < |cs[1..]| && Written(writes(cs[1..][c]), k);
        assert Written(writes(cs[c + 1]), k);
      }
      if exists c :: 0 <= c < |cs| && Written(writes(cs[c]), k) {
        var c :| 0 <= c < |cs| && Written(writes(cs[c]), k);
        if c > 0 {
          assert Written(writes(cs[1..][c - 1]), k);
        }
      }
    }
  }

  /** Every value in the merged dict was there before or was written under its key by the reply to some chunk. */
  lemma {:induction false} FoldChunksValues<V>(d: Dict<V>, cs: seq<seq<string>>, writes: seq<string> -> seq<(string, V)>, k: string)
    requires k in FoldChunks(d, cs, writes).entries
    ensures (k in d.entries && FoldChunks(d, cs, writes).entries[k] == d.entries[k]) ||
            exists c, i :: 0 <= c < |cs| && 0 <= i < |writes(cs[c])| && writes(cs[c])[i] == (k, FoldChunks(d, cs, writes).entries[k])
    decreases |cs|
  {
    if cs != [] {
      var d' := PutAll(d, writes(cs[0]));
      var v := FoldChunks(d, cs, writes).entries[k];
      FoldChunksValues(d', cs[1..], writes, k);
      if exists c, i :: 0 <= c < |cs[1..]| && 0 <= i < |writes(cs[1..][c])| && writes(cs[1..][c])[i] == (k, v) {
        var c, i :| 0 <= c < |cs[1..]| && 0 <= i < |writes(cs[1..][c])| && writes(cs[1..][c])[i] == (k, v);
        assert writes(cs[c + 1])[i] == (k, v);
      } else {
        PutAllValueFrom(d, writes(cs[0]), k);
        if !(k in d.entries && d'.entries[k] == d.entries[k]) {
          var i :| 0 <= i < |writes(cs[0])| && writes(cs[0])[i] == (k, v);
          assert 0 <= 0 < |cs| && writes(cs[0])[i] == (k, v);
        }
      }
    }
  }
}
