/**
 * Python's dict with string keys, as the handler uses it: writes `d[k] = v`
 * keep the position of a key that is already present and append a new key at
 * the end, so `list(d.keys())` lists the distinct keys in first-insertion order.
 */
module PyDict {

  /** `order` is `list(d.keys())`; `entries` is the key/value mapping. */
  datatype Dict<V> = Dict(order: seq<string>, entries: map<string, V>) {

    /** The keys are listed once each, and exactly the keys of the mapping are listed. */
    ghost predicate Valid() {
      && (forall i, j :: 0 <= i < j < |order| ==> order[i] != order[j])
      && (forall k :: k in entries <==> k in order)
    }

    /** `d[k] = v`. */
    function Put(k: string, v: V): (d: Dict<V>)
      ensures Valid() ==> d.Valid()
      ensures d.entries == entries[k := v]
      ensures order <= d.order
      ensures Valid() ==> k in d.order
    {
      if k in entries then Dict(order, entries[k := v]) else Dict(order + [k], entries[k := v])
    }
  }

  /** `{}`. */
  function Empty<V>(): (d: Dict<V>)
    ensures d.Valid() && d.order == [] && d.entries == map[]
  {
    Dict([], map[])
  }

  /** True iff some write in `ws` is to key `k`. */
  predicate Written<V>(ws: seq<(string, V)>, k: string) {
    exists i :: 0 <= i < |ws| && ws[i].0 == k
  }

  /** The writes `d[k] = v` for each pair of `ws`, in order. */
  function PutAll<V>(d: Dict<V>, ws: seq<(string, V)>): Dict<V>
    decreases |ws|
  {
    if ws == [] then d else PutAll(d.Put(ws[0].0, ws[0].1), ws[1..])
  }

  lemma {:induction false} PutAllValid<V>(d: Dict<V>, ws: seq<(string, V)>)
    requires d.Valid()
    ensures PutAll(d, ws).Valid()
    ensures d.order <= PutAll(d, ws).order
    decreases |ws|
  {
    if ws != [] {
      PutAllValid(d.Put(ws[0].0, ws[0].1), ws[1..]);
    }
  }

  /** A key is present after the writes iff it was present before or was written. */
  lemma {:induction false} PutAllKeys<V>(d: Dict<V>, ws: seq<(string, V)>, k: string)
    ensures k in PutAll(d, ws).entries <==> k in d.entries || Written(ws, k)
    decreases |ws|
  {
    if ws != [] {
      PutAllKeys(d.Put(ws[0].0, ws[0].1), ws[1..], k);
      if Written(ws[1..], k) {
        var i :| 0 <= i < |ws[1..]| && ws[1..][i].0 == k;
        assert ws[i + 1].0 == k;
      }
      if Written(ws, k) && ws[0].0 != k {
        var i :| 0 <= i < |ws| && ws[i].0 == k;
        assert ws[1..][i - 1].0 == k;
      }
    }
  }

  /** The value under a written key is the one of the last write to it. */
  lemma {:induction false} PutAllLastWins<V>(d: Dict<V>, ws: seq<(string, V)>, i: nat)
    requires i < |ws|
    requires forall j :: i < j < |ws| ==> ws[j].0 != ws[i].0
    ensures ws[i].0 in PutAll(d, ws).entries
    ensures PutAll(d, ws).entries[ws[i].0] == ws[i].1
    decreases |ws|
  {
    var d' := d.Put(ws[0].0, ws[0].1);
    if i == 0 {
      PutAllUntouched(d', ws[1..], ws[0].0);
    } else {
      PutAllLastWins(d', ws[1..], i - 1);
    }
  }

  /** Keys that no write touches keep their value. */
  lemma {:induction false} PutAllUntouched<V>(d: Dict<V>, ws: seq<(string, V)>, k: string)
    requires k in d.entries
    requires forall j :: 0 <= j < |ws| ==> ws[j].0 != k
    ensures k in PutAll(d, ws).entries && PutAll(d, ws).entries[k] == d.entries[k]
    decreases |ws|
  {
    if ws != [] {
      PutAllUntouched(d.Put(ws[0].0, ws[0].1), ws[1..], k);
    }
  }

  /** Writing `a` then `b` is writing `a + b`. */
  lemma {:induction false} PutAllAppend<V>(d: Dict<V>, a: seq<(string, V)>, b: seq<(string, V)>)
    ensures PutAll(d, a + b) == PutAll(PutAll(d, a), b)
    decreases |a|
  {
    if a == [] {
      assert a + b == b;
    } else {
      assert (a + b)[1..] == a[1..] + b;
      PutAllAppend(d.Put(a[0].0, a[0].1), a[1..], b);
    }
  }

  /** Every value in the dict after the writes was there before or was written under its key. */
  lemma {:induction false} PutAllValueFrom<V>(d: Dict<V>, ws: seq<(string, V)>, k: string)
    requires k in PutAll(d, ws).entries
    ensures (k in d.entries && PutAll(d, ws).entries[k] == d.entries[k]) ||
            exists i :: 0 <= i < |ws| && ws[i] == (k, PutAll(d, ws).entries[k])
    decreases |ws|
  {
    if ws != [] {
      var d' := d.Put(ws[0].0, ws[0].1);
      PutAllValueFrom(d', ws[1..], k);
      if exists i :: 0 <= i < |ws[1..]| && ws[1..][i] == (k, PutAll(d', ws[1..]).entries[k]) {
        var i :| 0 <= i < |ws[1..]| && ws[1..][i] == (k, PutAll(d', ws[1..]).entries[k]);
        assert ws[i + 1] == (k, PutAll(d, ws).entries[k]);
      } else if k == ws[0].0 {
        assert ws[0] == (k, PutAll(d, ws).entries[k]);
      }
    }
  }
}
