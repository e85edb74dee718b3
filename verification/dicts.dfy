/**
 Python's `dict` from `str` to `str`, as the entries in insertion order: assignment
 to an existing key keeps its place, a new key goes last.
 */
module Dicts {
  import opened Results

  type Dict = seq<(string, string)>

  function Keys(d: Dict): set<string>
  {
    set p | p in d :: p.0
  }

  lemma KeysCons(p: (string, string), d: Dict)
    ensures Keys([p] + d) == {p.0} + Keys(d)
  {
    var r := [p] + d;
    forall x | x in Keys(r) ensures x in {p.0} + Keys(d) {
      var q :| q in r && q.0 == x;
      if q != p { assert q in d; }
    }
    forall x | x in Keys(d) ensures x in Keys(r) {
      var q :| q in d && q.0 == x;
      assert q in r;
    }
    assert p in r;
  }

  predicate DistinctKeys(d: Dict)
  {
    forall i, j :: 0 <= i < j < |d| ==> d[i].0 != d[j].0
  }

  /** Reading `d[k]` from a Python dict: the value stored under `k`, if any. */
  function Lookup(d: Dict, k: string): (r: Option<string>)
    ensures r.Some? <==> k in Keys(d)
    ensures r.Some? ==> (k, r.value) in d
    decreases |d|
  {
    if |d| == 0 then None
    else
      KeysCons(d[0], d[1..]);
      assert d == [d[0]] + d[1..];
      if d[0].0 == k then Some(d[0].1) else Lookup(d[1..], k)
  }

  /** `d[k] = v` on a Python dict: an existing key keeps its place and takes the new value, a new key goes last. */
  function Put(d: Dict, k: string, v: string): (r: Dict)
    ensures |r| == |d| || |r| == |d| + 1
    decreases |d|
  {
    if |d| == 0 then [(k, v)]
    else if d[0].0 == k then [(k, v)] + d[1..]
    else [d[0]] + Put(d[1..], k, v)
  }

  /** After `d[k] = v`, `d[k]` reads `v`. */
  lemma {:induction false} PutLookup(d: Dict, k: string, v: string)
    ensures Lookup(Put(d, k, v), k) == Some(v)
    decreases |d|
  {
    if |d| > 0 && d[0].0 != k {
      PutLookup(d[1..], k, v);
      assert Put(d, k, v)[1..] == Put(d[1..], k, v);
    }
  }

  /** `d[k] = v` leaves every other key's value alone. */
  lemma {:induction false} PutLookupOther(d: Dict, k: string, v: string, j: string)
    requires j != k
    ensures Lookup(Put(d, k, v), j) == Lookup(d, j)
    decreases |d|
  {
    if |d| > 0 {
      PutLookupOther(d[1..], k, v, j);
      assert Put(d, k, v)[1..] == (if d[0].0 == k then d[1..] else Put(d[1..], k, v));
    }
  }

  /** `d[k] = v` adds `k` to the keys and no other. */
  lemma {:induction false} PutKeys(d: Dict, k: string, v: string)
    ensures Keys(Put(d, k, v)) == Keys(d) + {k}
    decreases |d|
  {
    if |d| == 0 {
      assert Keys([(k, v)]) == {k} by { KeysCons((k, v), []); }
    } else {
      assert d == [d[0]] + d[1..];
      KeysCons(d[0], d[1..]);
      if d[0].0 == k {
        KeysCons((k, v), d[1..]);
      } else {
        PutKeys(d[1..], k, v);
        KeysCons(d[0], Put(d[1..], k, v));
      }
    }
  }

  /** A new key is appended: the dict keeps insertion order. */
  lemma {:induction false} PutFresh(d: Dict, k: string, v: string)
    requires k !in Keys(d)
    ensures Put(d, k, v) == d + [(k, v)]
    decreases |d|
  {
    if |d| > 0 {
      KeysCons(d[0], d[1..]);
      assert d == [d[0]] + d[1..];
      PutFresh(d[1..], k, v);
    }
  }

  /** Assignment never creates a second entry for a key. */
  lemma {:induction false} PutDistinct(d: Dict, k: string, v: string)
    requires DistinctKeys(d)
    ensures DistinctKeys(Put(d, k, v))
    decreases |d|
  {
    if |d| > 0 {
      DistinctTail(d);
      if d[0].0 != k {
        PutDistinct(d[1..], k, v);
        PutKeys(d[1..], k, v);
        DistinctCons(d[0], Put(d[1..], k, v));
      } else {
        DistinctCons((k, v), d[1..]);
      }
    }
  }

  lemma DistinctTail(d: Dict)
    requires |d| > 0 && DistinctKeys(d)
    ensures DistinctKeys(d[1..]) && d[0].0 !in Keys(d[1..])
  {
    forall i, j | 0 <= i < j < |d[1..]| ensures d[1..][i].0 != d[1..][j].0 {
      assert d[1..][i] == d[i + 1] && d[1..][j] == d[j + 1];
    }
  }

  lemma DistinctCons(p: (string, string), rest: Dict)
    requires DistinctKeys(rest) && p.0 !in Keys(rest)
    ensures DistinctKeys([p] + rest)
  {
    var d := [p] + rest;
    forall i, j | 0 <= i < j < |d| ensures d[i].0 != d[j].0 {
      assert d[j] == rest[j - 1];
      if i == 0 {
        assert rest[j - 1] in rest;
      } else {
        assert d[i] == rest[i - 1];
      }
    }
  }

  lemma KeysAppend(d: Dict, p: (string, string))
    ensures Keys(d + [p]) == Keys(d) + {p.0}
  {
    var r := d + [p];
    forall x | x in Keys(r) ensures x in Keys(d) + {p.0} {
      var q :| q in r && q.0 == x;
      if q != p { assert q in d; }
    }
    forall x | x in Keys(d) ensures x in Keys(r) {
      var q :| q in d && q.0 == x;
      assert q in r;
    }
    assert p in r;
  }
}
