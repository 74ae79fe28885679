/**
  A Python `dict` with string keys: an insertion-ordered list of entries.
  Assigning to a key that is already present replaces its value in place;
  assigning a new key appends it. Iterating a dict visits its entries in
  this order.
 */
module Dict {
  import opened Wrappers
  import opened Seqs

  datatype Entry<V> = Entry(key: string, value: V)

  type Dict<V> = seq<Entry<V>>

  function Keys<V>(d: seq<Entry<V>>): (ks: seq<string>)
    ensures |ks| == |d|
    ensures forall i :: 0 <= i < |d| ==> ks[i] == d[i].key
  {
    seq(|d|, i requires 0 <= i < |d| => d[i].key)
  }

  /**
    The value of the LAST entry with key `k`. On a dict, whose keys are
    distinct, this is `d.get(k)`; on a list of assignments, it is the value
    the last assignment to `k` wrote.
   */
  function Get<V>(d: seq<Entry<V>>, k: string): (r: Option<V>)
    ensures r.None? <==> k !in Keys(d)
    decreases |d|
  {
    if d == [] then None
    else if d[|d| - 1].key == k then Some(d[|d| - 1].value)
    else
      assert Keys(d) == Keys(d[..|d| - 1]) + [d[|d| - 1].key];
      Get(d[..|d| - 1], k)
  }

  /** Get returns the value of the last entry with the key: no later entry has it. */
  lemma {:induction false} GetIsLastWrite<V>(d: seq<Entry<V>>, k: string, i: nat)
    requires i < |d| && d[i].key == k
    requires forall j :: i < j < |d| ==> d[j].key != k
    ensures Get(d, k) == Some(d[i].value)
    decreases |d|
  {
    if i < |d| - 1 {
      GetIsLastWrite(d[..|d| - 1], k, i);
    }
  }

  /** Python's `d[k] = v`. */
  function Put<V>(d: Dict<V>, k: string, v: V): (r: Dict<V>)
    ensures Keys(r) == if k in Keys(d) then Keys(d) else Keys(d) + [k]
    ensures Get(r, k) == Some(v)
    ensures forall k' :: k' != k ==> Get(r, k') == Get(d, k')
  {
    var r := if k in Keys(d) then seq(|d|, i requires 0 <= i < |d| => if d[i].key == k then Entry(k, v) else d[i])
             else d + [Entry(k, v)];
    assert Keys(r) == if k in Keys(d) then Keys(d) else Keys(d) + [k];
    PutGet(d, k, v, r);
    r
  }

  lemma {:induction false} PutGet<V>(d: Dict<V>, k: string, v: V, r: Dict<V>)
    requires |r| == |d| || r == d + [Entry(k, v)]
    requires |r| == |d| ==> k in Keys(d) && forall i :: 0 <= i < |d| ==> r[i] == if d[i].key == k then Entry(k, v) else d[i]
    ensures Get(r, k) == Some(v)
    ensures forall k' :: k' != k ==> Get(r, k') == Get(d, k')
  {
    if r == d + [Entry(k, v)] {
      assert r[..|r| - 1] == d;
    } else if |d| > 0 {
      var p, q := d[..|d| - 1], r[..|r| - 1];
      if d[|d| - 1].key != k {
        assert k in Keys(p) by {
          var i :| 0 <= i < |d| && Keys(d)[i] == k;
          assert Keys(p)[i] == k;
        }
        PutGet(p, k, v, q);
      } else if k in Keys(p) {
        PutGet(p, k, v, q);
      } else {
        forall k' | k' != k
          ensures Get(q, k') == Get(p, k')
        {
          assert q == p by {
            forall i | 0 <= i < |p| ensures q[i] == p[i] {
              assert Keys(p)[i] == p[i].key;
            }
          }
        }
      }
    }
  }

  /** The dict that assigning every entry of `ps` in turn, from `{}`, leaves behind. */
  function Build<V>(ps: seq<Entry<V>>): Dict<V>
    decreases |ps|
  {
    if ps == [] then []
    else Put(Build(ps[..|ps| - 1]), ps[|ps| - 1].key, ps[|ps| - 1].value)
  }

  /**
    Building a dict from a list of assignments: its keys are the assigned keys
    in first-assignment order, each once, and each key holds the value of its
    last assignment.
   */
  lemma BuildProperties<V>(ps: seq<Entry<V>>)
    ensures Keys(Build(ps)) == Dedup(Keys(ps))
    ensures Distinct(Keys(Build(ps)))
    ensures forall k :: Get(Build(ps), k) == Get(ps, k)
  {
    BuildKeys(ps);
    DedupProperties(Keys(ps));
    BuildGet(ps);
  }

  /** The keys of the built dict are the assigned keys, each once, in first-assignment order. */
  lemma {:induction false} BuildKeys<V>(ps: seq<Entry<V>>)
    ensures Keys(Build(ps)) == Dedup(Keys(ps))
  {
    if ps != [] {
      var p := ps[..|ps| - 1];
      BuildKeys(p);
      assert Keys(ps)[..|ps| - 1] == Keys(p);
      DedupProperties(Keys(p));
    }
  }

  /** Each key of the built dict holds the value of its last assignment. */
  lemma {:induction false} BuildGet<V>(ps: seq<Entry<V>>)
    ensures forall k :: Get(Build(ps), k) == Get(ps, k)
  {
    if ps != [] {
      var p := ps[..|ps| - 1];
      BuildGet(p);
      forall k ensures Get(Build(ps), k) == Get(ps, k) {
        assert ps[..|ps| - 1] == p;
      }
    }
  }

  /** In a dict with distinct keys, an entry holds the value Get finds for its key. */
  lemma DictEntryIsGet<V>(d: Dict<V>, i: nat)
    requires i < |d| && Distinct(Keys(d))
    ensures Get(d, d[i].key) == Some(d[i].value)
  {
    GetIsLastWrite(d, d[i].key, i);
  }
}
