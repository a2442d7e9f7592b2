/** An optional value: `undefined`/`null`/`None` versus a present value. */
module Base {
  datatype Option<T> = None | Some(value: T)
}

/**
 * The insertion-ordered dictionary that JavaScript objects and Python
 * dicts are: assigning to a new key appends it, assigning to an existing key
 * replaces its value in place, deleting a key removes its entry.
 */
module OrderedMap {
  import opened Base
  import opened Strings

  type Entries<K, V> = seq<(K, V)>

  /** The keys, in insertion order */
  function Keys<K, V>(m: Entries<K, V>): (ks: seq<K>)
    ensures |ks| == |m|
    ensures forall i :: 0 <= i < |m| ==> ks[i] == m[i].0
  {
    if |m| == 0 then [] else [m[0].0] + Keys(m[1..])
  }

  /** No key occurs twice. */
  ghost predicate Unique<K, V>(m: Entries<K, V>) {
    forall i, j :: 0 <= i < j < |m| ==> m[i].0 != m[j].0
  }

  /** `m[k]`, or `None` when `k` is absent: the value of the first entry with key `k` */
  function Get<K(==), V>(m: Entries<K, V>, k: K): (r: Option<V>)
    ensures r.None? <==> k !in Keys(m)
    ensures r.Some? ==> exists i :: 0 <= i < |m| && m[i] == (k, r.value)
  {
    if k in Keys(m) then Some(m[IndexOf(Keys(m), k)].1) else None
  }

  /** `m[k] = v` */
  function Put<K(==), V>(m: Entries<K, V>, k: K, v: V): (r: Entries<K, V>)
    ensures k in Keys(m) ==> |r| == |m|
    ensures k !in Keys(m) ==> r == m + [(k, v)]
    ensures forall i :: 0 <= i < |m| && m[i].0 != k ==> r[i] == m[i]
    ensures forall i :: 0 <= i < |m| && m[i].0 == k ==> r[i] == (k, v)
  {
    if k in Keys(m) then seq(|m|, i requires 0 <= i < |m| => if m[i].0 == k then (k, v) else m[i])
    else m + [(k, v)]
  }

  /** `delete m[k]` */
  function Delete<K(==), V>(m: Entries<K, V>, k: K): (r: Entries<K, V>)
    ensures k !in Keys(r)
    ensures forall i :: 0 <= i < |r| ==> r[i] in m && r[i].0 != k
    ensures forall i :: 0 <= i < |m| && m[i].0 != k ==> m[i] in r
  {
    if |m| == 0 then []
    else if m[0].0 == k then Delete(m[1..], k)
    else [m[0]] + Delete(m[1..], k)
  }

  /** Deleting an absent key changes nothing. */
  lemma {:induction false} DeleteAbsent<K, V>(m: Entries<K, V>, k: K)
    requires k !in Keys(m)
    ensures Delete(m, k) == m
    decreases |m|
  {
    if |m| > 0 {
      assert Keys(m[1..]) == Keys(m)[1..];
      DeleteAbsent(m[1..], k);
    }
  }

  /** Assignment keeps the keys distinct. */
  lemma PutUnique<K, V>(m: Entries<K, V>, k: K, v: V)
    requires Unique(m)
    ensures Unique(Put(m, k, v))
  {
  }

  /** After `m[k] = v`, reading `k` gives `v` and every other key reads as before. */
  lemma GetPut<K, V>(m: Entries<K, V>, k: K, v: V, k': K)
    ensures Get(Put(m, k, v), k') == if k' == k then Some(v) else Get(m, k')
  {
    var r := Put(m, k, v);
    KeysPut(m, k, v);
    if k in Keys(m) {
      assert Keys(r) == Keys(m);
    } else if k' in Keys(m) {
      var i := IndexOf(Keys(m), k');
      assert Keys(r)[i] == k';
      assert IndexOf(Keys(r), k') == i;
    } else if k' == k {
      assert Keys(r)[|m|] == k;
      assert IndexOf(Keys(r), k') == |m|;
    }
  }

  /** Assignment keeps the key order; a new key goes last. */
  lemma KeysPut<K, V>(m: Entries<K, V>, k: K, v: V)
    ensures Keys(Put(m, k, v)) == if k in Keys(m) then Keys(m) else Keys(m) + [k]
  {
    var r := Put(m, k, v);
    if k !in Keys(m) {
      assert Keys(r) == Keys(m) + [k];
    } else {
      assert Keys(r) == Keys(m);
    }
  }

  /** Deleting keeps the remaining entries in their order. */
  lemma {:induction false} KeysDelete<K, V>(m: Entries<K, V>, k: K)
    ensures Keys(Delete(m, k)) == FilterOut(Keys(m), k)
    decreases |m|
  {
    if |m| > 0 {
      KeysDelete(m[1..], k);
      assert Keys(m)[1..] == Keys(m[1..]);
    }
  }

  /** `s.filter(x => x !== k)` */
  function FilterOut<T(==)>(s: seq<T>, k: T): (r: seq<T>)
    ensures |r| <= |s|
  {
    if |s| == 0 then [] else (if s[0] == k then [] else [s[0]]) + FilterOut(s[1..], k)
  }

  /** The filtered list holds exactly the elements other than `k`. */
  lemma {:induction false} FilterOutMembers<T>(s: seq<T>, k: T, x: T)
    ensures x in FilterOut(s, k) <==> x in s && x != k
  {
    if |s| > 0 {
      FilterOutMembers(s[1..], k, x);
      assert s == [s[0]] + s[1..];
    }
  }

  /** Filtering out an element that is absent changes nothing. */
  lemma {:induction false} FilterOutAbsent<T>(s: seq<T>, k: T)
    requires k !in s
    ensures FilterOut(s, k) == s
  {
    if |s| > 0 {
      FilterOutAbsent(s[1..], k);
      assert s == [s[0]] + s[1..];
    }
  }

  /** Filtering distributes over concatenation. */
  lemma {:induction false} FilterOutAppend<T>(a: seq<T>, b: seq<T>, k: T)
    ensures FilterOut(a + b, k) == FilterOut(a, k) + FilterOut(b, k)
  {
    if |a| == 0 {
      assert a + b == b;
    } else {
      var head := if a[0] == k then [] else [a[0]];
      calc {
        FilterOut(a + b, k);
      == { assert (a + b)[0] == a[0] && (a + b)[1..] == a[1..] + b; }
        head + FilterOut(a[1..] + b, k);
      == { FilterOutAppend(a[1..], b, k); }
        head + (FilterOut(a[1..], k) + FilterOut(b, k));
      ==
        (head + FilterOut(a[1..], k)) + FilterOut(b, k);
      }
    }
  }
}
