/** Insertion-ordered association lists: the model of a JavaScript object used
    as a dictionary with string keys that are never array indices. Iteration
    (`Object.entries`) visits keys in insertion order; assigning to a key that
    is already present keeps its position, assigning a new key appends it. */
module AssocList {
  import opened Seqs

  datatype Option<+T> = None | Some(value: T)

  /** Keys are strings (URLs), as JavaScript property names are. */
  type Assoc<V> = seq<(string, V)>

  /** The keys in iteration order. */
  function Keys<V>(m: Assoc<V>): (ks: seq<string>)
    ensures |ks| == |m|
  {
    if m == [] then [] else [m[0].0] + Keys(m[1..])
  }

  /** Property read `m[k]`: the value of the first entry with key `k`. */
  function Lookup<V>(m: Assoc<V>, k: string): (r: Option<V>)
    ensures r.None? <==> k !in Keys(m)
  {
    if m == [] then None
    else if m[0].0 == k then Some(m[0].1)
    else Lookup(m[1..], k)
  }

  /** Property assignment `m[k] = v`. */
  function Put<V>(m: Assoc<V>, k: string, v: V): (r: Assoc<V>)
    ensures Keys(r) == if k in Keys(m) then Keys(m) else Keys(m) + [k]
    ensures Lookup(r, k) == Some(v)
    ensures forall k' :: k' != k ==> Lookup(r, k') == Lookup(m, k')
  {
    if m == [] then [(k, v)]
    else if m[0].0 == k then [(k, v)] + m[1..]
    else [m[0]] + Put(m[1..], k, v)
  }

  /** Assigning keeps the keys duplicate-free. */
  lemma PutDistinct<V>(m: Assoc<V>, k: string, v: V)
    requires Distinct(Keys(m))
    ensures Distinct(Keys(Put(m, k, v)))
  {
  }

  /** Looking up the key of the `i`-th entry of a duplicate-free list finds
      that entry. */
  lemma {:induction false} LookupAt<V>(m: Assoc<V>, i: nat)
    requires Distinct(Keys(m)) && i < |m|
    ensures Lookup(m, m[i].0) == Some(m[i].1)
  {
    if i > 0 {
      assert Keys(m)[0] == m[0].0 && Keys(m)[i] == m[i].0 by { KeysAt(m, 0); KeysAt(m, i); }
      assert Distinct(Keys(m[1..])) by {
        forall a, b | 0 <= a < b < |m| - 1 ensures Keys(m[1..])[a] != Keys(m[1..])[b] {
          assert Keys(m[1..])[a] == Keys(m)[a + 1];
          assert Keys(m[1..])[b] == Keys(m)[b + 1];
        }
      }
      LookupAt(m[1..], i - 1);
    }
  }

  lemma {:induction false} KeysAt<V>(m: Assoc<V>, i: nat)
    requires i < |m|
    ensures Keys(m)[i] == m[i].0
  {
    if i > 0 {
      KeysAt(m[1..], i - 1);
    }
  }

  /** The keys of a prefix are the prefix of the keys. */
  lemma {:induction false} KeysPrefix<V>(m: Assoc<V>, n: nat)
    requires n <= |m|
    ensures Keys(m[..n]) == Keys(m)[..n]
  {
    if n > 0 {
      assert m[..n][1..] == m[1..][..n - 1];
      KeysPrefix(m[1..], n - 1);
    }
  }

  /** Every entry after an assignment was there before or is the assigned
      one. */
  lemma {:induction false} PutEntries<V>(m: Assoc<V>, k: string, v: V, i: nat)
    requires i < |Put(m, k, v)|
    ensures Put(m, k, v)[i] in m || Put(m, k, v)[i] == (k, v)
  {
    if m != [] && m[0].0 != k && i > 0 {
      PutEntries(m[1..], k, v, i - 1);
      assert Put(m, k, v)[i] == Put(m[1..], k, v)[i - 1];
    }
  }

  /** Looking up a key present in a prefix finds the same value in the
      whole list. */
  lemma {:induction false} LookupPrefix<V>(m: Assoc<V>, n: nat, k: string)
    requires n <= |m| && k in Keys(m[..n])
    ensures Lookup(m, k) == Lookup(m[..n], k)
  {
    if m[0].0 != k {
      assert m[..n][1..] == m[1..][..n - 1];
      LookupPrefix(m[1..], n - 1, k);
    }
  }
}
