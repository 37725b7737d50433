/**
 * PHP values and PHP arrays. A PHP array is an ordered list of entries with
 * pairwise distinct keys; a key is an integer or a (non-numeric) string.
 * Floats, objects and resources are not modelled.
 */
module PhpArrays {
  import opened Wrappers

  datatype Key = IntKey(i: int) | StrKey(s: string)

  datatype Value =
    | Null
    | Bool(b: bool)
    | Int(i: int)
    | Str(s: string)
    | Arr(entries: seq<Entry>)

  datatype Entry = Entry(key: Key, val: Value)

  predicate UniqueKeys(a: seq<Entry>) {
    forall i, j :: 0 <= i < j < |a| ==> a[i].key != a[j].key
  }

  /** A PHP array: entries in insertion order, no key twice. */
  type PhpArray = a: seq<Entry> | UniqueKeys(a)

  /** The position of key `k` in `a`, if any. */
  function Find(a: seq<Entry>, k: Key): (r: Option<nat>)
    ensures r.Some? ==> r.value < |a| && a[r.value].key == k
    ensures r.Some? ==> forall j :: 0 <= j < r.value ==> a[j].key != k
    ensures r.None? ==> forall j :: 0 <= j < |a| ==> a[j].key != k
    decreases |a|
  {
    if |a| == 0 then None
    else if a[|a| - 1].key == k && Find(a[..|a| - 1], k).None? then Some(|a| - 1)
    else Find(a[..|a| - 1], k)
  }

  /** $a[$k] ?? null, with `None` for an absent key. */
  function Get(a: seq<Entry>, k: Key): Option<Value> {
    match Find(a, k)
    case Some(i) => Some(a[i].val)
    case None => None
  }

  /** $a[$k] = $v: an existing entry keeps its place, a new key goes last. */
  function Set(a: PhpArray, k: Key, v: Value): (r: PhpArray)
    ensures Get(r, k) == Some(v)
    ensures forall k' :: k' != k ==> Get(r, k') == Get(a, k')
    ensures |r| == (if Get(a, k).Some? then |a| else |a| + 1)
    ensures forall i :: 0 <= i < |a| ==> r[i].key == a[i].key
    ensures Get(a, k).None? ==> r[|a|] == Entry(k, v)
  {
    match Find(a, k)
    case Some(i) =>
      var r := a[i := Entry(k, v)];
      assert forall k' :: Find(r, k') == Find(a, k') by {
        forall k' ensures Find(r, k') == Find(a, k') {
          FindReplace(a, i, Entry(k, v), k');
        }
      }
      r
    case None =>
      var r := a + [Entry(k, v)];
      assert r[..|r| - 1] == a;
      r
  }

  /** Replacing an entry by one with the same key moves no key. */
  lemma {:induction false} FindReplace(a: seq<Entry>, i: nat, e: Entry, k: Key)
    requires i < |a| && a[i].key == e.key
    ensures Find(a[i := e], k) == Find(a, k)
    decreases |a|
  {
    var r := a[i := e];
    if i < |a| - 1 {
      assert r[..|r| - 1] == a[..|a| - 1][i := e];
      FindReplace(a[..|a| - 1], i, e, k);
    } else {
      assert r[..|r| - 1] == a[..|a| - 1];
    }
  }

  /** With unique keys, a key is found exactly where it sits. */
  lemma FindUnique(a: seq<Entry>, k: Key)
    requires UniqueKeys(a)
    ensures forall i :: 0 <= i < |a| && a[i].key == k ==> Find(a, k) == Some(i)
  {
  }

  /**
   * The next integer key an append uses: one more than the largest integer
   * key, and never below 0.
   */
  function NextFree(a: seq<Entry>): (n: int)
    ensures n >= 0
    ensures forall i :: 0 <= i < |a| && a[i].key.IntKey? ==> a[i].key.i < n
    decreases |a|
  {
    if |a| == 0 then 0
    else
      var n := NextFree(a[..|a| - 1]);
      var e := a[|a| - 1];
      if e.key.IntKey? && e.key.i >= n then e.key.i + 1 else n
  }

  /** One step of array_merge: an integer key is renumbered and appended, a string key overwrites. */
  function Put(acc: PhpArray, e: Entry): PhpArray {
    if e.key.IntKey? then acc + [Entry(IntKey(NextFree(acc)), e.val)]
    else Set(acc, e.key, e.val)
  }

  function MergeInto(acc: PhpArray, items: seq<Entry>): PhpArray
    decreases |items|
  {
    if |items| == 0 then acc else MergeInto(Put(acc, items[0]), items[1..])
  }

  /** array_merge($a, $b) */
  function Merge(a: PhpArray, b: PhpArray): PhpArray {
    MergeInto(MergeInto([], a), b)
  }

  /** The values under integer keys, in order. */
  function IntValues(a: seq<Entry>): seq<Value>
    decreases |a|
  {
    if |a| == 0 then []
    else IntValues(a[..|a| - 1]) + IntPart(a[|a| - 1])
  }

  function IntPart(e: Entry): seq<Value> {
    if e.key.IntKey? then [e.val] else []
  }

  /** The integer keys, in order. */
  function IntKeys(a: seq<Entry>): seq<int>
    decreases |a|
  {
    if |a| == 0 then []
    else IntKeys(a[..|a| - 1]) + (if a[|a| - 1].key.IntKey? then [a[|a| - 1].key.i] else [])
  }

  /** The integer keys are 0, 1, 2, ... in order, as in a freshly built list. */
  predicate Packed(a: seq<Entry>) {
    IsCount(IntKeys(a))
  }

  predicate IsCount(ks: seq<int>) {
    forall i :: 0 <= i < |ks| ==> ks[i] == i
  }

  lemma {:induction false} GetCons(a: PhpArray, k: Key)
    requires |a| > 0
    ensures Get(a, k) == if a[0].key == k then Some(a[0].val) else Get(a[1..], k)
  {
    FindUnique(a, k);
    FindUnique(a[1..], k);
    if a[0].key != k {
      match Find(a[1..], k)
      case Some(i) => assert a[i + 1] == a[1..][i];
      case None =>
        forall j | 0 <= j < |a| ensures a[j].key != k {
          if j > 0 { assert a[j] == a[1..][j - 1]; }
        }
    }
  }

  /** Overwriting or adding a string key leaves the integer-keyed part alone. */
  lemma {:induction false} SetKeepsIntPart(a: PhpArray, s: string, v: Value)
    ensures IntValues(Set(a, StrKey(s), v)) == IntValues(a)
    ensures IntKeys(Set(a, StrKey(s), v)) == IntKeys(a)
  {
    match Find(a, StrKey(s))
    case None =>
      var r := a + [Entry(StrKey(s), v)];
      assert r[..|r| - 1] == a;
    case Some(i) =>
      ReplaceKeepsIntPart(a, i, Entry(StrKey(s), v));
  }

  lemma {:induction false} ReplaceKeepsIntPart(a: seq<Entry>, i: nat, e: Entry)
    requires i < |a| && a[i].key.StrKey? && e.key.StrKey?
    ensures IntValues(a[i := e]) == IntValues(a)
    ensures IntKeys(a[i := e]) == IntKeys(a)
    decreases |a|
  {
    var r := a[i := e];
    if i == |a| - 1 {
      assert r[..|r| - 1] == a[..|a| - 1];
    } else {
      assert r[..|r| - 1] == a[..|a| - 1][i := e];
      ReplaceKeepsIntPart(a[..|a| - 1], i, e);
    }
  }

  /** One merge step adds the value of an integer-keyed entry at the end of the integer-keyed part. */
  lemma {:induction false} PutIntValues(acc: PhpArray, e: Entry)
    ensures IntValues(Put(acc, e)) == IntValues(acc) + IntPart(e)
  {
    var next := Put(acc, e);
    if e.key.IntKey? {
      assert next[..|next| - 1] == acc;
    } else {
      SetKeepsIntPart(acc, e.key.s, e.val);
    }
  }

  /** One merge step numbers an integer-keyed entry with the count of those before it. */
  lemma {:induction false} PutPacked(acc: PhpArray, e: Entry)
    requires Packed(acc) && NextFree(acc) == |IntKeys(acc)|
    ensures Packed(Put(acc, e))
    ensures NextFree(Put(acc, e)) == |IntKeys(Put(acc, e))|
  {
    var next := Put(acc, e);
    if e.key.IntKey? {
      assert next[..|next| - 1] == acc;
      assert IntKeys(next) == IntKeys(acc) + [|IntKeys(acc)|];
    } else {
      SetKeepsIntPart(acc, e.key.s, e.val);
      NextFreeOfIntKeys(next);
    }
  }

  /** array_merge keeps every integer-keyed value of both arrays, in order. */
  lemma {:induction false} MergeIntoIntValues(acc: PhpArray, items: seq<Entry>)
    ensures IntValues(MergeInto(acc, items)) == IntValues(acc) + IntValues(items)
    decreases |items|
  {
    if |items| == 0 {
      assert IntValues(items) == [];
    } else {
      var next := Put(acc, items[0]);
      MergeIntoIntValues(next, items[1..]);
      assert MergeInto(acc, items) == MergeInto(next, items[1..]);
      PutIntValues(acc, items[0]);
      IntValuesCons(items);
      ConcatAssoc(IntValues(acc), IntPart(items[0]), IntValues(items[1..]));
    }
  }

  lemma ConcatAssoc<T>(a: seq<T>, b: seq<T>, c: seq<T>)
    ensures (a + b) + c == a + (b + c)
  {
  }

  /** array_merge renumbers the integer keys from 0. */
  lemma {:induction false} MergeIntoPacked(acc: PhpArray, items: seq<Entry>)
    requires Packed(acc) && NextFree(acc) == |IntKeys(acc)|
    ensures Packed(MergeInto(acc, items))
    ensures NextFree(MergeInto(acc, items)) == |IntKeys(MergeInto(acc, items))|
    decreases |items|
  {
    if |items| > 0 {
      PutPacked(acc, items[0]);
      MergeIntoPacked(Put(acc, items[0]), items[1..]);
    }
  }

  /** On a packed array the next free key is the number of integer keys. */
  lemma {:induction false} NextFreeOfIntKeys(a: seq<Entry>)
    requires Packed(a)
    ensures NextFree(a) == |IntKeys(a)|
    decreases |a|
  {
    if |a| > 0 {
      var p := a[..|a| - 1];
      var e := a[|a| - 1];
      assert IntKeys(a) == IntKeys(p) + (if e.key.IntKey? then [e.key.i] else []);
      assert IntKeys(p) == IntKeys(a)[..|IntKeys(p)|];
      assert Packed(p);
      NextFreeOfIntKeys(p);
      if e.key.IntKey? {
        assert IntKeys(a)[|IntKeys(p)|] == e.key.i;
      }
    }
  }

  lemma {:induction false} IntValuesCons(items: seq<Entry>)
    requires |items| > 0
    ensures IntValues(items) == IntPart(items[0]) + IntValues(items[1..])
    decreases |items|
  {
    if |items| > 1 {
      var p := items[..|items| - 1];
      IntValuesCons(p);
      assert p[1..] == items[1..][..|items[1..]| - 1];
      assert p[0] == items[0];
    } else {
      assert items[1..] == [];
      assert items[..0] == [];
    }
  }

  /** array_merge: a string key of `b` wins over the same key in `a`; other string keys keep their value. */
  lemma {:induction false} MergeIntoStrKey(acc: PhpArray, items: PhpArray, s: string)
    ensures Get(MergeInto(acc, items), StrKey(s)) ==
            if Get(items, StrKey(s)).Some? then Get(items, StrKey(s)) else Get(acc, StrKey(s))
    decreases |items|
  {
    if |items| > 0 {
      var next := Put(acc, items[0]);
      assert Get(next, StrKey(s)) == if items[0].key == StrKey(s) then Some(items[0].val) else Get(acc, StrKey(s)) by {
        if items[0].key.IntKey? {
          assert next[..|next| - 1] == acc;
          FindAppend(acc, items[0].val, NextFree(acc), StrKey(s));
        }
      }
      var rest: PhpArray := items[1..];
      MergeIntoStrKey(next, rest, s);
      GetCons(items, StrKey(s));
      if items[0].key == StrKey(s) {
        assert Find(rest, StrKey(s)).None?;
      }
    }
  }

  lemma FindAppend(acc: PhpArray, v: Value, n: int, k: Key)
    requires k != IntKey(n)
    ensures Find(acc + [Entry(IntKey(n), v)], k) == Find(acc, k)
  {
    var r := acc + [Entry(IntKey(n), v)];
    assert r[..|r| - 1] == acc;
  }

  /** $_REQUEST-style merge: on a string-key collision the second array wins. */
  lemma {:induction false} MergeStrKey(a: PhpArray, b: PhpArray, s: string)
    ensures Get(Merge(a, b), StrKey(s)) ==
            if Get(b, StrKey(s)).Some? then Get(b, StrKey(s)) else Get(a, StrKey(s))
  {
    MergeIntoStrKey([], a, s);
    MergeIntoStrKey(MergeInto([], a), b, s);
  }

  /** array_merge appends the integer-keyed values of `b` after those of `a`, renumbered from 0. */
  lemma {:induction false} MergeIntPart(a: PhpArray, b: PhpArray)
    ensures IntValues(Merge(a, b)) == IntValues(a) + IntValues(b)
    ensures Packed(Merge(a, b))
  {
    var empty: PhpArray := [];
    var left := MergeInto(empty, a);
    assert Merge(a, b) == MergeInto(left, b);
    assert IntValues(left) == IntValues(a) by {
      assert IntValues(empty) == [];
      MergeIntoIntValues(empty, a);
    }
    assert Packed(left) && NextFree(left) == |IntKeys(left)| by {
      MergeIntoPacked(empty, a);
    }
    MergeIntoIntValues(left, b);
    MergeIntoPacked(left, b);
  }

  /**
   * A `foreach` that assigns `$m[key(x)] = val(x)` for each element in turn:
   * later elements overwrite earlier ones with the same key.
   */
  function AssignAll<T, K, V>(m: map<K, V>, xs: seq<T>, key: T -> K, val: T -> V): map<K, V>
    decreases |xs|
  {
    if |xs| == 0 then m
    else AssignAll(m, xs[..|xs| - 1], key, val)[key(xs[|xs| - 1]) := val(xs[|xs| - 1])]
  }

  /** One more element: its assignment lands on top of the earlier ones. */
  lemma AssignAllSnoc<T, K, V>(m: map<K, V>, xs: seq<T>, x: T, key: T -> K, val: T -> V)
    ensures AssignAll(m, xs + [x], key, val) == AssignAll(m, xs, key, val)[key(x) := val(x)]
  {
    assert (xs + [x])[..|xs|] == xs;
  }

  /** A loop turn of `foreach`: assigning element `i` extends the fold to the first `i + 1` elements. */
  lemma AssignStep<T, K, V>(m: map<K, V>, xs: seq<T>, i: nat, key: T -> K, val: T -> V,
                            acc: map<K, V>, k: K, v: V)
    requires i < |xs| && acc == AssignAll(m, xs[..i], key, val)
    requires k == key(xs[i]) && v == val(xs[i])
    ensures acc[k := v] == AssignAll(m, xs[..i + 1], key, val)
  {
    AssignAllSnoc(m, xs[..i], xs[i], key, val);
    assert xs[..i] + [xs[i]] == xs[..i + 1];
  }

  /** The last element whose key is `k`. */
  function LastWithKey<T, K(==)>(xs: seq<T>, key: T -> K, k: K): (r: Option<nat>)
    ensures r.Some? ==> r.value < |xs| && key(xs[r.value]) == k
    ensures r.Some? ==> forall j :: r.value < j < |xs| ==> key(xs[j]) != k
    ensures r.None? ==> forall j :: 0 <= j < |xs| ==> key(xs[j]) != k
    decreases |xs|
  {
    if |xs| == 0 then None
    else if key(xs[|xs| - 1]) == k then Some(|xs| - 1)
    else LastWithKey(xs[..|xs| - 1], key, k)
  }

  /** After the loop, a key holds the value of the last element with that key, or is as before. */
  lemma {:induction false} AssignAllAt<T, K, V>(m: map<K, V>, xs: seq<T>, key: T -> K, val: T -> V, k: K)
    ensures match LastWithKey(xs, key, k)
      case Some(j) => k in AssignAll(m, xs, key, val) && AssignAll(m, xs, key, val)[k] == val(xs[j])
      case None => (k in AssignAll(m, xs, key, val) <==> k in m) &&
                   (k in m ==> AssignAll(m, xs, key, val)[k] == m[k])
    decreases |xs|
  {
    if |xs| > 0 && key(xs[|xs| - 1]) != k {
      AssignAllAt(m, xs[..|xs| - 1], key, val, k);
    }
  }
}
