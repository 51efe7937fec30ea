/**
  A plain JavaScript object used as a dictionary from strings to loaders:
  its own keys in insertion order and the value stored under each.
  A value is `None` when the stored JavaScript value is falsy (`undefined`,
  `null`, ...), `Some(v)` when it is a function.
*/
module Tables {
  import opened Wrappers

  /** No key occurs twice. */
  predicate Distinct(ks: seq<string>) {
    forall i, j :: 0 <= i < j < |ks| ==> ks[i] != ks[j]
  }

  datatype Table<V> = Table(keys: seq<string>, props: map<string, Option<V>>) {

    /** Own keys are unique and are exactly the keys that carry a value. */
    predicate Valid() {
      && Distinct(keys)
      && (forall k :: k in props ==> k in keys)
      && (forall i :: 0 <= i < |keys| ==> keys[i] in props)
    }

    /** Own-property read `obj[k]`: a missing key reads as `undefined`. */
    function Get(k: string): Option<V> {
      if k in props then props[k] else None
    }

    /** Property write `obj[k] = v` ([[Set]] on an ordinary object). */
    function Put(k: string, v: Option<V>): (t: Table<V>)
      ensures t.Get(k) == v
      ensures t.props == props[k := v]
      ensures k in props ==> t.keys == keys
      ensures k !in props ==> t.keys == keys + [k]
    {
      if k in props then Table(keys, props[k := v]) else Table(keys + [k], props[k := v])
    }

    /** `Object.assign(this, src)` stopped after the first `n` own keys of `src`. */
    function AssignPrefix(src: Table<V>, n: nat): Table<V>
      requires n <= |src.keys|
    {
      if n == 0 then this
      else AssignPrefix(src, n - 1).Put(src.keys[n - 1], src.Get(src.keys[n - 1]))
    }

    /** `Object.assign(this, src)`: copy every own key of `src`, in order. */
    function Assign(src: Table<V>): Table<V> {
      AssignPrefix(src, |src.keys|)
    }
  }

  /** The keys of `ks` that are not in `present`, in the order of `ks`. */
  function NewKeys(ks: seq<string>, present: set<string>): seq<string> {
    if ks == [] then [] else (if ks[0] in present then [] else [ks[0]]) + NewKeys(ks[1..], present)
  }

  /** `NewKeys` keeps exactly the keys of `ks` that are not present. */
  lemma {:induction false} NewKeysMembers(ks: seq<string>, present: set<string>, k: string)
    ensures k in NewKeys(ks, present) <==> k in ks && k !in present
  {
    if ks != [] {
      NewKeysMembers(ks[1..], present, k);
      assert k in ks <==> k == ks[0] || k in ks[1..] by {
        assert ks == [ks[0]] + ks[1..];
      }
    }
  }

  lemma {:induction false} NewKeysSnoc(ks: seq<string>, k: string, present: set<string>)
    ensures NewKeys(ks + [k], present) == NewKeys(ks, present) + (if k in present then [] else [k])
  {
    if ks != [] {
      assert (ks + [k])[0] == ks[0] && (ks + [k])[1..] == ks[1..] + [k];
      NewKeysSnoc(ks[1..], k, present);
    } else {
      assert ks + [k] == [k];
    }
  }

  /** A write keeps a table well formed: a new key is appended once, an existing one stays put. */
  lemma PutValid<V>(t: Table<V>, k: string, v: Option<V>)
    requires t.Valid()
    ensures t.Put(k, v).Valid()
  {
    var r := t.Put(k, v);
    if k !in t.props {
      forall i, j | 0 <= i < j < |r.keys| ensures r.keys[i] != r.keys[j] {
        if j == |t.keys| {
          assert r.keys[i] == t.keys[i];
        } else {
          assert r.keys[i] == t.keys[i] && r.keys[j] == t.keys[j];
        }
      }
    }
  }

  lemma {:induction false} AssignPrefixValid<V>(t: Table<V>, src: Table<V>, n: nat)
    requires t.Valid() && n <= |src.keys|
    ensures t.AssignPrefix(src, n).Valid()
  {
    if n > 0 {
      AssignPrefixValid(t, src, n - 1);
      PutValid(t.AssignPrefix(src, n - 1), src.keys[n - 1], src.Get(src.keys[n - 1]));
    }
  }

  lemma {:induction false} AssignPrefixHas<V>(t: Table<V>, src: Table<V>, n: nat, k: string)
    requires n <= |src.keys|
    ensures k in t.AssignPrefix(src, n).props <==> k in t.props || k in src.keys[..n]
  {
    if n > 0 {
      var key := src.keys[n - 1];
      var prev := t.AssignPrefix(src, n - 1);
      AssignPrefixHas(t, src, n - 1, k);
      var next := prev.Put(key, src.Get(key));
      assert t.AssignPrefix(src, n) == next;
      assert next.props == prev.props[key := src.Get(key)];
      assert k in src.keys[..n] <==> k in src.keys[..n - 1] || k == key by {
        assert src.keys[..n] == src.keys[..n - 1] + [key];
      }
    }
  }

  lemma {:induction false} AssignPrefixGet<V>(t: Table<V>, src: Table<V>, n: nat, k: string)
    requires n <= |src.keys|
    ensures t.AssignPrefix(src, n).Get(k) == if k in src.keys[..n] then src.Get(k) else t.Get(k)
  {
    if n > 0 {
      var key := src.keys[n - 1];
      var prev := t.AssignPrefix(src, n - 1);
      AssignPrefixGet(t, src, n - 1, k);
      var next := prev.Put(key, src.Get(key));
      assert t.AssignPrefix(src, n) == next;
      assert next.props == prev.props[key := src.Get(key)];
      assert k in src.keys[..n] <==> k in src.keys[..n - 1] || k == key by {
        assert src.keys[..n] == src.keys[..n - 1] + [key];
      }
      if k == key {
        assert next.Get(k) == src.Get(k);
      } else {
        assert next.Get(k) == prev.Get(k);
      }
    }
  }

  lemma {:induction false} AssignPrefixKeys<V>(t: Table<V>, src: Table<V>, n: nat)
    requires Distinct(src.keys) && n <= |src.keys|
    ensures t.AssignPrefix(src, n).keys == t.keys + NewKeys(src.keys[..n], t.props.Keys)
  {
    if n == 0 {
      assert src.keys[..0] == [];
    } else {
      var k := src.keys[n - 1];
      var pre := src.keys[..n - 1];
      var added := if k in t.props.Keys then [] else [k];
      var before := NewKeys(pre, t.props.Keys);
      var prevKeys := t.AssignPrefix(src, n - 1).keys;
      var keys := t.AssignPrefix(src, n).keys;
      var whole := NewKeys(src.keys[..n], t.props.Keys);
      assert prevKeys == t.keys + before by {
        AssignPrefixKeys(t, src, n - 1);
      }
      assert keys == prevKeys + added by {
        AssignStepKeys(t, src, n);
      }
      assert whole == before + added by {
        assert src.keys[..n] == pre + [k];
        NewKeysSnoc(pre, k, t.props.Keys);
      }
      Regroup(keys, prevKeys, t.keys, before, added, whole);
    }
  }

  /** Re-associates the concatenations in the inductive step of `AssignPrefixKeys`. */
  lemma Regroup(keys: seq<string>, prev: seq<string>, base: seq<string>,
                before: seq<string>, added: seq<string>, whole: seq<string>)
    requires keys == prev + added && prev == base + before && whole == before + added
    ensures keys == base + whole
  {
  }

  /** One step of `Object.assign` appends the copied key only when the target did not have it. */
  lemma AssignStepKeys<V>(t: Table<V>, src: Table<V>, n: nat)
    requires Distinct(src.keys) && 0 < n <= |src.keys|
    ensures t.AssignPrefix(src, n).keys ==
      t.AssignPrefix(src, n - 1).keys + if src.keys[n - 1] in t.props.Keys then [] else [src.keys[n - 1]]
  {
    var k := src.keys[n - 1];
    var prev := t.AssignPrefix(src, n - 1);
    assert t.AssignPrefix(src, n) == prev.Put(k, src.Get(k));
    assert k in prev.props <==> k in t.props by {
      AssignPrefixHas(t, src, n - 1, k);
      LastNotInPrefix(src, n);
    }
    if k in t.props {
      assert prev.Put(k, src.Get(k)).keys == prev.keys;
    } else {
      assert prev.Put(k, src.Get(k)).keys == prev.keys + [k];
    }
  }

  lemma LastNotInPrefix<V>(src: Table<V>, n: nat)
    requires Distinct(src.keys) && 0 < n <= |src.keys|
    ensures src.keys[n - 1] !in src.keys[..n - 1]
  {
    var pre := src.keys[..n - 1];
    forall i | 0 <= i < |pre| ensures pre[i] != src.keys[n - 1] {
      assert pre[i] == src.keys[i];
    }
  }

  /** Merging keeps the table well formed; its key set becomes the union of both. */
  lemma AssignValid<V>(t: Table<V>, src: Table<V>)
    requires t.Valid() && src.Valid()
    ensures t.Assign(src).Valid()
    ensures t.Assign(src).props.Keys == t.props.Keys + src.props.Keys
  {
    AssignPrefixValid(t, src, |src.keys|);
    assert src.keys[..|src.keys|] == src.keys;
    forall k ensures k in t.Assign(src).props <==> k in t.props || k in src.props {
      AssignPrefixHas(t, src, |src.keys|, k);
    }
  }

  /** Every key of `src` now reads as `src` has it; every other key keeps its old value. */
  lemma AssignGet<V>(t: Table<V>, src: Table<V>, k: string)
    requires src.Valid()
    ensures k in src.props ==> t.Assign(src).Get(k) == src.Get(k)
    ensures k !in src.props ==> t.Assign(src).Get(k) == t.Get(k)
  {
    AssignPrefixGet(t, src, |src.keys|, k);
    assert src.keys[..|src.keys|] == src.keys;
  }

  /**
    Keys already present keep their position; the keys of `src` that were not
    present are appended in the order of `src`.
  */
  lemma AssignKeys<V>(t: Table<V>, src: Table<V>)
    requires src.Valid()
    ensures t.Assign(src).keys == t.keys + NewKeys(src.keys, t.props.Keys)
  {
    AssignPrefixKeys(t, src, |src.keys|);
    assert src.keys[..|src.keys|] == src.keys;
  }
}
