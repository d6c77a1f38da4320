/** `ArrayMap`, the insertion-ordered map over a PHP array, and `ArrayMapEntry`, the entry objects
    its `entryList` hands out. The array is a sequence of (key, value) pairs with distinct keys, in
    insertion order; the pure functions below say what each PHP array operation does to it, and the
    class methods change the map in place exactly as those functions say. */
module ArrayMaps {
  import opened Wrappers

  /** The keys of the pairs, in order. */
  function KeysOf<V>(es: seq<(string, V)>): (ks: seq<string>) {
    seq(|es|, i requires 0 <= i < |es| => es[i].0)
  }

  /** The values of the pairs, in order. */
  function ValuesOf<V>(es: seq<(string, V)>): (vs: seq<V>) {
    seq(|es|, i requires 0 <= i < |es| => es[i].1)
  }

  /** A PHP array never holds the same key twice. */
  predicate DistinctKeys<V>(es: seq<(string, V)>) {
    forall i, j :: 0 <= i < j < |es| ==> es[i].0 != es[j].0
  }

  /** `$data[$key]`: the value mapped to `key`, if any. */
  function Lookup<V>(es: seq<(string, V)>, key: string): Option<V> {
    if es == [] then None
    else if es[0].0 == key then Some(es[0].1)
    else Lookup(es[1..], key)
  }

  /** `$data[$key] = $value`: an existing key keeps its place and takes the new value; a new key
      goes to the end. */
  function Assign<V>(es: seq<(string, V)>, key: string, value: V): seq<(string, V)> {
    if es == [] then [(key, value)]
    else if es[0].0 == key then [(key, value)] + es[1..]
    else [es[0]] + Assign(es[1..], key, value)
  }

  /** `unset($data[$key])`: the pair with that key goes, the others keep their order. */
  function Unset<V>(es: seq<(string, V)>, key: string): seq<(string, V)> {
    if es == [] then []
    else (if es[0].0 == key then [] else [es[0]]) + Unset(es[1..], key)
  }

  /** The pairs of `fs` assigned one after the other, first to last. */
  function AssignAll<V>(es: seq<(string, V)>, fs: seq<(string, V)>): seq<(string, V)> {
    if fs == [] then es
    else Assign(AssignAll(es, fs[..|fs| - 1]), fs[|fs| - 1].0, fs[|fs| - 1].1)
  }

  /** The keys of `fs` that are not among `ks`, in the order of `fs`. */
  function NewKeys<V>(ks: seq<string>, fs: seq<(string, V)>): seq<string> {
    if fs == [] then []
    else NewKeys(ks, fs[..|fs| - 1]) + (if fs[|fs| - 1].0 in ks then [] else [fs[|fs| - 1].0])
  }

  /** A key is mapped exactly when it is one of the keys. */
  lemma {:induction false} LookupFound<V>(es: seq<(string, V)>, key: string)
    ensures Lookup(es, key).Some? <==> key in KeysOf(es)
  {
    if es != [] {
      LookupFound(es[1..], key);
      assert KeysOf(es) == [es[0].0] + KeysOf(es[1..]);
    }
  }

  /** With distinct keys, looking up the key of a pair finds that pair's value. */
  lemma {:induction false} LookupAt<V>(es: seq<(string, V)>, i: nat)
    requires DistinctKeys(es) && i < |es|
    ensures Lookup(es, es[i].0) == Some(es[i].1)
  {
    if i > 0 {
      LookupAt(es[1..], i - 1);
    }
  }

  /** After an assignment `key` maps to the new value and every other key to what it mapped to. */
  lemma {:induction false} AssignLookup<V>(es: seq<(string, V)>, key: string, value: V, other: string)
    ensures Lookup(Assign(es, key, value), other) == if other == key then Some(value) else Lookup(es, other)
  {
    if es != [] && es[0].0 != key {
      AssignLookup(es[1..], key, value, other);
    }
  }

  /** An assignment keeps the key order; a key not yet present is appended. */
  lemma {:induction false} AssignKeys<V>(es: seq<(string, V)>, key: string, value: V)
    ensures KeysOf(Assign(es, key, value)) == if key in KeysOf(es) then KeysOf(es) else KeysOf(es) + [key]
  {
    if es != [] {
      assert KeysOf(es) == [es[0].0] + KeysOf(es[1..]);
      if es[0].0 != key {
        AssignKeys(es[1..], key, value);
        assert KeysOf(Assign(es, key, value)) == [es[0].0] + KeysOf(Assign(es[1..], key, value));
      } else {
        assert KeysOf(Assign(es, key, value)) == [key] + KeysOf(es[1..]);
      }
    }
  }

  /** Assigning a key that is not present appends the pair. */
  lemma {:induction false} AssignNew<V>(es: seq<(string, V)>, key: string, value: V)
    requires key !in KeysOf(es)
    ensures Assign(es, key, value) == es + [(key, value)]
  {
    if es != [] {
      assert KeysOf(es) == [es[0].0] + KeysOf(es[1..]);
      AssignNew(es[1..], key, value);
      assert es + [(key, value)] == [es[0]] + (es[1..] + [(key, value)]);
    }
  }

  /** Assigning the key of pair `i` (keys distinct) replaces that pair's value in its place. */
  lemma {:induction false} AssignExisting<V>(es: seq<(string, V)>, i: nat, value: V)
    requires DistinctKeys(es) && i < |es|
    ensures Assign(es, es[i].0, value) == es[i := (es[i].0, value)]
  {
    if i > 0 {
      AssignExisting(es[1..], i - 1, value);
      assert es[i := (es[i].0, value)] == [es[0]] + es[1..][i - 1 := (es[i].0, value)];
    }
  }

  /** An assignment keeps the keys distinct. */
  lemma AssignDistinct<V>(es: seq<(string, V)>, key: string, value: V)
    requires DistinctKeys(es)
    ensures DistinctKeys(Assign(es, key, value))
  {
    var r := Assign(es, key, value);
    AssignKeys(es, key, value);
    forall i, j | 0 <= i < j < |r| ensures r[i].0 != r[j].0 {
      assert KeysOf(r)[i] == r[i].0 && KeysOf(r)[j] == r[j].0;
      if j < |es| {
        assert KeysOf(es)[i] == es[i].0 && KeysOf(es)[j] == es[j].0;
      } else {
        assert KeysOf(es)[i] == es[i].0;
      }
    }
  }

  /** An assignment leaves the size alone when the key is present and adds one otherwise. */
  lemma AssignSize<V>(es: seq<(string, V)>, key: string, value: V)
    ensures |Assign(es, key, value)| == if key in KeysOf(es) then |es| else |es| + 1
  {
    AssignKeys(es, key, value);
    assert |KeysOf(Assign(es, key, value))| == |Assign(es, key, value)|;
  }

  /** After `unset` the key is unmapped and every other key maps to what it mapped to. */
  lemma {:induction false} UnsetLookup<V>(es: seq<(string, V)>, key: string, other: string)
    ensures Lookup(Unset(es, key), other) == if other == key then None else Lookup(es, other)
  {
    if es != [] {
      UnsetLookup(es[1..], key, other);
      var rest := Unset(es[1..], key);
      if es[0].0 != key {
        assert Unset(es, key) == [es[0]] + rest && ([es[0]] + rest)[1..] == rest;
      } else {
        assert Unset(es, key) == rest;
      }
    }
  }

  /** `unset` of an absent key changes nothing; of a present key (keys distinct) it drops one pair. */
  lemma {:induction false} UnsetSize<V>(es: seq<(string, V)>, key: string)
    requires DistinctKeys(es)
    ensures key !in KeysOf(es) ==> Unset(es, key) == es
    ensures |Unset(es, key)| == if key in KeysOf(es) then |es| - 1 else |es|
  {
    if es != [] {
      assert KeysOf(es) == [es[0].0] + KeysOf(es[1..]);
      UnsetSize(es[1..], key);
      if es[0].0 == key {
        assert key !in KeysOf(es[1..]);
      } else {
        assert es == [es[0]] + es[1..];
      }
    }
  }

  /** `unset` keeps the others in order, so it keeps the keys distinct. */
  lemma {:induction false} UnsetDistinct<V>(es: seq<(string, V)>, key: string)
    requires DistinctKeys(es)
    ensures DistinctKeys(Unset(es, key))
    ensures forall k :: k in KeysOf(Unset(es, key)) ==> k in KeysOf(es) && k != key
  {
    if es != [] {
      UnsetDistinct(es[1..], key);
      var rest := Unset(es[1..], key);
      assert KeysOf(es) == [es[0].0] + KeysOf(es[1..]);
      if es[0].0 == key {
        assert Unset(es, key) == rest;
      } else {
        var r := [es[0]] + rest;
        assert KeysOf(r) == [es[0].0] + KeysOf(rest);
        forall j | 0 < j < |r| ensures r[0].0 != r[j].0 {
          assert KeysOf(rest)[j - 1] == r[j].0;
          assert r[j].0 in KeysOf(es[1..]);
        }
        assert Unset(es, key) == r;
      }
    }
  }

  /** Looking up in `p + [x]`: `p` first, then `x`. */
  lemma {:induction false} LookupAppend<V>(p: seq<(string, V)>, x: (string, V), key: string)
    ensures Lookup(p + [x], key) ==
            if Lookup(p, key).Some? then Lookup(p, key) else if x.0 == key then Some(x.1) else None
  {
    if p != [] {
      assert (p + [x])[1..] == p[1..] + [x];
      LookupAppend(p[1..], x, key);
    }
  }

  /** With distinct keys, the last key is not among the keys before it. */
  lemma LastKeyFresh<V>(fs: seq<(string, V)>)
    requires DistinctKeys(fs) && fs != []
    ensures fs[|fs| - 1].0 !in KeysOf(fs[..|fs| - 1])
  {
    var p := fs[..|fs| - 1];
    forall i | 0 <= i < |p| ensures KeysOf(p)[i] != fs[|fs| - 1].0 {
      assert fs[i].0 != fs[|fs| - 1].0;
    }
  }

  /** After `putAll` a key maps to its value in the added pairs when it is one of their keys, and to
      its old value otherwise. */
  lemma {:induction false} AssignAllLookup<V>(es: seq<(string, V)>, fs: seq<(string, V)>, key: string)
    requires DistinctKeys(fs)
    ensures Lookup(AssignAll(es, fs), key) == if Lookup(fs, key).Some? then Lookup(fs, key) else Lookup(es, key)
  {
    if fs != [] {
      var p, x := fs[..|fs| - 1], fs[|fs| - 1];
      assert fs == p + [x];
      AssignAllLookup(es, p, key);
      AssignLookup(AssignAll(es, p), x.0, x.1, key);
      LookupAppend(p, x, key);
      LastKeyFresh(fs);
      LookupFound(p, key);
    }
  }

  /** After `putAll` the keys already present keep their places and the new keys follow, in the
      order of the added pairs. */
  lemma {:induction false} AssignAllKeys<V>(es: seq<(string, V)>, fs: seq<(string, V)>)
    requires DistinctKeys(fs)
    ensures KeysOf(AssignAll(es, fs)) == KeysOf(es) + NewKeys(KeysOf(es), fs)
    ensures forall k :: k in NewKeys(KeysOf(es), fs) ==> k in KeysOf(fs)
  {
    if fs != [] {
      var p, x := fs[..|fs| - 1], fs[|fs| - 1];
      var ks := KeysOf(es);
      assert DistinctKeys(p);
      AssignAllKeys(es, p);
      var mid := AssignAll(es, p);
      AssignKeys(mid, x.0, x.1);
      LastKeyFresh(fs);
      assert (x.0 in KeysOf(mid)) == (x.0 in ks);
      forall k | k in NewKeys(ks, fs) ensures k in KeysOf(fs) {
        if k in NewKeys(ks, p) {
          assert k in KeysOf(p);
          var i :| 0 <= i < |p| && KeysOf(p)[i] == k;
          assert KeysOf(fs)[i] == k;
        } else {
          assert KeysOf(fs)[|fs| - 1] == k;
        }
      }
    }
  }

  /** `putAll` keeps the keys distinct. */
  lemma {:induction false} AssignAllDistinct<V>(es: seq<(string, V)>, fs: seq<(string, V)>)
    requires DistinctKeys(es)
    ensures DistinctKeys(AssignAll(es, fs))
  {
    if fs != [] {
      AssignAllDistinct(es, fs[..|fs| - 1]);
      AssignDistinct(AssignAll(es, fs[..|fs| - 1]), fs[|fs| - 1].0, fs[|fs| - 1].1);
    }
  }

  /** A map whose contents are a PHP array with string keys. */
  class ArrayMap<V> {
    /** The pairs in insertion order. */
    var data: seq<(string, V)>

    ghost predicate Valid()
      reads this
    {
      DistinctKeys(data)
    }

    /** `new ArrayMap()`: an empty map. */
    constructor ()
      ensures Valid() && data == []
    {
      data := [];
    }

    /** `new ArrayMap($array)` and `new ArrayMap($map)`: a map holding the given pairs. */
    constructor FromPairs(pairs: seq<(string, V)>)
      requires DistinctKeys(pairs)
      ensures Valid() && data == pairs
    {
      data := pairs;
    }

    /** `size()`. */
    method Size() returns (n: nat)
      ensures n == |data|
    {
      n := |data|;
    }

    /** `get($key, $default)`: the value of the pair with that key, or the default when there is none. */
    method Get(key: string, default: Option<V>) returns (r: Option<V>)
      requires Valid()
      ensures forall i :: 0 <= i < |data| && data[i].0 == key ==> r == Some(data[i].1)
      ensures key !in KeysOf(data) ==> r == default
    {
      var found := Lookup(data, key);
      LookupFound(data, key);
      forall i | 0 <= i < |data| && data[i].0 == key ensures found == Some(data[i].1) {
        LookupAt(data, i);
      }
      r := if found.Some? then found else default;
    }

    /** `containsKey($key)`: true for every key with a pair, whatever its value. */
    method ContainsKey(key: string) returns (b: bool)
      ensures b <==> exists i :: 0 <= i < |data| && data[i].0 == key
    {
      b := key in KeysOf(data);
      assert b ==> exists i :: 0 <= i < |data| && KeysOf(data)[i] == key;
      if exists i :: 0 <= i < |data| && data[i].0 == key {
        var i :| 0 <= i < |data| && data[i].0 == key;
        assert KeysOf(data)[i] == key;
      }
    }

    /** `put($key, $value)`. */
    method Put(key: string, value: V)
      requires Valid()
      modifies this
      ensures Valid() && data == Assign(old(data), key, value)
    {
      AssignDistinct(data, key, value);
      data := Assign(data, key, value);
    }

    /** `putAll($map)`: the other map's pairs put one by one, in its order. */
    method PutAll(other: ArrayMap<V>)
      requires Valid() && other.Valid()
      modifies this
      ensures Valid() && data == AssignAll(old(data), old(other.data))
    {
      var pairs := other.data;
      var i := 0;
      while i < |pairs|
        invariant 0 <= i <= |pairs|
        invariant Valid() && data == AssignAll(old(data), pairs[..i])
      {
        assert pairs[..i + 1][..i] == pairs[..i];
        Put(pairs[i].0, pairs[i].1);
        i := i + 1;
      }
      assert pairs[..i] == pairs;
    }

    /** `remove($key)`. */
    method Remove(key: string)
      requires Valid()
      modifies this
      ensures Valid() && data == Unset(old(data), key)
    {
      UnsetDistinct(data, key);
      data := Unset(data, key);
    }

    /** `clear()`. */
    method Clear()
      modifies this
      ensures Valid() && data == []
    {
      data := [];
    }

    /** `keys()`: the keys in insertion order. */
    method Keys() returns (ks: seq<string>)
      ensures |ks| == |data| && forall i :: 0 <= i < |data| ==> ks[i] == data[i].0
    {
      ks := KeysOf(data);
    }

    /** `values()`: the values in insertion order. */
    method Values() returns (vs: seq<V>)
      ensures |vs| == |data| && forall i :: 0 <= i < |data| ==> vs[i] == data[i].1
    {
      vs := ValuesOf(data);
    }

    /** `asArray()` and iteration: the pairs in insertion order. */
    method AsArray() returns (pairs: seq<(string, V)>)
      requires Valid()
      ensures pairs == data && DistinctKeys(pairs)
    {
      pairs := data;
    }

    /** `entryList()`: one new entry per pair, in insertion order, each bound to this map. */
    method EntryList() returns (entries: seq<ArrayMapEntry<V>>)
      ensures |entries| == |data|
      ensures forall i :: 0 <= i < |entries| ==>
                fresh(entries[i]) && entries[i].owner == this &&
                entries[i].key == data[i].0 && entries[i].value == data[i].1
    {
      entries := [];
      var i := 0;
      while i < |data|
        invariant 0 <= i <= |data|
        invariant |entries| == i
        invariant forall j :: 0 <= j < i ==>
                    fresh(entries[j]) && entries[j].owner == this &&
                    entries[j].key == data[j].0 && entries[j].value == data[j].1
      {
        var e := new ArrayMapEntry(data[i].0, data[i].1, this);
        entries := entries + [e];
        i := i + 1;
      }
    }
  }

  /** What the constructor may be given: nothing, a PHP array, another map, or anything else. */
  datatype Init<V> = NoArgument | FromArray(pairs: seq<(string, V)>) | FromMap(source: ArrayMap<V>) | Unsupported

  /** The exception a constructor throws on an argument of the wrong type. */
  datatype InvalidArgument = InvalidArgument

  /** `new ArrayMap($var)`: empty for no argument, the array's pairs, a copy of the other map's
      pairs, and InvalidArgumentException for anything else. */
  method NewArrayMap<V>(arg: Init<V>) returns (r: Result<ArrayMap<V>, InvalidArgument>)
    requires arg.FromArray? ==> DistinctKeys(arg.pairs)
    requires arg.FromMap? ==> arg.source.Valid()
    ensures r.Failure? <==> arg.Unsupported?
    ensures r.Success? ==> fresh(r.value) && r.value.Valid()
    ensures r.Success? ==> r.value.data == match arg
                                           case FromArray(pairs) => pairs
                                           case FromMap(source) => source.data
                                           case _ => []
  {
    if arg.Unsupported? {
      r := Failure(InvalidArgument);
    } else {
      var pairs := if arg.FromArray? then arg.pairs else if arg.FromMap? then arg.source.data else [];
      var m := new ArrayMap.FromPairs(pairs);
      r := Success(m);
    }
  }

  /** An entry of an `ArrayMap`: its key, the value it was created with or last set to, and the map
      it writes through to. */
  class ArrayMapEntry<V> {
    const key: string
    var value: V
    const owner: ArrayMap<V>

    constructor (key: string, value: V, owner: ArrayMap<V>)
      ensures this.key == key && this.value == value && this.owner == owner
    {
      this.key := key;
      this.value := value;
      this.owner := owner;
    }

    /** `setValue($value)`: the entry takes the value and puts it into its map under its key. */
    method SetValue(v: V)
      requires owner.Valid()
      modifies this, owner
      ensures value == v && owner.Valid()
      ensures owner.data == Assign(old(owner.data), key, v)
    {
      owner.Put(key, v);
      value := v;
    }

    /** `__toString()`: "[key=value]", the value written by `show`, PHP's string conversion. */
    function ToString(show: V -> string): (r: string)
      reads this
      ensures |r| == |key| + |show(value)| + 3
      ensures r[0] == '[' && r[1..|key| + 1] == key && r[|key| + 1] == '='
      ensures r[|key| + 2..|r| - 1] == show(value) && r[|r| - 1] == ']'
    {
      "[" + key + "=" + show(value) + "]"
    }
  }

  /** Writing through an entry changes the map at the entry's key only: that key maps to the new
      value, every other key to what it mapped to, and the keys keep their order. */
  lemma WriteThrough<V>(es: seq<(string, V)>, i: nat, v: V, other: string)
    requires DistinctKeys(es) && i < |es|
    ensures Lookup(Assign(es, es[i].0, v), es[i].0) == Some(v)
    ensures other != es[i].0 ==> Lookup(Assign(es, es[i].0, v), other) == Lookup(es, other)
    ensures KeysOf(Assign(es, es[i].0, v)) == KeysOf(es)
  {
    AssignLookup(es, es[i].0, v, es[i].0);
    AssignLookup(es, es[i].0, v, other);
    AssignKeys(es, es[i].0, v);
    assert KeysOf(es)[i] == es[i].0;
  }

  /** The map of the tests: "key1" => "foo", "key2" => "bar", "key3" => "baz", put in that order. */
  method Fixture() returns (m: ArrayMap<string>)
    ensures fresh(m) && m.Valid()
    ensures m.data == [("key1", "foo"), ("key2", "bar"), ("key3", "baz")]
  {
    m := new ArrayMap();
    m.Put("key1", "foo");
    assert m.data == [("key1", "foo")];
    m.Put("key2", "bar");
    assert m.data == [("key1", "foo"), ("key2", "bar")] by {
      assert "key1" != "key2";
    }
    ghost var two := m.data;
    m.Put("key3", "baz");
    assert two[1..] == [("key2", "bar")] && two[1..][1..] == [];
    assert "key1" != "key3" && "key2" != "key3";
    assert Assign(two[1..], "key3", "baz") == [("key2", "bar"), ("key3", "baz")];
  }

  /** `putAll` of "test1" => "hoge", "test2" => "fuga", "key3" => "piyo" into the test map: "key3"
      takes the new value in its place, "test1" and "test2" follow in that order. */
  lemma PutAllVector(es: seq<(string, string)>, fs: seq<(string, string)>)
    requires es == [("key1", "foo"), ("key2", "bar"), ("key3", "baz")]
    requires fs == [("test1", "hoge"), ("test2", "fuga"), ("key3", "piyo")]
    ensures AssignAll(es, fs) ==
            [("key1", "foo"), ("key2", "bar"), ("key3", "piyo"), ("test1", "hoge"), ("test2", "fuga")]
  {
    var a := Assign(es, "test1", "hoge");
    var b := Assign(a, "test2", "fuga");
    assert a == es + [("test1", "hoge")] by {
      assert KeysOf(es) == ["key1", "key2", "key3"];
      AssignNew(es, "test1", "hoge");
    }
    assert b == [("key1", "foo"), ("key2", "bar"), ("key3", "baz"), ("test1", "hoge"), ("test2", "fuga")] by {
      assert KeysOf(a) == ["key1", "key2", "key3", "test1"];
      AssignNew(a, "test2", "fuga");
    }
    assert Assign(b, "key3", "piyo") ==
           [("key1", "foo"), ("key2", "bar"), ("key3", "piyo"), ("test1", "hoge"), ("test2", "fuga")] by {
      assert KeysOf(b) == ["key1", "key2", "key3", "test1", "test2"];
      assert DistinctKeys(b) && b[2].0 == "key3";
      AssignExisting(b, 2, "piyo");
    }
    assert AssignAll(es, fs) == Assign(b, "key3", "piyo") by {
      assert fs[..2][..1] == fs[..1] && fs[..1][..0] == [];
      assert AssignAll(es, fs[..1]) == a;
      assert AssignAll(es, fs[..2]) == b;
    }
  }

  /** `remove("key4")` leaves the test map as it was; `remove("key3")` leaves two pairs, without "key3". */
  lemma RemoveVector(es: seq<(string, string)>)
    requires es == [("key1", "foo"), ("key2", "bar"), ("key3", "baz")]
    ensures Unset(es, "key4") == es
    ensures |Unset(es, "key3")| == 2 && Lookup(Unset(es, "key3"), "key3") == None
  {
    assert KeysOf(es) == ["key1", "key2", "key3"];
    assert DistinctKeys(es);
    UnsetSize(es, "key4");
    UnsetSize(es, "key3");
    UnsetLookup(es, "key3", "key3");
  }

  /** `setValue("hoge")` on the first entry of the test map writes "key1" => "hoge" through. */
  lemma SetValueVector(es: seq<(string, string)>)
    requires es == [("key1", "foo"), ("key2", "bar"), ("key3", "baz")]
    ensures Assign(es, "key1", "hoge") == [("key1", "hoge"), ("key2", "bar"), ("key3", "baz")]
  {
  }
}
