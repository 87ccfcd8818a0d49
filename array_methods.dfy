/** `ArrayMethods.remove` and `ArrayMethods.removeKeys`: in-place removal of
    one array element and of some properties of an object. */
module ArrayMethods {
  import opened Wrappers

  /** A JavaScript array: a growable list of elements, changed in place. */
  class JsArray<T> {
    var items: seq<T>

    constructor (items: seq<T>)
      ensures this.items == items
    {
      this.items := items;
    }
  }

  /** A JavaScript object seen as its own properties, changed in place. */
  class JsObject<V> {
    var entries: map<string, V>

    constructor (entries: map<string, V>)
      ensures this.entries == entries
    {
      this.entries := entries;
    }
  }

  /** `s.indexOf(x)`: the position of the first occurrence of `x`, or -1. */
  function IndexOf<T(==)>(s: seq<T>, x: T): (r: int)
    ensures -1 <= r < |s|
    ensures r == -1 <==> x !in s
    ensures r >= 0 ==> s[r] == x && x !in s[..r]
    decreases |s|
  {
    if |s| == 0 then -1
    else if s[0] == x then 0
    else
      var k := IndexOf(s[1..], x);
      assert k >= 0 ==> s[..k + 1] == [s[0]] + s[1..][..k];
      if k == -1 then -1 else k + 1
  }

  /** The list after deleting the first occurrence of `x`, if there is one. */
  function RemoveFirst<T(==)>(s: seq<T>, x: T): (r: seq<T>)
    ensures x !in s ==> r == s
    ensures x in s ==>
      && |r| == |s| - 1
      && r[..IndexOf(s, x)] == s[..IndexOf(s, x)]
      && (forall j :: IndexOf(s, x) <= j < |r| ==> r[j] == s[j + 1])
      && multiset(r) + multiset{x} == multiset(s)
  {
    var i := IndexOf(s, x);
    if i > -1 then
      assert s == s[..i] + [s[i]] + s[i + 1..];
      s[..i] + s[i + 1..]
    else s
  }

  /** Splices out the first occurrence of `key` and returns the same array. */
  method Remove<T(==)>(key: T, arr: JsArray<T>) returns (r: JsArray<T>)
    modifies arr
    ensures r == arr
    ensures arr.items == RemoveFirst(old(arr.items), key)
  {
    var index := IndexOf(arr.items, key);
    if index > -1 {
      arr.items := arr.items[..index] + arr.items[index + 1..];
    }
    r := arr;
  }

  /** The keys to delete, `[]` when the argument is omitted. */
  function KeyList(keysToRemove: Option<seq<string>>): seq<string> {
    if keysToRemove.Some? then keysToRemove.value else []
  }

  /** The set of keys listed in `ks`. */
  function KeySet(ks: seq<string>): set<string> {
    set k | k in ks
  }

  /** Deletes every listed key from `data` and returns the same object; every
      other property keeps its value. */
  method RemoveKeys<V>(data: JsObject<V>, keysToRemove: Option<seq<string>>) returns (r: JsObject<V>)
    modifies data
    ensures r == data
    ensures data.entries == old(data.entries) - KeySet(KeyList(keysToRemove))
    ensures forall k :: k in KeyList(keysToRemove) ==> k !in data.entries
    ensures KeyList(keysToRemove) == [] ==> data.entries == old(data.entries)
    ensures forall k :: k in old(data.entries) && k !in KeyList(keysToRemove) ==>
      k in data.entries && data.entries[k] == old(data.entries)[k]
  {
    var keys := KeyList(keysToRemove);
    ghost var original := data.entries;
    var i := 0;
    while i < |keys|
      invariant 0 <= i <= |keys|
      invariant data.entries == original - KeySet(keys[..i])
    {
      data.entries := data.entries - {keys[i]};
      assert KeySet(keys[..i + 1]) == KeySet(keys[..i]) + {keys[i]} by {
        assert keys[..i + 1] == keys[..i] + [keys[i]];
      }
      i := i + 1;
    }
    assert keys[..|keys|] == keys;
    r := data;
  }
}
