/** How a plain JavaScript object (`{}`) treats the strings used as its keys:
    which names it already answers through its prototype, and the order in
    which a `for...in` loop visits its own keys. */
module PropertyKeys {

  /** The properties every `{}` inherits from Object.prototype in Node.js.
      Reading one of them from an object that has no own key of that name
      yields a truthy value (a function, or the prototype itself) that is not
      an array. */
  const OBJECT_PROTOTYPE_NAMES: set<string> := {
    "constructor", "hasOwnProperty", "isPrototypeOf", "propertyIsEnumerable",
    "toLocaleString", "toString", "valueOf", "__proto__",
    "__defineGetter__", "__defineSetter__", "__lookupGetter__", "__lookupSetter__"
  }

  predicate IsInherited(key: string) {
    key in OBJECT_PROTOTYPE_NAMES
  }

  /** The largest array index, 2^32 - 2. */
  const MAX_ARRAY_INDEX: nat := 0xFFFF_FFFE

  predicate IsDigit(c: char) {
    '0' <= c <= '9'
  }

  predicate AllDigits(s: string) {
    forall i :: 0 <= i < |s| ==> IsDigit(s[i])
  }

  /** The number a string of decimal digits denotes. */
  function DecimalValue(s: string): nat
    requires AllDigits(s)
  {
    if s == [] then 0
    else 10 * DecimalValue(s[..|s| - 1]) + (s[|s| - 1] as int - '0' as int)
  }

  /** An array index in the sense of section 6.1.7 of ECMA-262: the canonical
      decimal spelling (no sign, no leading zero) of an integer from 0 to
      2^32 - 2. */
  predicate IsArrayIndex(key: string) {
    && |key| > 0
    && AllDigits(key)
    && (key[0] == '0' ==> |key| == 1)
    && DecimalValue(key) <= MAX_ARRAY_INDEX
  }

  predicate AllArrayIndices(s: seq<string>) {
    forall i :: 0 <= i < |s| ==> IsArrayIndex(s[i])
  }

  predicate Ascending(s: seq<string>) {
    && AllArrayIndices(s)
    && forall i, j :: 0 <= i < j < |s| ==> DecimalValue(s[i]) <= DecimalValue(s[j])
  }

  /** The keys of `keys` that are array indices, in their original order. */
  function IndexKeys(keys: seq<string>): (r: seq<string>)
    ensures AllArrayIndices(r)
  {
    if keys == [] then []
    else (if IsArrayIndex(keys[0]) then [keys[0]] else []) + IndexKeys(keys[1..])
  }

  /** The keys of `keys` that are not array indices, in their original order. */
  function NamedKeys(keys: seq<string>): (r: seq<string>)
    ensures forall i :: 0 <= i < |r| ==> !IsArrayIndex(r[i])
  {
    if keys == [] then []
    else (if IsArrayIndex(keys[0]) then [] else [keys[0]]) + NamedKeys(keys[1..])
  }

  lemma {:induction false} SplitKeys(keys: seq<string>)
    ensures multiset(IndexKeys(keys)) + multiset(NamedKeys(keys)) == multiset(keys)
  {
    if keys != [] {
      var rest := keys[1..];
      SplitKeys(rest);
      assert keys == [keys[0]] + rest;
      assert multiset(keys) == multiset{keys[0]} + multiset(rest);
      if IsArrayIndex(keys[0]) {
        assert IndexKeys(keys) == [keys[0]] + IndexKeys(rest);
        assert NamedKeys(keys) == NamedKeys(rest);
        assert multiset(IndexKeys(keys)) == multiset{keys[0]} + multiset(IndexKeys(rest));
      } else {
        assert IndexKeys(keys) == IndexKeys(rest);
        assert NamedKeys(keys) == [keys[0]] + NamedKeys(rest);
        assert multiset(NamedKeys(keys)) == multiset{keys[0]} + multiset(NamedKeys(rest));
      }
    }
  }

  lemma {:induction false} NamedKeysAppend(a: seq<string>, b: seq<string>)
    ensures NamedKeys(a + b) == NamedKeys(a) + NamedKeys(b)
  {
    if a != [] {
      assert (a + b)[1..] == a[1..] + b;
      NamedKeysAppend(a[1..], b);
    } else {
      assert a + b == b;
    }
  }

  lemma {:induction false} NamedKeysOfIndices(s: seq<string>)
    requires AllArrayIndices(s)
    ensures NamedKeys(s) == []
  {
    if s != [] {
      NamedKeysOfIndices(s[1..]);
    }
  }

  lemma {:induction false} NamedKeysOfNames(s: seq<string>)
    requires forall i :: 0 <= i < |s| ==> !IsArrayIndex(s[i])
    ensures NamedKeys(s) == s
  {
    if s != [] {
      NamedKeysOfNames(s[1..]);
      assert s == [s[0]] + s[1..];
    }
  }

  lemma {:induction false} IndexKeysOfNames(s: seq<string>)
    requires forall i :: 0 <= i < |s| ==> !IsArrayIndex(s[i])
    ensures IndexKeys(s) == []
  {
    if s != [] {
      IndexKeysOfNames(s[1..]);
    }
  }

  /** Places an array index into an ascending list of array indices. */
  function InsertIndex(key: string, s: seq<string>): (r: seq<string>)
    requires IsArrayIndex(key) && Ascending(s)
    ensures Ascending(r)
    ensures multiset(r) == multiset(s) + multiset{key}
  {
    if s == [] then [key]
    else if DecimalValue(key) <= DecimalValue(s[0]) then [key] + s
    else
      var rest := InsertIndex(key, s[1..]);
      assert s == [s[0]] + s[1..];
      LeastOfInsert(s, key, rest);
      [s[0]] + rest
  }

  /** The head of an ascending list that is below `key` stays below every
      element once `key` joins the tail. */
  lemma LeastOfInsert(s: seq<string>, key: string, rest: seq<string>)
    requires |s| > 0 && Ascending(s) && IsArrayIndex(key)
    requires DecimalValue(s[0]) < DecimalValue(key)
    requires Ascending(rest) && multiset(rest) == multiset(s[1..]) + multiset{key}
    ensures Ascending([s[0]] + rest)
  {
    forall j | 0 <= j < |rest|
      ensures DecimalValue(s[0]) <= DecimalValue(rest[j])
    {
      HeadBelowMember(s, key, rest, j);
    }
    var t := [s[0]] + rest;
    forall i, j | 0 <= i < j < |t|
      ensures DecimalValue(t[i]) <= DecimalValue(t[j])
    {
      assert t[j] == rest[j - 1];
      if i > 0 {
        assert t[i] == rest[i - 1];
      }
    }
  }

  lemma HeadBelowMember(s: seq<string>, key: string, rest: seq<string>, j: nat)
    requires |s| > 0 && Ascending(s) && IsArrayIndex(key)
    requires DecimalValue(s[0]) < DecimalValue(key)
    requires multiset(rest) == multiset(s[1..]) + multiset{key}
    requires j < |rest|
    ensures IsArrayIndex(rest[j]) && DecimalValue(s[0]) <= DecimalValue(rest[j])
  {
    assert rest[j] in multiset(rest);
    if rest[j] != key {
      assert rest[j] in multiset(s[1..]);
      var m :| 0 <= m < |s[1..]| && s[1..][m] == rest[j];
      assert s[m + 1] == rest[j];
    }
  }

  /** Insertion sort of array indices by numeric value. */
  function SortIndices(s: seq<string>): (r: seq<string>)
    requires AllArrayIndices(s)
    ensures Ascending(r)
    ensures multiset(r) == multiset(s)
  {
    if s == [] then []
    else
      assert s == s[..|s| - 1] + [s[|s| - 1]];
      InsertIndex(s[|s| - 1], SortIndices(s[..|s| - 1]))
  }

  /** The order in which `for...in` visits the own keys of an ordinary object
      whose keys were created in the order `created` (section 10.1.11.1 of
      ECMA-262): array indices first, in ascending numeric order, then every
      other key in creation order. Every key is visited exactly once. */
  function ForInOrder(created: seq<string>): (keys: seq<string>)
    ensures multiset(keys) == multiset(created)
  {
    var indices := SortIndices(IndexKeys(created));
    SplitKeys(created);
    indices + NamedKeys(created)
  }

  /** No array index is visited after a key that is not one, and array
      indices are visited in ascending numeric order. */
  lemma ForInOrderIndicesFirst(created: seq<string>)
    ensures var keys := ForInOrder(created);
      forall i, j :: 0 <= i < j < |keys| && IsArrayIndex(keys[j]) ==>
        IsArrayIndex(keys[i]) && DecimalValue(keys[i]) <= DecimalValue(keys[j])
  {
    var indices := SortIndices(IndexKeys(created));
    var keys := indices + NamedKeys(created);
    forall i, j | 0 <= i < j < |keys| && IsArrayIndex(keys[j])
      ensures IsArrayIndex(keys[i]) && DecimalValue(keys[i]) <= DecimalValue(keys[j])
    {
      assert j < |indices|;
    }
  }

  /** The keys that are not array indices are visited in creation order. */
  lemma ForInOrderKeepsNamedOrder(created: seq<string>)
    ensures NamedKeys(ForInOrder(created)) == NamedKeys(created)
  {
    var indices := SortIndices(IndexKeys(created));
    NamedKeysAppend(indices, NamedKeys(created));
    NamedKeysOfIndices(indices);
    NamedKeysOfNames(NamedKeys(created));
  }

  /** When no key is an array index, `for...in` visits the keys exactly in
      creation order. */
  lemma ForInOrderOfNames(created: seq<string>)
    requires forall i :: 0 <= i < |created| ==> !IsArrayIndex(created[i])
    ensures ForInOrder(created) == created
  {
    IndexKeysOfNames(created);
    NamedKeysOfNames(created);
  }

  /** An object with a single own key visits just that key. */
  lemma ForInOrderOfOne(key: string)
    ensures ForInOrder([key]) == [key]
  {
    assert [key][1..] == [];
    if IsArrayIndex(key) {
      assert IndexKeys([key]) == [key] + IndexKeys([]);
      assert NamedKeys([key]) == [] + NamedKeys([]);
      assert SortIndices([key]) == [key] by {
        assert [key][..0] == [];
      }
    } else {
      assert IndexKeys([key]) == [] + IndexKeys([]);
      assert NamedKeys([key]) == [key] + NamedKeys([]);
    }
  }

  /** A key created after a named key is still visited first when it is an
      array index. */
  lemma ForInOrderOfIndexThenName(named: string, index: string)
    requires !IsArrayIndex(named) && IsArrayIndex(index)
    ensures ForInOrder([named, index]) == [index, named]
  {
    assert IndexKeys([named, index]) == [index] by {
      assert [named, index][1..] == [index] && [index][1..] == [];
      assert IndexKeys([index]) == [index] + IndexKeys([]);
      assert IndexKeys([named, index]) == [] + IndexKeys([index]);
    }
    assert NamedKeys([named, index]) == [named] by {
      assert [named, index][1..] == [index] && [index][1..] == [];
      assert NamedKeys([index]) == [] + NamedKeys([]);
      assert NamedKeys([named, index]) == [named] + NamedKeys([index]);
    }
    assert SortIndices([index]) == [index] by {
      assert [index][..0] == [];
    }
  }
}
