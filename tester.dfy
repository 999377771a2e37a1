/** `Tester.arr`: the maximum of a non-empty array. Elements are compared
    through `key`, standing for `compareTo`: `element.compareTo(max) == 1`
    holds exactly when `key(element) > key(max)`. Distinct elements may share
    a key, which is what makes ties observable. */
module Tester {

  /** The index of the first element whose key no element exceeds. */
  function MaxIndex<T>(s: seq<T>, key: T -> int): (i: nat)
    requires |s| > 0
    ensures i < |s|
    ensures forall j :: 0 <= j < |s| ==> key(s[j]) <= key(s[i])
    ensures forall j :: 0 <= j < i ==> key(s[j]) < key(s[i])
    decreases |s|
  {
    if |s| == 1 then 0
    else
      var k := MaxIndex(s[..|s| - 1], key);
      if key(s[|s| - 1]) > key(s[k]) then |s| - 1 else k
  }

  /** The two properties of `MaxIndex` single out one index. */
  lemma MaxIndexUnique<T>(s: seq<T>, key: T -> int, i: nat)
    requires i < |s|
    requires forall j :: 0 <= j < |s| ==> key(s[j]) <= key(s[i])
    requires forall j :: 0 <= j < i ==> key(s[j]) < key(s[i])
    ensures MaxIndex(s, key) == i
  {
  }

  /** A one-element array yields its element. */
  lemma MaxIndexSingleton<T>(x: T, key: T -> int)
    ensures MaxIndex([x], key) == 0
  {
  }

  /** `arr`: start from the first element and scan the whole array,
      replacing the candidate only by an element whose key is strictly
      greater. The array is only read. */
  method Arr<T>(arr: array<T>, key: T -> int) returns (max: T)
    requires arr.Length > 0
    ensures max == arr[MaxIndex(arr[..], key)]
    ensures forall j :: 0 <= j < arr.Length ==> key(arr[j]) <= key(max)
  {
    max := arr[0];
    ghost var m := 0;
    for i := 0 to arr.Length
      invariant m < arr.Length && max == arr[m]
      invariant i == 0 ==> m == 0
      invariant 0 < i ==> m == MaxIndex(arr[..i], key)
    {
      var element := arr[i];
      assert arr[..i + 1][..i] == arr[..i];
      if key(element) > key(max) {
        max := element;
        m := i;
      }
    }
    assert arr[..arr.Length] == arr[..];
  }
}
