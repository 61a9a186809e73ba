/**
 * `Array.prototype.splice(start, 1)` applied to a fresh copy of a list, as
 * the settings editor does (`const copy = [...list]; copy.splice(index, 1)`).
 * `SpliceOne` says what the copy holds afterwards; `CopyAndSpliceOne` does
 * it the way the engine does, on an array, shifting the tail left by one.
 */
module JsArray {

  /** The position `splice` starts at: a negative start counts from the
      end (and stops at 0), a start past the end is the end. */
  function SpliceStart(len: nat, start: int): (k: nat)
    ensures k <= len
    ensures 0 <= start <= len ==> k == start
    ensures start > len ==> k == len
    ensures start < 0 ==> k == if len + start < 0 then 0 else len + start
  {
    if start < 0 then (if len + start < 0 then 0 else len + start)
    else if start > len then len
    else start
  }

  /** The list after `splice(start, 1)`: the element at the start position
      is gone and the others keep their order; a start at the end leaves
      the list as it was. */
  function SpliceOne<T>(s: seq<T>, start: int): (r: seq<T>)
    ensures var k := SpliceStart(|s|, start);
      && (k < |s| ==> |r| == |s| - 1)
      && (k == |s| ==> r == s)
      && (forall i :: 0 <= i < k && i < |r| ==> r[i] == s[i])
      && (forall i :: k <= i < |r| ==> r[i] == s[i + 1])
  {
    var k := SpliceStart(|s|, start);
    if k < |s| then s[..k] + s[k + 1..] else s
  }

  /** Removing a valid index keeps every other element, in order, and
      leaves no trace of the removed position. */
  lemma SpliceOneAtIndex<T>(s: seq<T>, index: int)
    requires 0 <= index < |s|
    ensures SpliceOne(s, index) == s[..index] + s[index + 1..]
    ensures multiset(SpliceOne(s, index)) + multiset{s[index]} == multiset(s)
  {
    assert s == s[..index] + [s[index]] + s[index + 1..];
  }

  /** `[...s]` followed by `splice(start, 1)` on the copy. */
  method CopyAndSpliceOne<T>(s: seq<T>, start: int) returns (r: seq<T>)
    ensures r == SpliceOne(s, start)
  {
    var a := new T[|s|](i requires 0 <= i < |s| => s[i]);
    var k := SpliceStart(|s|, start);
    if k == |s| {
      r := a[..];
      return;
    }
    var i := k;
    while i < a.Length - 1
      invariant k <= i <= a.Length - 1
      invariant forall j :: 0 <= j < k ==> a[j] == s[j]
      invariant forall j :: k <= j < i ==> a[j] == s[j + 1]
      invariant forall j :: i <= j < a.Length ==> a[j] == s[j]
    {
      a[i] := a[i + 1];
      i := i + 1;
    }
    r := a[..a.Length - 1];
  }
}
