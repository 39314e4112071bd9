/**
 * The sorted queue of src/helpers/structures.ts: a binary search that yields
 * an insertion point, a splice insert that keeps a sequence ascending by key,
 * and the `SortedArr` object that holds such a sequence with its key function.
 * A JavaScript array that `splice` grows in place is a `seq` value here; the
 * object that owns it reassigns its field.
 */
module Structures {

  /** The elements at `i` and `j` are in order under `key`. */
  ghost predicate KeysInOrder<T>(s: seq<T>, key: T -> int, i: int, j: int)
    requires 0 <= i < j < |s|
  {
    key(s[i]) <= key(s[j])
  }

  /**
   * `s` is ascending (not strictly: equal keys may repeat) under `key`. The
   * pairs are named by KeysInOrder, so a proof mentions the pairs it uses.
   */
  ghost predicate Ascending<T>(s: seq<T>, key: T -> int)
  {
    forall i, j :: 0 <= i < j < |s| ==> KeysInOrder(s, key, i, j)
  }

  /** `r` is a place where an element with key `el` may be inserted. */
  ghost predicate InsertionPoint<T>(s: seq<T>, key: T -> int, el: int, r: int)
  {
    && 0 <= r <= |s|
    && (forall j :: 0 <= j < r ==> key(s[j]) <= el)
    && (forall j :: r <= j < |s| ==> el <= key(s[j]))
  }

  /** Some element of `s` has key `el`. */
  ghost predicate HasKey<T>(s: seq<T>, key: T -> int, el: int)
  {
    exists j :: 0 <= j < |s| && key(s[j]) == el
  }

  /**
   * binSearch: the index of some element with key `el` when there is one,
   * otherwise the first index whose key is larger than `el`.
   */
  method BinSearch<T>(arr: seq<T>, el: int, key: T -> int) returns (r: int)
    requires Ascending(arr, key)
    ensures InsertionPoint(arr, key, el, r)
    ensures HasKey(arr, key, el) <==> r < |arr| && key(arr[r]) == el
    ensures !HasKey(arr, key, el) ==>
              (forall j :: 0 <= j < r ==> key(arr[j]) < el) &&
              (forall j :: r <= j < |arr| ==> el < key(arr[j]))
  {
    var a, b := 0, |arr| - 1;
    while a <= b
      invariant 0 <= a <= b + 1 <= |arr|
      invariant forall j :: 0 <= j < a ==> key(arr[j]) < el
      invariant forall j :: b < j < |arr| ==> el < key(arr[j])
      decreases b - a
    {
      var idxMid := (a + b) / 2;
      var elMid := key(arr[idxMid]);
      forall j | 0 <= j < idxMid ensures key(arr[j]) <= elMid {
        assert KeysInOrder(arr, key, j, idxMid);
      }
      forall j | idxMid < j < |arr| ensures elMid <= key(arr[j]) {
        assert KeysInOrder(arr, key, idxMid, j);
      }
      if elMid > el {
        b := idxMid - 1;
      } else if elMid < el {
        a := idxMid + 1;
      } else {
        return idxMid;
      }
    }
    return a;
  }

  /** The sequence that `splice(pos, 0, el)` leaves behind. */
  function Spliced<T>(s: seq<T>, pos: nat, el: T): (r: seq<T>)
    requires pos <= |s|
    ensures |r| == |s| + 1 && r[pos] == el
    ensures forall i :: 0 <= i < pos ==> r[i] == s[i]
    ensures forall i :: pos < i < |r| ==> r[i] == s[i - 1]
    decreases pos
  {
    if pos == 0 then
      [el] + s
    else
      [s[0]] + Spliced(s[1..], pos - 1, el)
  }

  /** Splicing adds exactly the one element: nothing is lost or duplicated. */
  lemma {:induction false} SplicedMultiset<T>(s: seq<T>, pos: nat, el: T)
    requires pos <= |s|
    ensures multiset(Spliced(s, pos, el)) == multiset(s) + multiset{el}
    decreases pos
  {
    if pos > 0 {
      SplicedMultiset(s[1..], pos - 1, el);
      assert s == [s[0]] + s[1..];
    }
  }

  /** The sequence that `splice(0, k)` leaves behind: `s` without its first `k` elements. */
  function DropFirst<T>(s: seq<T>, k: nat): (r: seq<T>)
    requires k <= |s|
    ensures |r| == |s| - k
    ensures forall i :: 0 <= i < |r| ==> r[i] == s[k + i]
    decreases k
  {
    if k == 0 then s else DropFirst(s[1..], k - 1)
  }

  /** Inserting at an insertion point keeps the sequence ascending. */
  lemma SplicedAscending<T>(s: seq<T>, key: T -> int, pos: nat, el: T)
    requires Ascending(s, key) && InsertionPoint(s, key, key(el), pos)
    ensures Ascending(Spliced(s, pos, el), key)
  {
    var r := Spliced(s, pos, el);
    forall i, j | 0 <= i < j < |r| ensures KeysInOrder(r, key, i, j) {
      var a := if i < pos then i else i - 1;
      var b := if j < pos then j else j - 1;
      if i != pos && j != pos && a < b {
        assert KeysInOrder(s, key, a, b);
      }
    }
  }

  /** Dropping a prefix keeps the rest ascending. */
  lemma DropFirstAscending<T>(s: seq<T>, key: T -> int, k: nat)
    requires k <= |s| && Ascending(s, key)
    ensures Ascending(DropFirst(s, k), key)
  {
    var r := DropFirst(s, k);
    forall i, j | 0 <= i < j < |r| ensures KeysInOrder(r, key, i, j) {
      assert KeysInOrder(s, key, k + i, k + j);
    }
  }

  /**
   * sortedInsert: splices `el` in at the position binSearch finds for its key
   * and returns that position.
   */
  method SortedInsert<T>(arr: seq<T>, el: T, key: T -> int) returns (arr': seq<T>, pos: int)
    requires Ascending(arr, key)
    ensures 0 <= pos <= |arr| && arr' == Spliced(arr, pos, el)
    ensures InsertionPoint(arr, key, key(el), pos)
    ensures Ascending(arr', key)
  {
    pos := BinSearch(arr, key(el), key);
    arr' := Spliced(arr, pos, el);
    SplicedAscending(arr, key, pos, el);
  }

  /** SortedArr: a sequence kept ascending by the key function it was built with. */
  class SortedArr<T> {
    var arr: seq<T>
    const key: T -> int

    ghost predicate Valid()
      reads this
    {
      Ascending(arr, key)
    }

    constructor (arr: seq<T>, key: T -> int)
      requires Ascending(arr, key)
      ensures Valid() && this.arr == arr && this.key == key
    {
      this.arr := arr;
      this.key := key;
    }

    method Insert(el: T) returns (pos: int)
      requires Valid()
      modifies this
      ensures Valid()
      ensures 0 <= pos <= |old(arr)| && arr == Spliced(old(arr), pos, el)
      ensures InsertionPoint(old(arr), key, key(el), pos)
    {
      arr, pos := SortedInsert(arr, el, key);
    }

    method Search(el: int) returns (r: int)
      requires Valid()
      ensures InsertionPoint(arr, key, el, r)
      ensures HasKey(arr, key, el) <==> r < |arr| && key(arr[r]) == el
    {
      r := BinSearch(arr, el, key);
    }
  }
}
