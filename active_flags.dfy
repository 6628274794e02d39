/**
  The `active` CSS class as it sits on the elements of a NodeList: one flag per
  element, in document order. The page's widgets write such lists in two ways,
  "exactly this one" and "all of them"; both are defined here once, with the
  loops that write them into an array in place.
*/
module ActiveFlags {

  /** The flags after `classList.add('active')` on item k and `remove('active')` on every other item. */
  function OnlyActive(n: nat, k: int): (flags: seq<bool>)
    ensures |flags| == n
  {
    seq(n, i => i == k)
  }

  /** The flags after `classList.add('active')` on every item. */
  function AllActive(n: nat): (flags: seq<bool>)
    ensures |flags| == n
  {
    seq(n, i => true)
  }

  /** The number of active items. */
  function CountActive(flags: seq<bool>): (c: nat)
    ensures c <= |flags|
    ensures c == 0 <==> forall i :: 0 <= i < |flags| ==> !flags[i]
  {
    if |flags| == 0 then 0
    else CountActive(flags[..|flags| - 1]) + (if flags[|flags| - 1] then 1 else 0)
  }

  /** Marking one index leaves exactly one item active when the index exists, and none otherwise. */
  lemma {:induction false} OnlyActiveCount(n: nat, k: int)
    ensures CountActive(OnlyActive(n, k)) == if 0 <= k < n then 1 else 0
  {
    if n > 0 {
      OnlyActiveCount(n - 1, k);
      assert OnlyActive(n, k)[..n - 1] == OnlyActive(n - 1, k);
    }
  }

  /** Marking every item leaves all of them active. */
  lemma {:induction false} AllActiveCount(n: nat)
    ensures CountActive(AllActive(n)) == n
  {
    if n > 0 {
      AllActiveCount(n - 1);
      assert AllActive(n)[..n - 1] == AllActive(n - 1);
    }
  }

  /** The `forEach` that adds `active` to item k and removes it from every other item. */
  method MarkOnlyActive(items: array<bool>, k: int)
    modifies items
    ensures items[..] == OnlyActive(items.Length, k)
  {
    var index := 0;
    while index < items.Length
      invariant 0 <= index <= items.Length
      invariant forall j :: 0 <= j < index ==> items[j] == (j == k)
    {
      if index == k {
        items[index] := true;
      } else {
        items[index] := false;
      }
      index := index + 1;
    }
  }

  /** The `forEach` that adds `active` to every item. */
  method MarkAllActive(items: array<bool>)
    modifies items
    ensures items[..] == AllActive(items.Length)
  {
    var index := 0;
    while index < items.Length
      invariant 0 <= index <= items.Length
      invariant forall j :: 0 <= j < index ==> items[j]
    {
      items[index] := true;
      index := index + 1;
    }
  }
}
