/** The growable arrays of the reporting tools: empty at first, then a fixed first
    capacity, then doubling (src/report/repack.c, select.c, dedup.c, sign.c,
    diff.c, split.c). */
module Vectors {
  import Codecs

  /** Capacity after making room for one more element. */
  function Grown(first: nat, cap: nat): nat { if cap == 0 then first else 2 * cap }

  class Vector<T(!new)> {
    var items: array<T>
    var count: nat
    const first: nat

    ghost predicate Valid()
      reads this
    {
      count <= items.Length && first > 0
    }

    ghost function Contents(): seq<T>
      reads this, items
      requires Valid()
    {
      items[..count]
    }

    constructor (first: nat)
      requires first > 0
      ensures Valid() && Contents() == [] && fresh(items) && this.first == first && items.Length == 0
    {
      this.first := first;
      items := new T[0];
      count := 0;
    }

    /** Appends, moving to a larger array when full; a failed allocation changes nothing. */
    method Push(x: T) returns (ok: bool)
      requires Valid()
      modifies this, items
      ensures Valid() && (items == old(items) || fresh(items))
      ensures Contents() == old(Contents()) + if ok then [x] else []
      ensures ok && old(count) == old(items.Length) ==> items.Length == Grown(first, old(items.Length))
      ensures !ok || old(count) < old(items.Length) ==> items == old(items)
    {
      if count == items.Length {
        var newcap := Grown(first, items.Length);
        ok := Codecs.Allocate(newcap);
        if !ok {
          return;
        }
        var previous, n := items, count;
        items := new T[newcap](i requires 0 <= i < newcap reads previous => if i < n && i < previous.Length then previous[i] else x);
        assert items[..count] == previous[..count];
      }
      items[count] := x;
      count := count + 1;
      return true;
    }
  }
}
