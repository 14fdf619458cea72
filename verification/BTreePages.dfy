/**
 The array inside a tree page. Entries are shifted and copied in place by loops;
 each loop is one of the sequence operations the tree is built from, and stays
 within the page's capacity.
 */
module BTreePages {
  lemma InsertedIs<T>(s: seq<T>, i: nat, x: T, r: seq<T>)
    requires i <= |s| && |r| == |s| + 1 && r[i] == x
    requires (forall a | 0 <= a < i :: r[a] == s[a]) && forall a | i < a < |r| :: r[a] == s[a - 1]
    ensures r == s[..i] + [x] + s[i..]
  {
  }

  class PageArray<T(0)> {
    const slots: array<T>
    var size: nat

    ghost predicate Valid()
      reads this
    {
      size <= slots.Length
    }

    ghost function Contents(): seq<T>
      requires Valid()
      reads this, slots
    {
      slots[..size]
    }

    constructor (capacity: nat)
      ensures Valid() && Contents() == [] && slots.Length == capacity && fresh(slots)
    {
      slots := new T[capacity];
      size := 0;
    }

    /** The array of a page that holds `s`. */
    constructor Holding(capacity: nat, s: seq<T>)
      requires |s| <= capacity
      ensures Valid() && Contents() == s && slots.Length == capacity && fresh(slots)
    {
      slots := new T[capacity];
      size := |s|;
      new;
      var i := 0;
      while i < |s|
        invariant 0 <= i <= |s| && slots[..i] == s[..i] && fresh(slots)
        modifies slots
      {
        slots[i] := s[i];
        i := i + 1;
      }
    }

    /** Shifts the tail right by one and writes `x` at `i`. */
    method InsertAt(i: nat, x: T)
      requires Valid() && i <= size < slots.Length
      modifies this`size, slots
      ensures Valid() && Contents() == old(Contents()[..i] + [x] + Contents()[i..])
    {
      ghost var was := Contents();
      var j := size;
      while j > i
        invariant i <= j <= size == old(size)
        invariant forall a | 0 <= a < j :: slots[a] == old(slots[a])
        invariant forall a | j < a <= size :: slots[a] == old(slots[a - 1])
      {
        slots[j] := slots[j - 1];
        j := j - 1;
      }
      slots[i] := x;
      size := size + 1;
      InsertedIs(was, i, x, Contents());
    }

    /** Shifts what follows `i` left by one. */
    method RemoveAt(i: nat)
      requires Valid() && i < size
      modifies this`size, slots
      ensures Valid() && Contents() == old(Contents()[..i] + Contents()[i + 1..])
    {
      var j := i;
      while j < size - 1
        invariant i <= j <= size - 1 && size == old(size)
        invariant forall a | 0 <= a < i || j < a < size :: slots[a] == old(slots[a])
        invariant forall a | i <= a < j :: slots[a] == old(slots[a + 1])
      {
        slots[j] := slots[j + 1];
        j := j + 1;
      }
      size := size - 1;
    }

    /** The upper half goes to an empty page. */
    method MoveHalfTo(to: PageArray<T>)
      requires Valid() && to.Valid() && to != this && to.slots != slots && to.size == 0 && size <= to.slots.Length
      modifies this`size, to`size, to.slots
      ensures Valid() && to.Valid()
      ensures Contents() == old(Contents()[..size / 2]) && to.Contents() == old(Contents()[size / 2..])
    {
      var start := size / 2;
      CopyTo(to, start);
      size := start;
    }

    /** Appends everything from `start` on to the other page. */
    method CopyTo(to: PageArray<T>, start: nat)
      requires Valid() && to.Valid() && to != this && to.slots != slots
      requires start <= size && to.size + size - start <= to.slots.Length
      modifies to`size, to.slots
      ensures to.Valid() && to.Contents() == old(to.Contents() + Contents()[start..])
    {
      var base, i := to.size, 0;
      while i < size - start
        invariant 0 <= i <= size - start && to.size == base
        invariant to.slots[..base] == old(to.slots[..base])
        invariant to.slots[base..base + i] == slots[start..start + i]
      {
        to.slots[base + i] := slots[start + i];
        i := i + 1;
      }
      to.size := base + size - start;
    }

    method MoveAllTo(to: PageArray<T>)
      requires Valid() && to.Valid() && to != this && to.slots != slots && to.size + size <= to.slots.Length
      modifies this`size, to`size, to.slots
      ensures Valid() && to.Valid() && Contents() == [] && to.Contents() == old(to.Contents() + Contents())
    {
      CopyTo(to, 0);
      size := 0;
    }

    method MoveFirstToEndOf(to: PageArray<T>)
      requires Valid() && to.Valid() && to != this && to.slots != slots && size > 0 && to.size < to.slots.Length
      modifies this`size, slots, to`size, to.slots
      ensures Valid() && to.Valid()
      ensures Contents() == old(Contents()[1..]) && to.Contents() == old(to.Contents() + [slots[0]])
    {
      to.slots[to.size] := slots[0];
      to.size := to.size + 1;
      RemoveAt(0);
    }

    method MoveLastToFrontOf(to: PageArray<T>)
      requires Valid() && to.Valid() && to != this && to.slots != slots && size > 0 && to.size < to.slots.Length
      modifies this`size, to`size, to.slots
      ensures Valid() && to.Valid()
      ensures Contents() == old(Contents()[..size - 1]) && to.Contents() == old([slots[size - 1]] + to.Contents())
    {
      var last := slots[size - 1];
      size := size - 1;
      to.InsertAt(0, last);
    }
  }

  // ---------------------------------------------------------------------
  // On the pages of a tree: each of these works in place on arrays of the page's
  // capacity, and may only be asked for what fits
  // ---------------------------------------------------------------------

  method InsertInto<T(0)>(capacity: nat, s: seq<T>, i: nat, x: T) returns (r: seq<T>)
    requires i <= |s| < capacity
    ensures r == s[..i] + [x] + s[i..]
  {
    var page := new PageArray.Holding(capacity, s);
    page.InsertAt(i, x);
    r := page.slots[..page.size];
  }

  method RemoveFrom<T(0)>(capacity: nat, s: seq<T>, i: nat) returns (r: seq<T>)
    requires i < |s| <= capacity
    ensures r == s[..i] + s[i + 1..]
  {
    var page := new PageArray.Holding(capacity, s);
    page.RemoveAt(i);
    r := page.slots[..page.size];
  }

  method HalvesOf<T(0)>(capacity: nat, s: seq<T>) returns (lower: seq<T>, upper: seq<T>)
    requires |s| <= capacity
    ensures lower == s[..|s| / 2] && upper == s[|s| / 2..]
  {
    var page := new PageArray.Holding(capacity, s);
    var empty := new PageArray(capacity);
    page.MoveHalfTo(empty);
    lower, upper := page.slots[..page.size], empty.slots[..empty.size];
  }

  method Joined<T(0)>(capacity: nat, x: seq<T>, y: seq<T>) returns (r: seq<T>)
    requires |x| + |y| <= capacity
    ensures r == x + y
  {
    var left := new PageArray.Holding(capacity, x);
    var right := new PageArray.Holding(capacity, y);
    right.MoveAllTo(left);
    r := left.slots[..left.size];
  }

  method LastToFront<T(0)>(capacity: nat, x: seq<T>, y: seq<T>) returns (x': seq<T>, y': seq<T>)
    requires 0 < |x| <= capacity && |y| < capacity
    ensures x' == x[..|x| - 1] && y' == [x[|x| - 1]] + y
  {
    var left := new PageArray.Holding(capacity, x);
    var right := new PageArray.Holding(capacity, y);
    left.MoveLastToFrontOf(right);
    x', y' := left.slots[..left.size], right.slots[..right.size];
  }

  method FirstToEnd<T(0)>(capacity: nat, x: seq<T>, y: seq<T>) returns (x': seq<T>, y': seq<T>)
    requires |x| < capacity && 0 < |y| <= capacity
    ensures x' == x + [y[0]] && y' == y[1..]
  {
    var left := new PageArray.Holding(capacity, x);
    var right := new PageArray.Holding(capacity, y);
    right.MoveFirstToEndOf(left);
    x', y' := left.slots[..left.size], right.slots[..right.size];
  }
}
