/**
 * The growable vector of json_parser.c: a buffer of `capacity` slots of which the
 * first `size` hold elements. The buffer starts with one slot and doubles when full.
 */
module Vectors {

  import opened Wrappers

  /** p is a power of two (1, 2, 4, ...). */
  predicate IsPow2(p: nat)
  {
    p == 1 || (p >= 2 && p % 2 == 0 && IsPow2(p / 2))
  }

  /** The smallest power of two that is at least n (1 when n is 0). */
  function CeilPow2(n: nat): (r: nat)
    ensures IsPow2(r) && n <= r
    ensures r == 1 || r < 2 * n
  {
    if n <= 1 then 1
    else
      var h := CeilPow2((n + 1) / 2);
      assert h != 1 ==> h % 2 == 0;
      2 * h
  }

  lemma {:induction false} Pow2Gap(p: nat, q: nat)
    requires IsPow2(p) && IsPow2(q) && p < q
    ensures 2 * p <= q
    decreases q
  {
    if p != 1 {
      Pow2Gap(p / 2, q / 2);
    }
  }

  /** CeilPow2(n) is the only power of two in [n, 2n) (or 1). */
  lemma CeilPow2Unique(p: nat, n: nat)
    requires IsPow2(p) && n <= p && (p == 1 || p < 2 * n)
    ensures p == CeilPow2(n)
  {
    var c := CeilPow2(n);
    if p < c {
      Pow2Gap(p, c);
    } else if c < p {
      Pow2Gap(c, p);
    }
  }

  /**
   * One push onto a vector whose capacity is CeilPow2(n) leaves the capacity at
   * CeilPow2(n + 1): doubling exactly when the buffer was full.
   */
  lemma CeilPow2Step(n: nat)
    ensures CeilPow2(n + 1) == if n >= CeilPow2(n) then 2 * CeilPow2(n) else CeilPow2(n)
  {
    var c := CeilPow2(n);
    if n >= c {
      assert n == c;
      assert IsPow2(2 * c) by {
        assert (2 * c) / 2 == c;
      }
      CeilPow2Unique(2 * c, n + 1);
    } else {
      assert c == 1 || c < 2 * (n + 1);
      CeilPow2Unique(c, n + 1);
    }
  }

  class Vector<T(0)> {
    var data: array?<T>
    var capacity: nat
    var size: nat

    /** The buffer is allocated, holds `capacity` slots, and `size` of them are in use. */
    ghost predicate Valid()
      reads this
    {
      data != null && data.Length == capacity && size <= capacity
    }

    /** The elements in push order. */
    function Elements(): (es: seq<T>)
      reads this, data
      requires Valid()
      ensures |es| == size
    {
      data[..size]
    }

    /** The capacity that vector_init followed by `size` pushes produces. */
    ghost predicate Grown()
      reads this
    {
      capacity == CeilPow2(size)
    }

    /** vector_init: one slot, no elements. */
    constructor Init()
      ensures Valid() && fresh(data)
      ensures capacity == 1 && size == 0 && Elements() == []
      ensures Grown()
    {
      data := new T[1];
      capacity := 1;
      size := 0;
    }

    /** vector_free: the buffer is released; the counters are left as they were. */
    method Free()
      modifies this
      ensures data == null && size == old(size) && capacity == old(capacity)
    {
      data := null;
    }

    /** vector_get: the element at an index the caller has already checked. */
    function Get(index: nat): (x: T)
      reads this, data
      requires Valid() && index < size
      ensures x == Elements()[index]
    {
      data[index]
    }

    /** vector_get_checked: absent exactly when the index is not below size. */
    function GetChecked(index: nat): (r: Option<T>)
      reads this, data
      requires Valid()
      ensures r.None? <==> index >= size
      ensures r.Some? ==> r.value == Elements()[index]
    {
      if index < size then Some(data[index]) else None
    }

    /**
     * vector_reserve: grows the buffer to newCapacity slots, keeping the elements,
     * and does nothing at all when newCapacity does not exceed the capacity.
     */
    method Reserve(newCapacity: nat)
      requires Valid()
      modifies this
      ensures Valid() && size == old(size) && Elements() == old(Elements())
      ensures capacity == if newCapacity <= old(capacity) then old(capacity) else newCapacity
      ensures newCapacity <= old(capacity) ==> data == old(data)
      ensures data == old(data) || fresh(data)
    {
      if newCapacity <= capacity {
        return;
      }
      var newData := new T[newCapacity];
      // realloc keeps the whole old block
      var i := 0;
      while i < capacity
        invariant i <= capacity
        invariant newData[..i] == data[..i]
        modifies newData
      {
        newData[i] := data[i];
        i := i + 1;
      }
      assert newData[..size] == newData[..capacity][..size];
      capacity := newCapacity;
      data := newData;
    }

    /**
     * vector_push_back: appends x, first doubling the buffer when it is full.
     * A vector grown only by pushes keeps capacity == CeilPow2(size).
     */
    method PushBack(x: T)
      requires Valid()
      modifies this, data
      ensures Valid() && Elements() == old(Elements()) + [x]
      ensures capacity == if old(size) >= old(capacity)
                          then (if old(capacity) > 0 then 2 * old(capacity) else 1)
                          else old(capacity)
      ensures data == old(data) || fresh(data)
      ensures old(Grown()) ==> Grown()
    {
      if size >= capacity {
        var newCapacity := if capacity > 0 then capacity * 2 else 1;
        Reserve(newCapacity);
      }
      data[size] := x;
      size := size + 1;
      CeilPow2Step(size - 1);
    }
  }

  /**
   * vector_init followed by one vector_push_back per element of xs: size is |xs|,
   * the elements are xs in push order, and the capacity is 1 doubled until it
   * reaches |xs|.
   */
  method Collect<T(0)>(xs: seq<T>) returns (v: Vector<T>)
    ensures fresh(v) && v.Valid()
    ensures v.Elements() == xs && v.size == |xs|
    ensures v.capacity == CeilPow2(|xs|)
  {
    v := new Vector<T>.Init();
    var i := 0;
    while i < |xs|
      invariant i <= |xs|
      invariant fresh(v) && fresh(v.data) && v.Valid() && v.Grown()
      invariant v.Elements() == xs[..i]
    {
      v.PushBack(xs[i]);
      assert xs[..i + 1] == xs[..i] + [xs[i]];
      i := i + 1;
    }
    assert xs[..i] == xs;
  }
}
