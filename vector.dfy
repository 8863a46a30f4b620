/**
 * `hsds::Vector<T>`: a growable buffer of `T` that can be frozen ("fixed")
 * or mapped onto memory holding a serialised image.
 *
 * The class keeps its objects in `buf`, an array of `capacity` slots of which
 * the first `size` hold the vector's elements.  `realloc` moves the elements
 * into a fresh buffer one by one, as the source's placement-new loop does.
 * The element type's `sizeof(T)` and its default value `T()` are the
 * constants `elemSize` and `blank`; `size_t` is 64 bits wide.
 *
 * The checks written `HSDS_DEBUG_IF` are modelled as they behave in a debug
 * build: they end the call with `hsds::Exception`, which is `Failure` here,
 * and leave the vector as it was.
 */
module Vectors {
  import opened Outcomes

  /** `HSDS_SIZE_MAX`, the largest `size_t`. */
  const SIZE_MAX: nat := 0xFFFF_FFFF_FFFF_FFFF

  /** `sizeof(size_t)`: the length of the size header of a serialised vector. */
  const HEADER_SIZE: nat := 8

  /** The capacity `reserve(request)` leaves behind a buffer of `capacity`
      slots: nothing changes when the buffer is already large enough;
      otherwise it doubles (capped at `maxSize`) when that is enough, and
      grows to exactly `request` when it is not. */
  function GrownCapacity(capacity: nat, request: nat, maxSize: nat): nat
  {
    if request <= capacity then capacity
    else if capacity > request / 2 then
      (if capacity > maxSize / 2 then maxSize else capacity * 2)
    else request
  }

  /** `reserve` never shrinks the buffer, always makes room for the request,
      never exceeds `max_size()`, and at least doubles a buffer it grows
      unless that would pass `max_size()`. */
  lemma GrownCapacityBounds(capacity: nat, request: nat, maxSize: nat)
    requires capacity <= maxSize && request <= maxSize
    ensures capacity <= GrownCapacity(capacity, request, maxSize) <= maxSize
    ensures request <= GrownCapacity(capacity, request, maxSize)
    ensures request > capacity ==>
              GrownCapacity(capacity, request, maxSize) >= if 2 * capacity <= maxSize then 2 * capacity else maxSize
  {
    if request > capacity && capacity > request / 2 {
      assert 2 * (request / 2) + 2 > request;
    }
  }

  /** `(n + 7) & ~7` on a `size_t`: `n` rounded up to a multiple of 8,
      wrapping around past `SIZE_MAX`. */
  function RoundUp8(n: nat): (r: nat)
    requires n <= SIZE_MAX
    ensures r % 8 == 0 && r <= SIZE_MAX
    ensures n + 7 <= SIZE_MAX ==> n <= r < n + 8
  {
    ((n + 7) % (SIZE_MAX + 1)) / 8 * 8
  }

  /** The size header and `n` bytes padded to a multiple of 8, as a
      `size_t`: a multiple of 8 that, without wrap-around, covers both. */
  lemma HeaderPadded(n: nat)
    requires n <= SIZE_MAX
    ensures var r := (HEADER_SIZE + RoundUp8(n)) % (SIZE_MAX + 1);
            r % 8 == 0 && r <= SIZE_MAX && (n + 15 <= SIZE_MAX ==> HEADER_SIZE + n <= r < HEADER_SIZE + n + 8)
  {
    var padded := RoundUp8(n);
    var k := padded / 8;
    assert padded == 8 * k;
    if HEADER_SIZE + padded > SIZE_MAX {
      assert (HEADER_SIZE + padded) % (SIZE_MAX + 1) == HEADER_SIZE + padded - (SIZE_MAX + 1) == 8 * (k + 1 - 0x2000_0000_0000_0000);
    } else {
      assert (HEADER_SIZE + padded) % (SIZE_MAX + 1) == HEADER_SIZE + padded == 8 * (k + 1);
    }
  }

  /** Fewer elements than `max_size()` occupy no more bytes than it. */
  lemma BytesFit(elemSize: nat, n: nat, m: nat)
    requires n <= m && elemSize * m <= SIZE_MAX
    ensures elemSize * n <= SIZE_MAX
  {
    assert elemSize * n <= elemSize * m;
  }

  /** A byte length that counts whole elements and fits in the image names
      no more elements than the image holds. */
  lemma WholeCount(bytes: nat, elemSize: nat, m: nat)
    requires elemSize > 0 && bytes <= elemSize * m && bytes % elemSize == 0
    ensures bytes / elemSize <= m && elemSize * (bytes / elemSize) == bytes
  {
  }

  class Vector<T> {
    /** `sizeof(T)` */
    const elemSize: nat
    /** `T()`, the value `resize(n)` fills new slots with. */
    const blank: T

    /** The buffer `objects_` points to; a mapped vector reads its objects
        from the mapped image instead, which `buf` then holds. */
    var buf: array<T>
    /** `size_` */
    var size: nat
    /** `capacity_`: the slots of the owned buffer, 0 for a mapped vector. */
    var capacity: nat
    /** `fixed_` */
    var fixed: bool

    /** `max_size()`: the most elements whose bytes a `size_t` can count. */
    function MaxSize(): (r: nat)
      requires 1 <= elemSize
      ensures elemSize * r <= SIZE_MAX < elemSize * (r + 1)
    {
      SIZE_MAX / elemSize
    }

    ghost predicate Valid()
      reads this
    {
      1 <= elemSize && size <= buf.Length && size <= MaxSize() && capacity <= MaxSize() &&
      (capacity == buf.Length || (fixed && capacity == 0))
    }

    /** The elements, `objects_[0 .. size_)`. */
    function Items(): (s: seq<T>)
      reads this, buf
      requires size <= buf.Length
      ensures |s| == size
    {
      buf[..size]
    }

    /** `Vector()`: empty, no buffer, not fixed. */
    constructor (elemSize: nat, blank: T)
      requires 1 <= elemSize
      ensures Valid() && fresh(buf)
      ensures this.elemSize == elemSize && this.blank == blank
      ensures Items() == [] && capacity == 0 && !fixed
    {
      this.elemSize := elemSize;
      this.blank := blank;
      buf := new T[0];
      size := 0;
      capacity := 0;
      fixed := false;
    }

    /** `realloc(new_capacity)`: copies the elements into a fresh buffer of
        `newCapacity` slots. */
    method Realloc(newCapacity: nat)
      requires Valid() && size <= newCapacity <= MaxSize() && !fixed
      modifies this
      ensures Valid() && fresh(buf)
      ensures Items() == old(Items()) && capacity == newCapacity
      ensures size == old(size) && fixed == old(fixed)
    {
      var filler := blank;
      var moved := new T[newCapacity](_ => filler);
      var i := 0;
      while i < size
        invariant 0 <= i <= size
        invariant moved[..i] == buf[..i]
        modifies moved
      {
        moved[i] := buf[i];
        i := i + 1;
      }
      buf := moved;
      capacity := newCapacity;
    }

    /** `reserve(request)`. */
    method Reserve(request: nat) returns (r: Result<()>)
      requires Valid()
      modifies this
      ensures Valid()
      ensures r.Failure? <==> old(fixed) || (request > old(capacity) && request > MaxSize())
      ensures r.Failure? ==> unchanged(this)
      ensures r.Success? ==>
                capacity == GrownCapacity(old(capacity), request, MaxSize()) &&
                Items() == old(Items()) && size == old(size) && fixed == old(fixed) &&
                (buf == old(buf) || fresh(buf))
    {
      if fixed {
        return Failure;
      }
      if request <= capacity {
        return Success(());
      }
      if request > MaxSize() {
        return Failure;
      }
      var newCapacity := request;
      if capacity > request / 2 {
        if capacity > MaxSize() / 2 {
          newCapacity := MaxSize();
        } else {
          newCapacity := capacity * 2;
        }
      }
      GrownCapacityBounds(capacity, request, MaxSize());
      Realloc(newCapacity);
      r := Success(());
    }

    /** `push_back(x)`. */
    method PushBack(x: T) returns (r: Result<()>)
      requires Valid()
      modifies this, buf
      ensures Valid()
      ensures r.Failure? <==> old(fixed) || old(size) == MaxSize()
      ensures r.Failure? ==> unchanged(this) && unchanged(buf)
      ensures r.Success? ==>
                Items() == old(Items()) + [x] && !fixed &&
                capacity == GrownCapacity(old(capacity), old(size) + 1, MaxSize())
    {
      if fixed || size == MaxSize() {
        return Failure;
      }
      r := Reserve(size + 1);
      var i := size;
      buf[i] := x;
      size := size + 1;
      assert Items() == old(Items()) + [x] by {
        assert Items() == buf[..i] + [x];
      }
    }

    /** `pop_back()`. */
    method PopBack() returns (r: Result<()>)
      requires Valid()
      modifies this
      ensures Valid()
      ensures r.Failure? <==> old(fixed) || old(size) == 0
      ensures r.Failure? ==> unchanged(this)
      ensures r.Success? ==>
                Items() == old(Items())[..old(size) - 1] &&
                capacity == old(capacity) && fixed == old(fixed) && buf == old(buf)
    {
      if fixed || size == 0 {
        return Failure;
      }
      size := size - 1;
      r := Success(());
    }

    /** `resize(n, x)`: keeps the first `min(size, n)` elements and fills
        any new slot with `x`. */
    method ResizeWith(n: nat, x: T) returns (r: Result<()>)
      requires Valid()
      modifies this, buf
      ensures Valid()
      ensures r.Failure? <==> old(fixed) || (n > old(capacity) && n > MaxSize())
      ensures r.Failure? ==> unchanged(this) && unchanged(buf)
      ensures r.Success? ==>
                size == n && !fixed &&
                capacity == GrownCapacity(old(capacity), n, MaxSize()) &&
                (forall i | 0 <= i < n && i < old(size) :: Items()[i] == old(Items())[i]) &&
                (forall i | old(size) <= i < n :: Items()[i] == x)
    {
      ghost var before := Items();
      r := Reserve(n);
      if r.Failure? {
        return;
      }
      var i := size;
      while i < n
        invariant size <= i <= buf.Length && (i <= n || i == size)
        invariant buf[..size] == before
        invariant forall j | size <= j < i :: buf[j] == x
        modifies buf
      {
        buf[i] := x;
        i := i + 1;
      }
      size := n;
    }

    /** `resize(n)`: `resize(n, T())`. */
    method Resize(n: nat) returns (r: Result<()>)
      requires Valid()
      modifies this, buf
      ensures Valid()
      ensures r.Failure? <==> old(fixed) || (n > old(capacity) && n > MaxSize())
      ensures r.Failure? ==> unchanged(this) && unchanged(buf)
      ensures r.Success? ==>
                size == n && !fixed &&
                capacity == GrownCapacity(old(capacity), n, MaxSize()) &&
                (forall i | 0 <= i < n && i < old(size) :: Items()[i] == old(Items())[i]) &&
                (forall i | old(size) <= i < n :: Items()[i] == blank)
    {
      r := ResizeWith(n, blank);
    }

    /** `shrink()`: the buffer is cut down to the elements. */
    method Shrink() returns (r: Result<()>)
      requires Valid()
      modifies this
      ensures Valid()
      ensures r.Failure? <==> old(fixed)
      ensures r.Failure? ==> unchanged(this)
      ensures r.Success? ==> capacity == size && Items() == old(Items()) && !fixed
    {
      if fixed {
        return Failure;
      }
      if size != capacity {
        Realloc(size);
      }
      r := Success(());
    }

    /** `fix()`: freezes the vector; freezing twice is an error. */
    method Fix() returns (r: Result<()>)
      requires Valid()
      modifies this
      ensures Valid()
      ensures r.Failure? <==> old(fixed)
      ensures r.Failure? ==> unchanged(this)
      ensures r.Success? ==> fixed && Items() == old(Items()) && capacity == old(capacity) && buf == old(buf)
    {
      if fixed {
        return Failure;
      }
      fixed := true;
      r := Success(());
    }

    /** `operator[](i) const` */
    method At(i: nat) returns (r: Result<T>)
      requires Valid()
      ensures i >= size ==> r == Failure
      ensures i < size ==> r == Success(Items()[i])
    {
      if i >= size {
        return Failure;
      }
      r := Success(buf[i]);
    }

    /** `operator[](i)` on a non-const vector, used to write `x` into slot
        `i`: refused on a fixed vector and out of bounds. */
    method Put(i: nat, x: T) returns (r: Result<()>)
      requires Valid()
      modifies buf
      ensures r.Failure? <==> fixed || i >= size
      ensures r.Failure? ==> unchanged(buf)
      ensures r.Success? ==> Items() == old(Items())[i := x]
    {
      if fixed || i >= size {
        return Failure;
      }
      buf[i] := x;
      r := Success(());
    }

    /** `front() const`: the first element; an empty vector has none. */
    method Front() returns (r: Result<T>)
      requires Valid()
      ensures size == 0 ==> r == Failure
      ensures size > 0 ==> r == Success(Items()[0])
    {
      if size == 0 {
        return Failure;
      }
      r := Success(buf[0]);
    }

    /** `back() const`: the last element, the one `push_back` appended
        last. */
    method Back() returns (r: Result<T>)
      requires Valid()
      ensures size == 0 ==> r == Failure
      ensures size > 0 ==> r == Success(Items()[size - 1])
    {
      if size == 0 {
        return Failure;
      }
      r := Success(buf[size - 1]);
    }

    /** `empty()` */
    function IsEmpty(): (r: bool)
      reads this, buf
      requires Valid()
      ensures r <==> Items() == []
    {
      size == 0
    }

    /** `total_size()`: the bytes of the elements. */
    function TotalSize(): (r: nat)
      reads this
      requires Valid()
      ensures r <= SIZE_MAX
    {
      BytesFit(elemSize, size, MaxSize());
      elemSize * size
    }

    /** `io_size()`: the bytes of a serialised vector, the size header and
        the elements padded to a multiple of 8. */
    function IoSize(): (r: nat)
      reads this
      requires Valid()
      ensures r % 8 == 0 && r <= SIZE_MAX
      ensures TotalSize() + 15 <= SIZE_MAX ==>
                HEADER_SIZE + TotalSize() <= r < HEADER_SIZE + TotalSize() + 8
    {
      var padded := RoundUp8(TotalSize());
      HeaderPadded(TotalSize());
      (HEADER_SIZE + padded) % (SIZE_MAX + 1)
    }

    /** `clear()`: `Vector().swap(*this)`, also on a fixed vector. */
    method Clear()
      requires Valid()
      modifies this
      ensures Valid() && fresh(buf)
      ensures Items() == [] && capacity == 0 && !fixed
    {
      buf := new T[0];
      size := 0;
      capacity := 0;
      fixed := false;
    }

    /** `swap(rhs)`: exchanges buffers, sizes, capacities and flags. */
    method Swap(other: Vector<T>)
      requires Valid() && other.Valid() && other.elemSize == elemSize
      modifies this, other
      ensures Valid() && other.Valid()
      ensures buf == old(other.buf) && other.buf == old(buf)
      ensures size == old(other.size) && other.size == old(size)
      ensures capacity == old(other.capacity) && other.capacity == old(capacity)
      ensures fixed == old(other.fixed) && other.fixed == old(fixed)
    {
      buf, other.buf := other.buf, buf;
      size, other.size := other.size, size;
      capacity, other.capacity := other.capacity, capacity;
      fixed, other.fixed := other.fixed, fixed;
    }

    /** `map(ptr, length)`: a fresh vector runs `map_` on the image and is
        swapped in.  The image starts with a size header `header`; the
        objects after it are `objects`.  The header must equal `length` and
        count whole elements; the mapped vector is fixed and owns no
        buffer. */
    method Map(header: nat, length: nat, objects: seq<T>) returns (r: Result<()>)
      requires Valid() && length <= elemSize * |objects|
      modifies this
      ensures Valid()
      ensures r.Failure? <==> header != length || header > SIZE_MAX || header % elemSize != 0
      ensures r.Failure? ==> unchanged(this)
      ensures r.Success? ==>
                fixed && capacity == 0 && elemSize * size == header &&
                Items() == objects[..size]
    {
      if header != length || header > SIZE_MAX || header % elemSize != 0 {
        return Failure;
      }
      var n := header / elemSize;
      WholeCount(header, elemSize, |objects|);
      buf := new T[n](i requires 0 <= i < n => objects[i]);
      size := n;
      capacity := 0;
      fixed := true;
      r := Success(());
    }
  }
}
