/** SimpleVector<Type>: a growable array over one ArrayPtr. The fields are the
    source's size_, capacity_ and simple_vector_ (here `storage`, the owner
    object, which a vector never replaces; only the block it holds changes).
    `zero` stands for Type{}, the value a fresh block is filled with.

    The operations that VectorSpec defines (PushBack, Insert, PopBack, Erase,
    Clear, Resize, Reserve, At) are specified by those functions applied to
    Model(), the vector's state as a value; what they guarantee (elements,
    capacity) is proved there. Set, Swap, the constructors and the
    assignments state their new state directly. Iterators are
    indices: begin() is 0 and end() is size. */
module Vector {
  import Algorithms
  import opened ArrayPointer
  import VectorSpec

  class SimpleVector<T> {
    var size: nat
    var capacity: nat
    const storage: ArrayPtr<T>
    const zero: T

    /** The whole block, spare slots included; empty when no block is held. */
    ghost function Buffer(): seq<T>
      reads this, storage, storage.ptr
    {
      if storage.ptr == null then [] else storage.ptr[..]
    }

    ghost function Model(): VectorSpec.Vec<T>
      reads this, storage, storage.ptr
    {
      VectorSpec.Vec(Buffer(), size)
    }

    /** size <= capacity, the block has exactly capacity slots, and a vector
        of capacity 0 holds no block. */
    ghost predicate Valid()
      reads this, storage, storage.ptr
    {
      size <= capacity && |Buffer()| == capacity && (storage.ptr == null <==> capacity == 0)
    }

    ghost function Elements(): seq<T>
      requires Valid()
      reads this, storage, storage.ptr
    {
      VectorSpec.Elements(Model())
    }

    /** SimpleVector(): no elements, no block. */
    constructor (zero: T)
      ensures Valid() && fresh(storage)
      ensures Elements() == [] && capacity == 0 && this.zero == zero
    {
      size, capacity := 0, 0;
      storage := new ArrayPtr<T>.Default();
      this.zero := zero;
    }

    /** SimpleVector(size): n default elements in a block of exactly n slots. */
    constructor Sized(n: nat, zero: T)
      ensures Valid() && fresh(storage) && (storage.ptr == null || fresh(storage.ptr))
      ensures size == capacity == n && this.zero == zero
      ensures Elements() == VectorSpec.Repeat(zero, n)
    {
      size, capacity := n, n;
      storage := new ArrayPtr<T>.Default();
      this.zero := zero;
      new;
      var newData := new ArrayPtr<T>.Sized(n, zero);
      storage.Swap(newData);
      var i := 0;
      while i < size
        invariant 0 <= i <= size
        invariant Valid() && size == capacity == n
        invariant storage.ptr == null || fresh(storage.ptr)
        invariant forall k :: 0 <= k < capacity ==> storage.ptr[k] == zero
      {
        storage.ptr[i] := zero;
        i := i + 1;
      }
    }

    /** SimpleVector(size, value): n copies of value in a block of exactly n slots. */
    constructor Filled(n: nat, value: T, zero: T)
      ensures Valid() && fresh(storage) && (storage.ptr == null || fresh(storage.ptr))
      ensures size == capacity == n && this.zero == zero
      ensures Elements() == VectorSpec.Repeat(value, n)
    {
      size, capacity := n, n;
      storage := new ArrayPtr<T>.Default();
      this.zero := zero;
      new;
      var newData := new ArrayPtr<T>.Sized(n, zero);
      storage.Swap(newData);
      var i := 0;
      while i < size
        invariant 0 <= i <= size
        invariant Valid() && size == capacity == n
        invariant storage.ptr == null || fresh(storage.ptr)
        invariant forall k :: 0 <= k < i ==> storage.ptr[k] == value
      {
        storage.ptr[i] := value;
        i := i + 1;
      }
    }

    /** SimpleVector(Reserve(n)): no elements, a block of n default slots. */
    constructor WithCapacity(n: nat, zero: T)
      ensures Valid() && fresh(storage) && (storage.ptr == null || fresh(storage.ptr))
      ensures Elements() == [] && capacity == n && this.zero == zero
      ensures Buffer() == VectorSpec.Repeat(zero, n)
    {
      size, capacity := 0, 0;
      storage := new ArrayPtr<T>.Default();
      this.zero := zero;
      new;
      Reserve(n);
      size := 0;
    }

    /** SimpleVector(initializer_list): the list's elements, in order, in a
        block of exactly as many slots. */
    constructor FromList(init: seq<T>, zero: T)
      ensures Valid() && fresh(storage) && (storage.ptr == null || fresh(storage.ptr))
      ensures Elements() == init && capacity == |init| && this.zero == zero
    {
      size, capacity := |init|, |init|;
      storage := new ArrayPtr<T>.Default();
      this.zero := zero;
      new;
      var newData := new ArrayPtr<T>.Sized(size, zero);
      storage.Swap(newData);
      var i := 0;
      while i < |init|
        invariant 0 <= i <= |init|
        invariant Valid() && size == capacity == |init|
        invariant storage.ptr == null || fresh(storage.ptr)
        invariant forall k :: 0 <= k < i ==> storage.ptr[k] == init[k]
      {
        storage.ptr[i] := init[i];
        i := i + 1;
      }
    }

    /** The copy constructor AS WRITTEN: it records the source's capacity but
        allocates only size slots, so the copy is consistent only when the
        source was full. Otherwise its next PushBack takes the in-place branch
        and writes past its block (see CopyOfReservedHasNoBlock). */
    constructor CopyAsWritten(other: SimpleVector<T>)
      requires other.Valid()
      ensures size == other.size && capacity == other.capacity && zero == other.zero
      ensures fresh(storage) && (storage.ptr == null || fresh(storage.ptr))
      ensures Buffer() == other.Elements() && (storage.ptr == null <==> size == 0)
      ensures Valid() <==> other.size == other.capacity
    {
      size, capacity := other.size, other.capacity;
      storage := new ArrayPtr<T>.Default();
      zero := other.zero;
      new;
      var newData := new ArrayPtr<T>.Sized(size, zero);
      if size > 0 {
        Algorithms.Copy(other.storage.ptr, 0, other.size, newData.ptr, 0);
      }
      storage.Swap(newData);
    }

    /** The move constructor AS WRITTEN: the same capacity mismatch as
        CopyAsWritten; the source is then cleared, so it keeps its block and
        capacity with size 0. */
    constructor MoveAsWritten(other: SimpleVector<T>)
      requires other.Valid()
      modifies other
      ensures size == old(other.size) && capacity == old(other.capacity) && zero == other.zero
      ensures fresh(storage) && (storage.ptr == null || fresh(storage.ptr))
      ensures Buffer() == old(other.Elements()) && (storage.ptr == null <==> size == 0)
      ensures Valid() <==> old(other.size == other.capacity)
      ensures other.Valid() && other.Model() == VectorSpec.Clear(old(other.Model()))
    {
      size, capacity := other.size, other.capacity;
      storage := new ArrayPtr<T>.Default();
      zero := other.zero;
      new;
      var newData := new ArrayPtr<T>.Sized(size, zero);
      if size > 0 {
        Algorithms.Copy(other.storage.ptr, 0, other.size, newData.ptr, 0);
      }
      storage.Swap(newData);
      other.Clear();
    }

    /** The copy constructor with capacity_ initialised to the source's size,
        matching the size-slot block it allocates: an exact copy of the
        elements in a full block. */
    constructor Copy(other: SimpleVector<T>)
      requires other.Valid()
      ensures Valid() && fresh(storage) && (storage.ptr == null || fresh(storage.ptr))
      ensures Elements() == other.Elements() && capacity == size && zero == other.zero
    {
      size, capacity := other.size, other.size;
      storage := new ArrayPtr<T>.Default();
      zero := other.zero;
      new;
      var newData := new ArrayPtr<T>.Sized(size, zero);
      if size > 0 {
        Algorithms.Copy(other.storage.ptr, 0, other.size, newData.ptr, 0);
      }
      storage.Swap(newData);
    }

    /** The move constructor with the same correction; the source is cleared:
        size 0, block and capacity kept. */
    constructor Move(other: SimpleVector<T>)
      requires other.Valid()
      modifies other
      ensures Valid() && fresh(storage) && (storage.ptr == null || fresh(storage.ptr))
      ensures Elements() == old(other.Elements()) && capacity == size && zero == other.zero
      ensures other.Valid() && other.Model() == VectorSpec.Clear(old(other.Model()))
    {
      size, capacity := other.size, other.size;
      storage := new ArrayPtr<T>.Default();
      zero := other.zero;
      new;
      var newData := new ArrayPtr<T>.Sized(size, zero);
      if size > 0 {
        Algorithms.Copy(other.storage.ptr, 0, other.size, newData.ptr, 0);
      }
      storage.Swap(newData);
      other.Clear();
    }

    /** operator=(const SimpleVector&) AS WRITTEN: self-assignment does
        nothing; otherwise an as-written copy of rhs is swapped in, so the
        target takes rhs's size and capacity over a block of exactly rhs's
        elements, and is consistent only when rhs was full. rhs is left as it
        was. */
    method CopyAssignAsWritten(rhs: SimpleVector<T>)
      requires rhs.Valid() && rhs.zero == zero
      requires rhs != this ==> rhs.storage != storage
      modifies this, storage
      ensures rhs == this ==> Model() == old(Model()) && capacity == old(capacity)
      ensures rhs != this ==> size == old(rhs.size) && capacity == old(rhs.capacity)
      ensures rhs != this ==> Buffer() == old(rhs.Elements()) && (storage.ptr == null <==> size == 0)
      ensures rhs != this ==> (Valid() <==> old(rhs.size == rhs.capacity))
      ensures rhs != this ==> rhs.Valid() && rhs.Model() == old(rhs.Model())
    {
      if this == rhs {
        return;
      }
      var temp := new SimpleVector<T>.CopyAsWritten(rhs);
      Swap(temp);
    }

    /** operator=(SimpleVector&&) AS WRITTEN: as CopyAssignAsWritten, over an
        as-written move; rhs is cleared (size 0, block and capacity kept). */
    method MoveAssignAsWritten(rhs: SimpleVector<T>)
      requires rhs.Valid() && rhs.zero == zero
      requires rhs != this ==> rhs.storage != storage
      modifies this, storage, rhs
      ensures rhs == this ==> Model() == old(Model()) && capacity == old(capacity)
      ensures rhs != this ==> size == old(rhs.size) && capacity == old(rhs.capacity)
      ensures rhs != this ==> Buffer() == old(rhs.Elements()) && (storage.ptr == null <==> size == 0)
      ensures rhs != this ==> (Valid() <==> old(rhs.size == rhs.capacity))
      ensures rhs != this ==> rhs.Valid() && rhs.Model() == VectorSpec.Clear(old(rhs.Model()))
    {
      if this == rhs {
        return;
      }
      var temp := new SimpleVector<T>.MoveAsWritten(rhs);
      Swap(temp);
    }

    /** operator=(const SimpleVector&) over the corrected copy: self-assignment
        does nothing; otherwise a full copy of rhs is swapped in and rhs is
        left as it was. */
    method CopyAssign(rhs: SimpleVector<T>)
      requires Valid() && rhs.Valid() && rhs.zero == zero
      requires rhs != this ==> rhs.storage != storage
      modifies this, storage
      ensures Valid()
      ensures rhs == this ==> Model() == old(Model())
      ensures rhs != this ==> Elements() == old(rhs.Elements()) && capacity == size
      ensures rhs != this ==> rhs.Valid() && rhs.Model() == old(rhs.Model())
    {
      if this == rhs {
        return;
      }
      var temp := new SimpleVector<T>.Copy(rhs);
      Swap(temp);
    }

    /** operator=(SimpleVector&&) over the corrected move: self-assignment
        does nothing; otherwise
        rhs's elements are moved into a temporary that is swapped in, and rhs
        is cleared (size 0, block and capacity kept). */
    method MoveAssign(rhs: SimpleVector<T>)
      requires Valid() && rhs.Valid() && rhs.zero == zero
      requires rhs != this ==> rhs.storage != storage
      modifies this, storage, rhs
      ensures Valid()
      ensures rhs == this ==> Model() == old(Model())
      ensures rhs != this ==> Elements() == old(rhs.Elements()) && capacity == size
      ensures rhs != this ==> rhs.Valid() && rhs.Model() == VectorSpec.Clear(old(rhs.Model()))
    {
      if this == rhs {
        return;
      }
      var temp := new SimpleVector<T>.Move(rhs);
      Swap(temp);
    }

    /** PushBack(item), for both the copy and the move overload. */
    method PushBack(x: T)
      requires Valid()
      modifies this, storage, storage.ptr
      ensures Valid() && (storage.ptr == old(storage.ptr) || fresh(storage.ptr))
      ensures Model() == VectorSpec.PushBack(old(Model()), x, zero)
    {
      if size == capacity {
        var newCapacity := VectorSpec.Grow(capacity);
        var newData := GrownBlock(storage.ptr, size, size, x, newCapacity, zero);
        size := size + 1;
        capacity := newCapacity;
        storage.Swap(newData);
      } else {
        storage.ptr[size] := x;
        size := size + 1;
      }
    }

    /** Insert(pos, value) AS WRITTEN, for both overloads; returns the index of
        the inserted value. Without growth the tail is not shifted: see
        VectorSpec.Insert. */
    method Insert(pos: nat, x: T) returns (it: nat)
      requires Valid() && pos <= size
      modifies this, storage, storage.ptr
      ensures Valid() && (storage.ptr == old(storage.ptr) || fresh(storage.ptr))
      ensures it == pos
      ensures Model() == VectorSpec.Insert(old(Model()), pos, x, zero)
    {
      ghost var oldBuf := Buffer();
      if size == capacity {
        var newCapacity := VectorSpec.Grow(capacity);
        var newData := GrownBlock(storage.ptr, size, pos, x, newCapacity, zero);
        assert Live(storage.ptr, size) == oldBuf;
        size := size + 1;
        capacity := newCapacity;
        storage.Swap(newData);
      } else {
        // copy_backward(begin(), end(), end()): destination end == source end
        Algorithms.CopyBackward(storage.ptr, 0, size, storage.ptr, size);
        assert storage.ptr[..] == oldBuf;
        storage.ptr[pos] := x;
        size := size + 1;
      }
      it := pos;
    }

    /** Insert(pos, value) with the in-place branch shifting [pos, size) one
        slot right first: copy_backward(begin() + pos, end(), end() + 1). */
    method InsertCorrected(pos: nat, x: T) returns (it: nat)
      requires Valid() && pos <= size
      modifies this, storage, storage.ptr
      ensures Valid() && (storage.ptr == old(storage.ptr) || fresh(storage.ptr))
      ensures it == pos
      ensures Model() == VectorSpec.InsertCorrected(old(Model()), pos, x, zero)
    {
      if size == capacity {
        var newCapacity := VectorSpec.Grow(capacity);
        var newData := GrownBlock(storage.ptr, size, pos, x, newCapacity, zero);
        size := size + 1;
        capacity := newCapacity;
        storage.Swap(newData);
      } else {
        ShiftRightAndWrite(storage.ptr, pos, size, x);
        size := size + 1;
      }
      it := pos;
    }

    /** PopBack(): drops the last element when there is one. */
    method PopBack()
      requires Valid()
      modifies this
      ensures Valid() && Model() == VectorSpec.PopBack(old(Model()))
    {
      if size > 0 {
        size := size - 1;
      }
    }

    /** Erase(pos): shifts [pos + 1, size) one slot left; returns pos, the index
        of the element that followed the erased one (end() if it was last). */
    method Erase(pos: nat) returns (it: nat)
      requires Valid() && pos < size
      modifies this, storage.ptr
      ensures Valid() && it == pos
      ensures Model() == VectorSpec.Erase(old(Model()), pos)
    {
      Algorithms.Copy(storage.ptr, pos + 1, size, storage.ptr, pos);
      size := size - 1;
      it := pos;
    }

    /** swap(other): exchanges blocks, sizes and capacities. It asks nothing
        of the two states, so a vector from an as-written constructor can be
        swapped in; each side is consistent afterwards exactly when the other
        side was before. Both vectors share one Type{}. */
    method Swap(other: SimpleVector<T>)
      requires other.zero == zero
      modifies this, other, storage, other.storage
      ensures Model() == old(other.Model()) && other.Model() == old(Model())
      ensures capacity == old(other.capacity) && other.capacity == old(capacity)
      ensures (storage.ptr == null) == old(other.storage.ptr == null)
      ensures (other.storage.ptr == null) == old(storage.ptr == null)
      ensures Valid() == old(other.Valid()) && other.Valid() == old(Valid())
    {
      storage.Swap(other.storage);
      var s := size;
      size := other.size;
      other.size := s;
      var c := capacity;
      capacity := other.capacity;
      other.capacity := c;
    }

    method GetSize() returns (n: nat)
      requires Valid()
      ensures n == |Elements()|
    {
      n := size;
    }

    method GetCapacity() returns (n: nat)
      requires Valid()
      ensures n == VectorSpec.Capacity(Model())
    {
      n := capacity;
    }

    method IsEmpty() returns (b: bool)
      requires Valid()
      ensures b <==> Elements() == []
    {
      b := size == 0;
    }

    /** operator[] (const): unchecked in the source; the index must be live. */
    method Get(index: nat) returns (x: T)
      requires Valid() && index < size
      ensures x == Elements()[index]
    {
      x := storage.ptr[index];
    }

    /** operator[] used as an lvalue: overwrites one live element. */
    method Set(index: nat, x: T)
      requires Valid() && index < size
      modifies storage.ptr
      ensures Valid() && Buffer() == old(Buffer())[index := x]
      ensures Elements() == old(Elements())[index := x]
    {
      storage.ptr[index] := x;
    }

    /** At(index): out_of_range when index >= size, otherwise the element that
        operator[] gives. */
    method At(index: nat) returns (r: VectorSpec.Result<T>)
      requires Valid()
      ensures r == VectorSpec.At(Model(), index)
    {
      if index >= size {
        r := VectorSpec.Err(VectorSpec.OutOfRange);
      } else {
        r := VectorSpec.Ok(storage.ptr[index]);
      }
    }

    /** Clear(): size 0; block and capacity kept. */
    method Clear()
      requires Valid()
      modifies this
      ensures Valid() && Model() == VectorSpec.Clear(old(Model()))
    {
      size := 0;
    }

    /** Resize(n). Growing reallocates to exactly n slots: the old elements,
        then defaults. Shrinking writes defaults over [n, size) in place. */
    method Resize(n: nat)
      requires Valid()
      modifies this, storage, storage.ptr
      ensures Valid() && (storage.ptr == old(storage.ptr) || fresh(storage.ptr))
      ensures Model() == VectorSpec.Resize(old(Model()), n, zero)
    {
      if n > size {
        var newData := ResizedBlock(storage.ptr, size, n, zero);
        assert Live(storage.ptr, size) == old(Buffer())[..size];
        storage.Swap(newData);
        capacity := n;
      }
      if n <= size {
        ResetSlots(storage.ptr, n, size, zero);
      }
      size := n;
    }

    /** Reserve(n): nothing unless n exceeds the capacity; then the elements
        move to a block of exactly n slots. */
    method Reserve(n: nat)
      requires Valid()
      modifies this, storage, storage.ptr
      ensures Valid() && (storage.ptr == old(storage.ptr) || fresh(storage.ptr))
      ensures Model() == VectorSpec.Reserve(old(Model()), n, zero)
    {
      ghost var oldBuf := Buffer();
      if n > capacity {
        var newData := new ArrayPtr<T>.Sized(n, zero);
        assert newData.ptr[size..] == VectorSpec.Repeat(zero, n - size);
        if size > 0 {
          Algorithms.Copy(storage.ptr, 0, size, newData.ptr, 0);
        }
        assert newData.ptr[..] == oldBuf[..size] + VectorSpec.Repeat(zero, n - size);
        storage.Swap(newData);
        capacity := n;
      }
    }
  }

  /** The live prefix of a block: nothing when there is no block. */
  ghost function Live<T>(block: array?<T>, size: nat): seq<T>
    requires block == null ==> size == 0
    requires block != null ==> size <= block.Length
    reads block
  {
    if block == null then [] else block[..size]
  }

  /** The growth branch of PushBack and Insert: a fresh block of newCapacity
      default slots receives [0, pos) of the old block, then x, then
      [pos, size) one slot further right (std::copy, an assignment, std::copy). */
  method GrownBlock<T>(block: array?<T>, size: nat, pos: nat, x: T, newCapacity: nat, zero: T)
    returns (newData: ArrayPtr<T>)
    requires pos <= size < newCapacity
    requires block == null ==> size == 0
    requires block != null ==> size <= block.Length
    ensures fresh(newData) && newData.ptr != null && fresh(newData.ptr)
    ensures newData.ptr[..] == Live(block, size)[..pos] + [x] + Live(block, size)[pos..]
                               + VectorSpec.Repeat(zero, newCapacity - size - 1)
  {
    ghost var live := Live(block, size);
    newData := new ArrayPtr<T>.Sized(newCapacity, zero);
    if pos > 0 {
      Algorithms.Copy(block, 0, pos, newData.ptr, 0);
    }
    assert newData.ptr[..pos] == live[..pos];
    assert newData.ptr[pos + 1..] == VectorSpec.Repeat(zero, newCapacity - pos - 1);
    newData.ptr[pos] := x;
    ghost var front := newData.ptr[..pos + 1];
    assert front == live[..pos] + [x];
    if pos < size {
      Algorithms.Copy(block, pos, size, newData.ptr, pos + 1);
    }
    assert newData.ptr[..] == front + live[pos..] + VectorSpec.Repeat(zero, newCapacity - size - 1);
  }

  /** The growing branch of Resize: a fresh block of exactly n slots receives
      the live elements one by one, then Type{} in every slot after them. */
  method ResizedBlock<T>(block: array?<T>, size: nat, n: nat, zero: T) returns (newData: ArrayPtr<T>)
    requires size < n
    requires block == null ==> size == 0
    requires block != null ==> size <= block.Length
    ensures fresh(newData) && newData.ptr != null && fresh(newData.ptr)
    ensures newData.ptr[..] == Live(block, size) + VectorSpec.Repeat(zero, n - size)
  {
    newData := new ArrayPtr<T>.Sized(n, zero);
    var i := 0;
    while i < size
      modifies newData.ptr
      invariant 0 <= i <= size
      invariant newData.ptr[..i] == Live(block, size)[..i]
      invariant forall k :: size <= k < n ==> newData.ptr[k] == zero
    {
      newData.ptr[i] := block[i];
      i := i + 1;
    }
    i := size;
    while i < n
      modifies newData.ptr
      invariant size <= i <= n
      invariant newData.ptr[..size] == Live(block, size)
      invariant forall k :: size <= k < n ==> newData.ptr[k] == zero
    {
      newData.ptr[i] := zero;
      i := i + 1;
    }
    assert newData.ptr[..] == newData.ptr[..size] + newData.ptr[size..];
  }

  /** The shrinking branch of Resize: slots [n, size) are reset to Type{} in
      place; every other slot keeps its value. */
  method ResetSlots<T>(block: array?<T>, n: nat, size: nat, zero: T)
    requires n <= size
    requires block == null ==> size == 0
    requires block != null ==> size <= block.Length
    modifies block
    ensures block != null ==> block[..] == old(block[..n]) + VectorSpec.Repeat(zero, size - n) + old(block[size..])
  {
    var i := n;
    while i < size
      modifies block
      invariant n <= i <= size
      invariant block != null ==> block[..n] == old(block[..n]) && block[size..] == old(block[size..])
      invariant block != null ==> forall k :: n <= k < i ==> block[k] == zero
    {
      block[i] := zero;
      i := i + 1;
    }
    if block != null {
      assert block[..] == block[..n] + block[n..size] + block[size..];
    }
  }

  /** The in-place branch of the intended Insert: [pos, size) moves one slot
      right (copy_backward(begin() + pos, end(), end() + 1)), then x is
      written at pos. */
  method ShiftRightAndWrite<T>(block: array<T>, pos: nat, size: nat, x: T)
    requires pos <= size < block.Length
    modifies block
    ensures block[..] == old(block[..pos]) + [x] + old(block[pos..size]) + old(block[size + 1..])
  {
    ghost var b := block[..];
    Algorithms.CopyBackward(block, pos, size, block, size + 1);
    assert block[..] == b[..pos + 1] + b[pos..size] + b[size + 1..];
    block[pos] := x;
    assert block[..] == b[..pos] + [x] + b[pos..size] + b[size + 1..];
  }

  /** A copy, as written, of a vector reserved with capacity 1 claims capacity
      1 but holds no block: its next PushBack sees size < capacity, takes the
      in-place branch and writes slot 0 of a null block. */
  method CopyOfReservedHasNoBlock() returns (copy: SimpleVector<int>)
    ensures copy.size == 0 && copy.capacity == 1 && copy.storage.ptr == null
  {
    var reserved := new SimpleVector<int>.WithCapacity(1, 0);
    copy := new SimpleVector<int>.CopyAsWritten(reserved);
  }

  /** A move, as written, of [5] held in a block of 2 gets a block of one slot
      but capacity 2: its next PushBack writes slot 1 of a one-slot block. */
  method MoveOfSparseOverruns() returns (moved: SimpleVector<int>)
    ensures moved.size == 1 && moved.capacity == 2
    ensures moved.storage.ptr != null && moved.storage.ptr.Length == 1
  {
    var source := new SimpleVector<int>.WithCapacity(2, 0);
    source.PushBack(5);
    moved := new SimpleVector<int>.MoveAsWritten(source);
  }

  /** Assigning, as written, [5] held in a block of 2 to an empty vector
      gives the target capacity 2 over a one-slot block, as the move does. */
  method CopyAssignOfSparseOverruns() returns (target: SimpleVector<int>)
    ensures target.size == 1 && target.capacity == 2
    ensures target.storage.ptr != null && target.storage.ptr.Length == 1
  {
    var source := new SimpleVector<int>.WithCapacity(2, 0);
    source.PushBack(5);
    target := new SimpleVector<int>(0);
    target.CopyAssignAsWritten(source);
  }

  /** With the corrected copy the same source gives a consistent, full copy,
      so a PushBack on it grows the block. */
  method CopyOfReservedIsFull() returns (copy: SimpleVector<int>)
    ensures copy.Valid() && copy.size == 0 && copy.capacity == 0
  {
    var reserved := new SimpleVector<int>.WithCapacity(1, 0);
    copy := new SimpleVector<int>.Copy(reserved);
  }
}
