/** The sole-owner handle over one heap block (ArrayPtr<Type>). The block is a
    Dafny array; the raw pointer raw_ptr_ is the nullable reference `ptr`.
    Freeing the block (the destructor) has no counterpart in Dafny. */
module ArrayPointer {

  class ArrayPtr<T> {
    /** raw_ptr_: the owned block, or null when nothing is owned. */
    var ptr: array?<T>

    /** ArrayPtr(): owns nothing. */
    constructor Default()
      ensures ptr == null
    {
      ptr := null;
    }

    /** ArrayPtr(size): a fresh block of `size` default-constructed elements
        (`zero` stands for Type{}); no block at all when size is 0. */
    constructor Sized(size: nat, zero: T)
      ensures size == 0 <==> ptr == null
      ensures ptr != null ==> fresh(ptr) && ptr.Length == size
      ensures ptr != null ==> forall i :: 0 <= i < ptr.Length ==> ptr[i] == zero
    {
      if size == 0 {
        ptr := null;
      } else {
        ptr := new T[size](_ => zero);
      }
    }

    /** ArrayPtr(raw_ptr): adopts the given block, or null, as it is. */
    constructor FromRaw(raw: array?<T>)
      ensures ptr == raw
    {
      ptr := raw;
    }

    /** The move constructor AS WRITTEN: it copies the source's pointer and does
        not null it, so afterwards two owners hold the same block (and both
        destructors would free it). See DuplicateOwnership and Take. */
    constructor Move(other: ArrayPtr<T>)
      ensures ptr == other.ptr
    {
      ptr := other.ptr;
    }

    /** Move assignment AS WRITTEN: a temporary is move-constructed from `other`
        and swapped in; since that move does not null `other`, `other` keeps
        its block and this owner now shares it. The block this owner held
        before goes to the temporary (and would be freed with it). */
    method MoveAssign(other: ArrayPtr<T>)
      modifies this
      ensures ptr == old(other.ptr)
      ensures other != this ==> other.ptr == old(other.ptr)
    {
      var temp := new ArrayPtr<T>.Move(other);
      Swap(temp);
    }

    /** The move constructor as evidently intended: the block changes owner and
        the source is left owning nothing. */
    constructor Take(other: ArrayPtr<T>)
      modifies other
      ensures ptr == old(other.ptr)
      ensures other.ptr == null
    {
      ptr := other.ptr;
      new;
      other.ptr := null;
    }

    /** Move assignment built on Take: this owner receives `other`'s block and
        `other` ends up owning nothing, unless both are the same owner. */
    method TakeAssign(other: ArrayPtr<T>)
      modifies this, other
      ensures ptr == old(other.ptr)
      ensures other != this ==> other.ptr == null
    {
      var temp := new ArrayPtr<T>.Take(other);
      Swap(temp);
    }

    /** Release(): hands the block to the caller; this owner then holds null. */
    method Release() returns (block: array?<T>)
      modifies this
      ensures block == old(ptr)
      ensures ptr == null
    {
      block := ptr;
      ptr := null;
    }

    /** operator[] (const): reads slot `index`, unchecked in the source. */
    method Read(index: nat) returns (x: T)
      requires ptr != null && index < ptr.Length
      ensures x == ptr[index]
    {
      x := ptr[index];
    }

    /** operator[] used as an lvalue: writes slot `index`, unchecked in the source. */
    method Write(index: nat, x: T)
      requires ptr != null && index < ptr.Length
      modifies ptr
      ensures ptr[..] == old(ptr[..])[index := x]
    {
      ptr[index] := x;
    }

    /** explicit operator bool: whether a block is held. */
    method IsOwning() returns (b: bool)
      ensures b <==> ptr != null
    {
      b := ptr != null;
    }

    /** Get(): the held pointer, unchanged. */
    method Get() returns (block: array?<T>)
      ensures block == ptr
    {
      block := ptr;
    }

    /** swap(other): exchanges the two pointers; no element is touched. */
    method Swap(other: ArrayPtr<T>)
      modifies this, other
      ensures ptr == old(other.ptr)
      ensures other.ptr == old(ptr)
    {
      var temp := other.ptr;
      other.ptr := ptr;
      ptr := temp;
    }
  }

  /** swap is an involution: swapping twice gives both owners back their blocks. */
  method SwapTwice<T>(a: ArrayPtr<T>, b: ArrayPtr<T>)
    modifies a, b
    ensures a.ptr == old(a.ptr) && b.ptr == old(b.ptr)
  {
    a.Swap(b);
    a.Swap(b);
  }

  /** The move constructor as written leaves two distinct owners of one block. */
  method DuplicateOwnership() returns (source: ArrayPtr<int>, target: ArrayPtr<int>)
    ensures source != target
    ensures source.ptr != null && source.ptr == target.ptr
  {
    source := new ArrayPtr<int>.Sized(3, 0);
    target := new ArrayPtr<int>.Move(source);
  }

  /** With Take instead, the block has exactly one owner afterwards. */
  method SoleOwnership() returns (source: ArrayPtr<int>, target: ArrayPtr<int>)
    ensures source != target
    ensures target.ptr != null && source.ptr == null
  {
    source := new ArrayPtr<int>.Sized(3, 0);
    target := new ArrayPtr<int>.Take(source);
  }
}
