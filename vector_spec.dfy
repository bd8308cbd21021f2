/** The SimpleVector's state as a value, with one function per mutating
    operation. `buf` is the whole allocated block (its length is the capacity)
    and `size` the number of live elements at its front; slots past `size` are
    kept because the source reads them again (Insert without growth exposes
    one of them). `zero` stands for the element type's default value Type{}. */
module VectorSpec {

  datatype Vec<T> = Vec(buf: seq<T>, size: nat)

  /** The failure that At signals (std::out_of_range). */
  datatype Error = OutOfRange

  datatype Result<T> = Ok(value: T) | Err(error: Error)

  /** 0 <= size <= capacity. */
  predicate Valid<T>(v: Vec<T>) {
    v.size <= |v.buf|
  }

  function Capacity<T>(v: Vec<T>): nat {
    |v.buf|
  }

  /** The live elements, [begin(), end()). */
  function Elements<T>(v: Vec<T>): seq<T>
    requires Valid(v)
  {
    v.buf[..v.size]
  }

  function Repeat<T>(x: T, n: nat): seq<T> {
    seq(n, _ => x)
  }

  /** The growth rule of PushBack and Insert: capacity_ == 0 ? 1 : capacity_ * 2.
      The result always leaves room for at least one more element. */
  function Grow(capacity: nat): (r: nat)
    ensures capacity < r
  {
    if capacity == 0 then 1 else 2 * capacity
  }

  /** PushBack(item): when full, a block of Grow(capacity) default elements
      receives the old elements and the item; otherwise the item is written to
      slot size in place. */
  function PushBack<T>(v: Vec<T>, x: T, zero: T): (r: Vec<T>)
    requires Valid(v)
    ensures Valid(r) && r.size == v.size + 1
    ensures Elements(r) == Elements(v) + [x]
    ensures Capacity(r) == if v.size == Capacity(v) then Grow(Capacity(v)) else Capacity(v)
  {
    if v.size == |v.buf| then
      Vec(v.buf + [x] + Repeat(zero, Grow(|v.buf|) - v.size - 1), v.size + 1)
    else
      Vec(v.buf[v.size := x], v.size + 1)
  }

  /** Insert(pos, value) AS WRITTEN. The growth branch copies [0, pos), writes
      the value, then copies [pos, size) one slot further right. The in-place
      branch runs copy_backward(begin(), end(), end()), whose destination end
      is the source end, so nothing moves: only slot pos is overwritten and
      size grows, which drops the old element at pos and makes the stale slot
      at the old size live. */
  function Insert<T>(v: Vec<T>, pos: nat, x: T, zero: T): (r: Vec<T>)
    requires Valid(v) && pos <= v.size
    ensures Valid(r) && r.size == v.size + 1
    ensures Capacity(r) == if v.size == Capacity(v) then Grow(Capacity(v)) else Capacity(v)
    ensures Elements(r)[..pos] == Elements(v)[..pos] && Elements(r)[pos] == x
    ensures v.size == Capacity(v) ==> Elements(r) == Elements(v)[..pos] + [x] + Elements(v)[pos..]
    ensures v.size < Capacity(v) ==> Elements(r)[pos + 1..] == v.buf[pos + 1..v.size + 1]
  {
    if v.size == |v.buf| then
      Vec(v.buf[..pos] + [x] + v.buf[pos..] + Repeat(zero, Grow(|v.buf|) - v.size - 1), v.size + 1)
    else
      Vec(v.buf[pos := x], v.size + 1)
  }

  /** Insert(pos, value) as evidently intended: the in-place branch shifts
      [pos, size) one slot right (copy_backward(begin() + pos, end(), end() + 1))
      before writing the value. */
  function InsertCorrected<T>(v: Vec<T>, pos: nat, x: T, zero: T): (r: Vec<T>)
    requires Valid(v) && pos <= v.size
    ensures Valid(r) && r.size == v.size + 1
    ensures Capacity(r) == if v.size == Capacity(v) then Grow(Capacity(v)) else Capacity(v)
    ensures Elements(r) == Elements(v)[..pos] + [x] + Elements(v)[pos..]
  {
    if v.size == |v.buf| then
      Vec(v.buf[..pos] + [x] + v.buf[pos..] + Repeat(zero, Grow(|v.buf|) - v.size - 1), v.size + 1)
    else
      Vec(v.buf[..pos] + [x] + v.buf[pos..v.size] + v.buf[v.size + 1..], v.size + 1)
  }

  /** Erase(pos): [pos + 1, size) moves one slot left; the last live slot keeps
      its (moved-from) value and becomes spare. */
  function Erase<T>(v: Vec<T>, pos: nat): (r: Vec<T>)
    requires Valid(v) && pos < v.size
    ensures Valid(r) && r.size == v.size - 1 && Capacity(r) == Capacity(v)
    ensures Elements(r) == Elements(v)[..pos] + Elements(v)[pos + 1..]
  {
    Vec(v.buf[..pos] + v.buf[pos + 1..v.size] + v.buf[v.size - 1..], v.size - 1)
  }

  /** PopBack(): drops the last element if there is one; the block is untouched. */
  function PopBack<T>(v: Vec<T>): (r: Vec<T>)
    requires Valid(v)
    ensures Valid(r) && r.buf == v.buf
    ensures v.size == 0 ==> r == v
    ensures v.size > 0 ==> r.size == v.size - 1 && Elements(v) == Elements(r) + [v.buf[v.size - 1]]
  {
    if v.size > 0 then Vec(v.buf, v.size - 1) else v
  }

  /** Clear(): no live elements; capacity and block untouched. */
  function Clear<T>(v: Vec<T>): (r: Vec<T>)
    requires Valid(v)
    ensures Valid(r) && Elements(r) == [] && r.buf == v.buf
  {
    Vec(v.buf, 0)
  }

  /** Resize(n): growing reallocates to exactly n slots (even below the current
      capacity) holding the old elements and then defaults; shrinking resets
      slots [n, size) to the default in place and keeps the block. */
  function Resize<T>(v: Vec<T>, n: nat, zero: T): (r: Vec<T>)
    requires Valid(v)
    ensures Valid(r) && r.size == n
    ensures n <= v.size ==> Elements(r) == Elements(v)[..n]
    ensures n > v.size ==> Elements(r) == Elements(v) + Repeat(zero, n - v.size)
    ensures n > v.size ==> Capacity(r) == n
    ensures n <= v.size ==> Capacity(r) == Capacity(v)
    ensures n <= v.size ==> forall i :: n <= i < v.size ==> r.buf[i] == zero
  {
    if n > v.size then
      Vec(v.buf[..v.size] + Repeat(zero, n - v.size), n)
    else
      Vec(v.buf[..n] + Repeat(zero, v.size - n) + v.buf[v.size..], n)
  }

  /** Reserve(n): nothing happens unless n exceeds the capacity; then the live
      elements move to a block of exactly n slots. */
  function Reserve<T>(v: Vec<T>, n: nat, zero: T): (r: Vec<T>)
    requires Valid(v)
    ensures Valid(r) && Elements(r) == Elements(v)
    ensures n <= Capacity(v) ==> r == v
    ensures n > Capacity(v) ==> Capacity(r) == n
  {
    if n > |v.buf| then Vec(v.buf[..v.size] + Repeat(zero, n - v.size), v.size) else v
  }

  /** At(index): out_of_range exactly when index >= size, else the element. */
  function At<T>(v: Vec<T>, index: nat): (r: Result<T>)
    requires Valid(v)
    ensures r.Err? <==> index >= v.size
    ensures r.Ok? ==> r.value == Elements(v)[index]
  {
    if index >= v.size then Err(OutOfRange) else Ok(v.buf[index])
  }

  /** Erasing at the position just inserted at gives back the original
      elements, for the intended Insert. */
  lemma EraseInsertRoundTrip<T>(v: Vec<T>, pos: nat, x: T, zero: T)
    requires Valid(v) && pos <= v.size
    ensures Elements(Erase(InsertCorrected(v, pos, x, zero), pos)) == Elements(v)
  {
  }

  /** The Insert as written agrees with the intended one exactly when it grows
      the block, or when the slots it fails to shift already hold their left
      neighbour's value (trivially so for pos == size). */
  lemma InsertAsWrittenMatchesIntent<T>(v: Vec<T>, pos: nat, x: T, zero: T)
    requires Valid(v) && pos <= v.size
    ensures Elements(Insert(v, pos, x, zero)) == Elements(InsertCorrected(v, pos, x, zero))
            <==> v.size == Capacity(v) || forall k :: pos < k <= v.size ==> v.buf[k] == v.buf[k - 1]
  {
  }

  /** PopBack undoes PushBack on the elements (not on the block: a PushBack
      that grew leaves the larger block behind). */
  lemma PopBackUndoesPushBack<T>(v: Vec<T>, x: T, zero: T)
    requires Valid(v)
    ensures Elements(PopBack(PushBack(v, x, zero))) == Elements(v)
  {
  }

  /** After Clear, the next PushBack reuses the block (keeps the capacity)
      exactly when the capacity was positive. */
  lemma ClearThenPushBackReusesBlock<T>(v: Vec<T>, x: T, zero: T)
    requires Valid(v)
    ensures Capacity(PushBack(Clear(v), x, zero)) == Capacity(v) <==> Capacity(v) > 0
    ensures Elements(PushBack(Clear(v), x, zero)) == [x]
  {
  }

  /** Growing Resize may lower the capacity: a vector of one element in a block
      of four, resized to two, ends with capacity two. */
  lemma ResizeCanLowerCapacity()
    ensures var v := Vec([7, 0, 0, 0], 1);
            Valid(v) && Capacity(v) == 4 && Capacity(Resize(v, 2, 0)) == 2
  {
  }

  /** A run of operations on integers: appending 1, 2, 3 to an empty vector
      grows the capacity 0 -> 1 -> 2 -> 4. Inserting 99 at position 1 as
      written gives [1, 99, 3, 0] (2 is lost, the spare default becomes live);
      the intended insert gives [1, 99, 2, 3], and erasing position 0 from it
      gives [99, 2, 3]. Index 3 of that is out of range. */
  lemma AppendInsertEraseRun()
    ensures var v1 := PushBack(Vec([], 0), 1, 0);
            var v2 := PushBack(v1, 2, 0);
            var v3 := PushBack(v2, 3, 0);
            Capacity(v1) == 1 && Capacity(v2) == 2 && Capacity(v3) == 4 &&
            Elements(v3) == [1, 2, 3] &&
            Elements(Insert(v3, 1, 99, 0)) == [1, 99, 3, 0] &&
            Elements(InsertCorrected(v3, 1, 99, 0)) == [1, 99, 2, 3] &&
            Elements(Erase(InsertCorrected(v3, 1, 99, 0), 0)) == [99, 2, 3] &&
            At(Erase(InsertCorrected(v3, 1, 99, 0), 0), 3) == Err(OutOfRange)
  {
  }
}
