/** What each copying operation of the file-mapped vector writes into the temporary file, and the two in-place
    writes of `push_back`. */
module VectorOps {
  import opened Positional
  import opened VectorLayout

  /** What a user of the vector sees. */
  datatype Contents = Contents(prefix: seq<Byte>, elements: seq<Elem>, suffix: seq<Byte>)

  function View(v: Image): Contents
    requires v.size <= |v.slots|
  {
    Contents(v.prefix, v.slots[..v.size], v.suffix)
  }

  ghost predicate WellFormed(v: Image, width: nat)
  {
    v.size <= |v.slots| && Sized(v.slots, width)
  }

  /** Cut or zero-padded to `n` bytes: a copy of the common part into a zero-filled file. */
  function Resized(b: seq<Byte>, n: nat): (r: seq<Byte>)
    ensures |r| == n && (n == |b| ==> r == b)
  {
    if n <= |b| then b[..n] else b + Zeros(n - |b|)
  }

  /** `r` is `b` resized: the same bytes as far as both go, and zeros beyond the old end. */
  ghost predicate KeepsCommonPart(b: seq<Byte>, r: seq<Byte>)
  {
    forall i :: 0 <= i < |r| ==> r[i] == if i < |b| then b[i] else 0
  }

  lemma ResizedBytes(b: seq<Byte>, n: nat)
    ensures KeepsCommonPart(b, Resized(b, n))
  {
    if n > |b| {
      forall i | |b| <= i < n ensures Resized(b, n)[i] == 0 {
        assert Resized(b, n)[i] == Zeros(n - |b|)[i - |b|];
      }
    }
  }

  /** Growing and shrinking back restores the bytes; shrinking and growing back loses only what was cut off. */
  lemma ResizedBack(b: seq<Byte>, n: nat)
    ensures n >= |b| ==> Resized(Resized(b, n), |b|) == b
    ensures n <= |b| ==> Resized(Resized(b, n), |b|) == b[..n] + Zeros(|b| - n)
  {
  }

  /** The operations that go through `atomicUpdate0`. */
  datatype Operation =
    | Insert(position: nat, values: seq<Elem>)
    | Erase(first: nat, last: nat)
    | Reserve(capacity: nat)
    | ShrinkToFit
    | ResizePrefix(bytes: nat)
    | ResizeSuffix(bytes: nat)

  /** The operation names positions inside a vector of `size` elements, and elements of the right width. */
  ghost predicate Legal(op: Operation, size: nat, width: nat)
  {
    match op
    case Insert(position, values) => position <= size && Sized(values, width)
    case Erase(first, last) => first <= last <= size
    case _ => true
  }

  /** What the operation does to the contents. */
  function Meaning(op: Operation, c: Contents): Contents
    requires op.Insert? ==> op.position <= |c.elements|
    requires op.Erase? ==> op.first <= op.last <= |c.elements|
  {
    match op
    case Insert(position, values) => c.(elements := c.elements[..position] + values + c.elements[position..])
    case Erase(first, last) => c.(elements := c.elements[..first] + c.elements[last..])
    case Reserve(_) | ShrinkToFit => c
    case ResizePrefix(bytes) => c.(prefix := Resized(c.prefix, bytes))
    case ResizeSuffix(bytes) => c.(suffix := Resized(c.suffix, bytes))
  }

  function NextCapacity(capacity: nat): nat
  {
    capacity + capacity / 2 + 1
  }

  /** The capacity after the operation. */
  function NewCapacity(op: Operation, v: Image): nat
  {
    var had := |v.slots|;
    match op
    case Insert(_, values) =>
      var needed := v.size + |values|;
      if needed <= had then had else if needed <= NextCapacity(had) then NextCapacity(had) else needed
    case Reserve(capacity) => if capacity > had then capacity else had
    case ShrinkToFit => v.size
    case _ => had
  }

  /** A zero-filled file of the given capacity into which the contents were copied. */
  ghost function Copied(c: Contents, capacity: nat, width: nat): Image
    requires |c.elements| <= capacity
  {
    Image(c.prefix, |c.elements|, c.elements + seq(capacity - |c.elements|, i => Zeros(width)), c.suffix)
  }

  lemma CopiedSlots(c: Contents, slots: seq<Elem>, width: nat)
    requires |c.elements| <= |slots| && c.elements == slots[..|c.elements|]
    requires forall i :: |c.elements| <= i < |slots| ==> slots[i] == Zeros(width)
    ensures slots == Copied(c, |slots|, width).slots
  {
  }

  /** Whether the operation makes a copy at all. */
  predicate Copies(op: Operation, v: Image)
  {
    match op
    case Insert(_, _) | Erase(_, _) => true
    case Reserve(_) | ShrinkToFit => NewCapacity(op, v) != |v.slots|
    case ResizePrefix(bytes) => bytes != |v.prefix|
    case ResizeSuffix(bytes) => bytes != |v.suffix|
  }

  /** The image the operation leaves behind. */
  ghost function Result(op: Operation, v: Image, width: nat): Image
    requires WellFormed(v, width) && Legal(op, v.size, width)
  {
    if Copies(op, v) then Copied(Meaning(op, View(v)), NewCapacity(op, v), width) else v
  }

  /** Whatever the operation, the image it leaves is well formed, has the new capacity and shows the new contents. */
  lemma ResultMeans(op: Operation, v: Image, width: nat)
    requires WellFormed(v, width) && Legal(op, v.size, width)
    ensures var w := Result(op, v, width);
      WellFormed(w, width) && |w.slots| == NewCapacity(op, v) && View(w) == Meaning(op, View(v))
  {
    var c, w := Meaning(op, View(v)), Result(op, v, width);
    if Copies(op, v) {
      assert w.slots[..w.size] == c.elements;
    } else {
      assert View(w) == c;
    }
  }

  /** The capacity always suffices, an insertion that fits leaves it alone, and one that does not makes it grow by at
      least half, so that appending one element at a time copies seldom. */
  lemma CapacityRule(op: Operation, v: Image, width: nat)
    requires WellFormed(v, width) && Legal(op, v.size, width)
    ensures var had, has, size := |v.slots|, |Result(op, v, width).slots|, Result(op, v, width).size;
      && size <= has
      && (op.Insert? ==>
        if size <= had then has == had else 2 * has > 3 * had && (has > size ==> has <= had + had / 2 + 1))
      && (op.Reserve? ==> has >= had && has >= op.capacity && (has == had || has == op.capacity))
      && (op.ShrinkToFit? ==> has == v.size)
  {
    ResultMeans(op, v, width);
    ResultSize(op, v, width);
  }

  lemma ResultSize(op: Operation, v: Image, width: nat)
    requires WellFormed(v, width) && Legal(op, v.size, width)
    ensures Result(op, v, width).size == |Meaning(op, View(v)).elements|
  {
  }

  /** The in-place writes: a slot (`operator[]`, or the element of `push_back`) and the size field. */
  datatype Write = Slot(index: nat, value: Elem) | Size(size: nat)

  ghost predicate Fits(write: Write, v: Image, width: nat)
  {
    match write
    case Slot(index, value) => index < |v.slots| && |value| == width
    case Size(size) => size <= |v.slots|
  }

  function Written(write: Write, v: Image): Image
    requires write.Slot? ==> write.index < |v.slots|
  {
    match write
    case Slot(index, value) => v.(slots := v.slots[index := value])
    case Size(size) => v.(size := size)
  }

  /** Nothing written beyond the size is seen, whatever it is; once it is complete, raising the size shows it. */
  lemma WrittenBeyond(v: Image, width: nat, value: Elem)
    requires WellFormed(v, width) && v.size < |v.slots| && |value| == width
    ensures var w := Written(Slot(v.size, value), v); WellFormed(w, width) && View(w) == View(v)
    ensures var w := Written(Size(v.size + 1), Written(Slot(v.size, value), v));
      WellFormed(w, width) && View(w) == View(v).(elements := View(v).elements + [value])
  {
    var w := Written(Slot(v.size, value), v);
    assert w.slots[..v.size] == v.slots[..v.size];
    assert w.slots[..v.size + 1] == v.slots[..v.size] + [value];
  }

  /** `std::copy` into the new slots. */
  method CopyTo(target: array<Elem>, at: nat, source: seq<Elem>)
    requires at + |source| <= target.Length
    modifies target
    ensures forall i :: 0 <= i < target.Length ==>
      target[i] == if at <= i < at + |source| then source[i - at] else old(target[i])
  {
    for k := 0 to |source|
      invariant forall i :: 0 <= i < target.Length ==>
        target[i] == if at <= i < at + k then source[i - at] else old(target[i])
    {
      target[at + k] := source[k];
    }
  }

  /** `create`: a zero-filled file of the given capacity. */
  method NewSlots(capacity: nat, width: nat) returns (target: array<Elem>)
    ensures fresh(target) && target.Length == capacity && forall i :: 0 <= i < capacity ==> target[i] == Zeros(width)
  {
    target := new Elem[capacity](i => Zeros(width));
  }

  /** The mapped file. The copying operations build a new image, which replaces the old one as a whole. */
  class FileMappedVector {
    const width: nat
    var image: Image

    ghost predicate Valid()
      reads this
    {
      WellFormed(image, width)
    }

    ghost function Shown(): Contents
      requires Valid()
      reads this
    {
      View(image)
    }

    /** A vector on an existing image. */
    constructor (v: Image, w: nat)
      requires WellFormed(v, w)
      ensures Valid() && image == v && width == w
    {
      image, width := v, w;
    }

    /** `insert` */
    method Insert(position: nat, values: seq<Elem>)
      requires Valid() && position <= image.size && Sized(values, width)
      modifies this
      ensures Valid() && image == Result(Operation.Insert(position, values), old(image), width)
      ensures var was := old(Shown());
        Shown() == was.(elements := was.elements[..position] + values + was.elements[position..])
    {
      var v := image;
      var newSize, capacity := v.size + |values|, |v.slots|;
      var newCapacity := capacity;
      if newSize > capacity {
        newCapacity := NextCapacity(capacity);
        if newSize > newCapacity { newCapacity := newSize; }
      }
      var target := NewSlots(newCapacity, width);
      CopyTo(target, 0, v.slots[..position]);
      CopyTo(target, position, values);
      CopyTo(target, position + |values|, v.slots[position..v.size]);
      image := Image(Resized(v.prefix, |v.prefix|), newSize, target[..], Resized(v.suffix, |v.suffix|));
      ghost var op := Operation.Insert(position, values);
      ghost var e := v.slots[..v.size];
      assert target[..newSize] == e[..position] + values + e[position..];
      CopiedSlots(Meaning(op, View(v)), target[..], width);
      ResultMeans(op, v, width);
    }

    /** `erase` of the elements from `first` up to `last` */
    method Erase(first: nat, last: nat)
      requires Valid() && first <= last <= image.size
      modifies this
      ensures Valid() && image == Result(Operation.Erase(first, last), old(image), width)
      ensures var was := old(Shown()); Shown() == was.(elements := was.elements[..first] + was.elements[last..])
    {
      var v := image;
      var newSize := v.size - (last - first);
      var target := NewSlots(|v.slots|, width);
      CopyTo(target, 0, v.slots[..first]);
      CopyTo(target, first, v.slots[last..v.size]);
      image := Image(Resized(v.prefix, |v.prefix|), newSize, target[..], Resized(v.suffix, |v.suffix|));
      ghost var op := Operation.Erase(first, last);
      ghost var e := v.slots[..v.size];
      assert target[..newSize] == e[..first] + e[last..];
      CopiedSlots(Meaning(op, View(v)), target[..], width);
      ResultMeans(op, v, width);
    }

    /** The copy made by `reserve`, `shrink_to_fit`, `resizePrefix` and `resizeSuffix`. */
    method Recopy(newCapacity: nat, newPrefix: nat, newSuffix: nat)
      requires Valid() && image.size <= newCapacity
      modifies this
      ensures Valid() && |image.slots| == newCapacity
      ensures KeepsCommonPart(old(image).prefix, image.prefix) && |image.prefix| == newPrefix
      ensures KeepsCommonPart(old(image).suffix, image.suffix) && |image.suffix| == newSuffix
      ensures Shown().elements == old(Shown()).elements
      ensures var was := old(Shown());
        image == Copied(Contents(Resized(was.prefix, newPrefix), was.elements, Resized(was.suffix, newSuffix)),
          newCapacity, width)
    {
      var v := image;
      var target := NewSlots(newCapacity, width);
      CopyTo(target, 0, v.slots[..v.size]);
      image := Image(Resized(v.prefix, newPrefix), v.size, target[..], Resized(v.suffix, newSuffix));
      ResizedBytes(v.prefix, newPrefix);
      ResizedBytes(v.suffix, newSuffix);
      assert image.slots == v.slots[..v.size] + seq(newCapacity - v.size, i => Zeros(width));
      assert image.slots[..v.size] == v.slots[..v.size];
    }

    /** `reserve` */
    method Reserve(n: nat)
      requires Valid()
      modifies this
      ensures Valid() && image == Result(Operation.Reserve(n), old(image), width)
      ensures Shown() == old(Shown()) && |image.slots| == if n > |old(image).slots| then n else |old(image).slots|
    {
      ResultMeans(Operation.Reserve(n), image, width);
      if n > |image.slots| { Recopy(n, |image.prefix|, |image.suffix|); }
    }

    /** `shrink_to_fit` */
    method ShrinkToFit()
      requires Valid()
      modifies this
      ensures Valid() && image == Result(Operation.ShrinkToFit, old(image), width)
      ensures Shown() == old(Shown()) && |image.slots| == old(image).size
    {
      ResultMeans(Operation.ShrinkToFit, image, width);
      if image.size < |image.slots| { Recopy(image.size, |image.prefix|, |image.suffix|); }
    }

    /** `resizePrefix` */
    method ResizePrefix(n: nat)
      requires Valid()
      modifies this
      ensures Valid() && image == Result(Operation.ResizePrefix(n), old(image), width)
      ensures Shown() == old(Shown()).(prefix := image.prefix)
      ensures |image.prefix| == n && KeepsCommonPart(old(image).prefix, image.prefix)
    {
      ResizedBytes(image.prefix, n);
      ResultMeans(Operation.ResizePrefix(n), image, width);
      if |image.prefix| != n { Recopy(|image.slots|, n, |image.suffix|); }
    }

    /** `resizeSuffix` */
    method ResizeSuffix(n: nat)
      requires Valid()
      modifies this
      ensures Valid() && image == Result(Operation.ResizeSuffix(n), old(image), width)
      ensures Shown() == old(Shown()).(suffix := image.suffix)
      ensures |image.suffix| == n && KeepsCommonPart(old(image).suffix, image.suffix)
    {
      ResizedBytes(image.suffix, n);
      ResultMeans(Operation.ResizeSuffix(n), image, width);
      if |image.suffix| != n { Recopy(|image.slots|, |image.prefix|, n); }
    }

    /** `push_back`. `copied` is the image after an eventual copy. From there the file goes through the slot, of
        which any part may have been written when the process stops, and then the size: until the size is
        written the old contents show, whatever bytes the slot holds. */
    method PushBack(value: Elem) returns (ghost copied: Image)
      requires Valid() && |value| == width
      modifies this
      ensures Valid() && Shown() == old(Shown()).(elements := old(Shown()).elements + [value])
      ensures WellFormed(copied, width) && copied.size < |copied.slots| && View(copied) == old(Shown())
      ensures forall torn: Elem :: |torn| == width ==> View(Written(Slot(copied.size, torn), copied)) == old(Shown())
      ensures image == Written(Size(copied.size + 1), Written(Slot(copied.size, value), copied))
    {
      ghost var was := Shown();
      if |image.slots| == image.size { Reserve(NextCapacity(|image.slots|)); }
      copied := image;
      assert copied.size == |View(copied).elements| == |was.elements|;
      image := image.(slots := image.slots[image.size := value]);
      image := image.(size := image.size + 1);
      WrittenBeyond(copied, width, value);
      forall torn: Elem | |torn| == width
        ensures View(Written(Slot(copied.size, torn), copied)) == was
      {
        WrittenBeyond(copied, width, torn);
      }
    }

    /** `pop_back` */
    method PopBack()
      requires Valid() && image.size > 0
      modifies this
      ensures Valid() && Shown() == old(Shown()).(elements := old(Shown()).elements[..old(image).size - 1])
    {
      ghost var v := image;
      image := image.(size := image.size - 1);
      assert image.slots[..image.size] == v.slots[..v.size][..image.size];
    }

    /** `clear` */
    method Clear()
      requires Valid()
      modifies this
      ensures Valid() && Shown() == old(Shown()).(elements := [])
    {
      image := image.(size := 0);
    }
  }

  /** What an insertion adds, an erasure of the same range takes out again. */
  method InsertThenErase(vector: FileMappedVector, position: nat, values: seq<Elem>)
    requires vector.Valid() && position <= vector.image.size && Sized(values, vector.width)
    modifies vector
    ensures vector.Valid() && vector.Shown() == old(vector.Shown())
  {
    ghost var e := vector.Shown().elements;
    vector.Insert(position, values);
    assert vector.image.size == |vector.Shown().elements|;
    vector.Erase(position, position + |values|);
    assert e[..position] + e[position..] == e;
  }
}
