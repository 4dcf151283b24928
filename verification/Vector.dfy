/** The growable vector of fixed-size elements over a raw byte buffer. */
module Vector {
  import opened Bits

  const INITIAL_CAPACITY: nat := 4

  type Byte = x: int | 0 <= x < 256

  // ----- elements in a run of bytes -----

  /** Cuts n elements of e bytes each out of exactly as many bytes. */
  function Chunks(bytes: seq<Byte>, e: nat, n: nat): (cs: seq<seq<Byte>>)
    requires |bytes| == n * e
    ensures |cs| == n
    decreases n
  {
    if n == 0 then []
    else
      MulStep(n - 1, e);
      MulNonNegative(n - 1, e);
      [bytes[..e]] + Chunks(bytes[e..], e, n - 1)
  }

  lemma {:induction false} ChunksConcat(a: seq<Byte>, m: nat, b: seq<Byte>, n: nat, e: nat)
    requires |a| == m * e && |b| == n * e
    ensures |a + b| == (m + n) * e
    ensures Chunks(a + b, e, m + n) == Chunks(a, e, m) + Chunks(b, e, n)
    decreases m
  {
    Distribute(m, n, e);
    if m == 0 {
      assert a + b == b;
    } else {
      MulStep(m - 1, e);
      MulNonNegative(m - 1, e);
      ChunksConcat(a[e..], m - 1, b, n, e);
      assert (a + b)[..e] == a[..e] && (a + b)[e..] == a[e..] + b;
    }
  }

  lemma OneChunk(bytes: seq<Byte>, e: nat)
    requires |bytes| == e
    ensures Chunks(bytes, e, 1) == [bytes]
  {
    assert bytes[..e] == bytes && Chunks(bytes[e..], e, 0) == [];
  }

  lemma AppendChunk(bytes: seq<Byte>, value: seq<Byte>, n: nat, e: nat)
    requires |bytes| == n * e && |value| == e
    ensures |bytes + value| == (n + 1) * e
    ensures Chunks(bytes + value, e, n + 1) == Chunks(bytes, e, n) + [value]
  {
    OneChunk(value, e);
    ChunksConcat(bytes, n, value, 1, e);
  }

  // ----- the vector on values -----

  /** Size and capacity in elements, and how many elements reallocations have copied so far. */
  datatype Shape = Shape(size: nat, capacity: nat, relocated: nat)

  datatype Model = Model(elements: seq<seq<Byte>>, shape: Shape)

  datatype Call = PushBack(value: seq<Byte>) | Pop | RemoveAt(index: int)

  function Empty(): Model { Model([], Shape(0, INITIAL_CAPACITY, 0)) }

  function Grown(s: Shape): Shape {
    if s.size == s.capacity then Shape(s.size + 1, s.capacity * 2, s.relocated + s.size)
    else s.(size := s.size + 1)
  }

  function Shrunk(s: Shape): Shape
    requires s.size > 0
  {
    var size := s.size - 1;
    if size < s.capacity / 2 && s.capacity > INITIAL_CAPACITY
    then Shape(size, s.capacity / 2, s.relocated + size)
    else s.(size := size)
  }

  /** Four, doubled any number of times. */
  predicate IsCapacity(c: nat) { c == INITIAL_CAPACITY || (c > INITIAL_CAPACITY && c % 2 == 0 && IsCapacity(c / 2)) }

  predicate Consistent(m: Model) { |m.elements| == m.shape.size }

  /** What a call does; calls on an empty vector or an invalid index fail and change nothing. */
  function Step(m: Model, c: Call): (r: Model)
    requires Consistent(m)
    ensures Consistent(r)
  {
    var n := |m.elements|;
    match c
    case PushBack(value) => Model(m.elements + [value], Grown(m.shape))
    case Pop => if n == 0 then m else Model(m.elements[..n - 1], Shrunk(m.shape))
    case RemoveAt(i) =>
      if i < 0 || i >= n then m else Model(m.elements[..i] + m.elements[i + 1..], Shrunk(m.shape))
  }

  class Vector {
    var data: array<Byte>
    var size: nat
    var capacity: nat
    const elemSize: nat
    ghost var relocated: nat

    ghost predicate Valid()
      reads this
    {
      size <= capacity && IsCapacity(capacity) && data.Length == capacity * elemSize && size * elemSize <= data.Length
    }

    ghost function State(): Model
      requires Valid()
      reads this, data
    {
      MulNonNegative(size, elemSize);
      Model(Chunks(data[..size * elemSize], elemSize, size), Shape(size, capacity, relocated))
    }

    constructor (elemSize: nat)
      ensures Valid() && fresh(data) && this.elemSize == elemSize
      ensures State() == Empty()
    {
      this.elemSize := elemSize;
      data := new Byte[INITIAL_CAPACITY * elemSize];
      size, capacity, relocated := 0, INITIAL_CAPACITY, 0;
    }

    static method CopyBytes(source: array<Byte>, used: nat, length: nat) returns (block: array<Byte>)
      requires used <= source.Length && used <= length
      ensures fresh(block) && block.Length == length && block[..used] == source[..used]
    {
      block := new Byte[length];
      forall k | 0 <= k < used {
        block[k] := source[k];
      }
    }

    /** realloc: a block of the new size whose common part is copied. */
    method Realloc(newCapacity: nat)
      requires size <= newCapacity && size * elemSize <= data.Length && size * elemSize <= newCapacity * elemSize
      modifies this`data, this`relocated
      ensures fresh(data) && data.Length == newCapacity * elemSize
      ensures data[..size * elemSize] == old(data[..size * elemSize])
      ensures relocated == old(relocated) + size
    {
      data := CopyBytes(data, size * elemSize, newCapacity * elemSize);
      relocated := relocated + size;
    }

    /** memcpy into the block. */
    method Store(at: nat, bytes: seq<Byte>)
      requires at + |bytes| <= data.Length
      modifies data
      ensures data[..at] == old(data[..at]) && data[at..at + |bytes|] == bytes
      ensures data[at + |bytes|..] == old(data[at + |bytes|..])
    {
      forall k | 0 <= k < |bytes| {
        data[at + k] := bytes[k];
      }
    }

    /** The start of a push: double a full block. */
    method GrowIfFull()
      requires Valid()
      modifies this`data, this`capacity, this`relocated
      ensures Valid() && (data == old(data) || fresh(data)) && size < capacity
      ensures State().elements == old(State().elements)
      ensures Grown(old(State().shape)) == State().shape.(size := size + 1)
    {
      if size == capacity {
        capacity := capacity * 2;
        MulMonotone(size, capacity, elemSize);
        Realloc(capacity);
      }
    }

    /** The end of a push: the bytes of the value follow those in use. */
    method Append(value: seq<Byte>)
      requires Valid() && |value| == elemSize && size < capacity
      modifies data, this`size
      ensures Valid()
      ensures State().elements == old(State().elements) + [value]
      ensures State().shape == old(State().shape).(size := old(size) + 1)
    {
      MulMonotone(size + 1, capacity, elemSize);
      MulStep(size, elemSize);
      ghost var before := data[..size * elemSize];
      var start := size * elemSize;
      Store(start, value);
      size := size + 1;
      assert data[..start + elemSize] == data[..start] + data[start..start + elemSize];
      assert data[..size * elemSize] == before + value;
      AppendChunk(before, value, size - 1, elemSize);
    }

    method PushBack(value: seq<Byte>) returns (status: int)
      requires Valid() && |value| == elemSize
      modifies this, data
      ensures Valid() && (data == old(data) || fresh(data))
      ensures State() == Step(old(State()), Call.PushBack(value)) && status == 0
    {
      GrowIfFull();
      Append(value);
      status := 0;
    }

    /** The element goes to the caller's buffer; an empty vector leaves the buffer alone. */
    method PopBack() returns (status: int, out: seq<Byte>)
      requires Valid()
      modifies this, data
      ensures Valid() && (data == old(data) || fresh(data))
      ensures State() == Step(old(State()), Pop)
      ensures status == if |old(State()).elements| == 0 then -1 else 0
      ensures status == 0 ==> old(State()).elements == State().elements + [out]
    {
      if size == 0 {
        return -1, [];
      }
      status := 0;
      ghost var before := data[..size * elemSize];
      ByteOffsets(size - 1, size, elemSize);
      SplitAt(before, elemSize, size - 1, size);
      size := size - 1;
      out := data[size * elemSize..size * elemSize + elemSize];
      assert before[size * elemSize..] == out && before[..size * elemSize] == data[..size * elemSize];
      OneChunk(out, elemSize);
      ShrinkIfSparse();
    }

    /** memmove toward the front of the block. */
    method MoveDown(to: nat, from: nat, count: nat)
      requires to <= from && from + count <= data.Length
      modifies data
      ensures data[..to + count] == old(data[..to]) + old(data[..from + count][from..])
    {
      forall k | 0 <= k < count {
        data[to + k] := data[from + k];
      }
    }

    /** Closes the gap an element leaves. */
    method CloseGap(index: nat)
      requires Valid() && index < size
      modifies data, this`size
      ensures Valid() && size == old(size) - 1
      ensures State().elements == old(State().elements[..index] + State().elements[index + 1..])
    {
      ghost var before := data[..size * elemSize];
      ByteOffsets(index, size, elemSize);
      RemoveChunk(before, elemSize, index, size);
      var to, from, count := index * elemSize, (index + 1) * elemSize, (size - index - 1) * elemSize;
      MoveDown(to, from, count);
      size := size - 1;
      assert data[..to + count] == before[..to] + before[from..];
    }

    method RemoveAt(index: int) returns (status: int)
      requires Valid()
      modifies this, data
      ensures Valid() && (data == old(data) || fresh(data))
      ensures State() == Step(old(State()), Call.RemoveAt(index))
      ensures status == if 0 <= index < |old(State()).elements| then 0 else -1
    {
      if index < 0 || index >= size {
        return -1;
      }
      status := 0;
      CloseGap(index);
      ShrinkIfSparse();
    }

    /** The common end of pop and remove: give back half of a block that is less than half full. */
    method ShrinkIfSparse()
      requires Valid()
      modifies this, data
      ensures Valid() && (data == old(data) || fresh(data))
      ensures State().elements == old(State().elements)
      ensures State().shape == Shrunk(Shape(old(size) + 1, old(capacity), old(relocated)))
    {
      if size < capacity / 2 && capacity > INITIAL_CAPACITY {
        capacity := capacity / 2;
        MulMonotone(size, capacity, elemSize);
        Realloc(capacity);
      }
    }
  }

  lemma ByteOffsets(i: nat, n: nat, e: nat)
    requires i < n
    ensures (i + 1) * e == i * e + e && n * e == (i + 1) * e + (n - i - 1) * e
    ensures (n - 1) * e == i * e + (n - i - 1) * e && (n - i - 1) * e >= 0 && i * e >= 0
  {
    MulStep(i, e);
    Distribute(i + 1, n - i - 1, e);
    Distribute(i, n - i - 1, e);
    MulNonNegative(n - i - 1, e);
    MulNonNegative(i, e);
  }

  lemma Distribute(x: int, y: int, z: int)
    ensures (x + y) * z == x * z + y * z
  {
  }

  lemma SplitAt(bytes: seq<Byte>, e: nat, i: nat, n: nat)
    requires |bytes| == n * e && i <= n
    ensures 0 <= i * e <= n * e && |bytes[i * e..]| == (n - i) * e
    ensures Chunks(bytes, e, n) == Chunks(bytes[..i * e], e, i) + Chunks(bytes[i * e..], e, n - i)
  {
    MulMonotone(i, n, e);
    Distribute(i, n - i, e);
    ChunksConcat(bytes[..i * e], i, bytes[i * e..], n - i, e);
    assert bytes[..i * e] + bytes[i * e..] == bytes;
  }

  /** Closing a gap of one element in the bytes removes it from the elements. */
  lemma RemoveChunk(bytes: seq<Byte>, e: nat, i: nat, n: nat)
    requires |bytes| == n * e && i < n
    ensures 0 <= i * e <= (i + 1) * e <= n * e
    ensures var rest := bytes[..i * e] + bytes[(i + 1) * e..];
            var cs := Chunks(bytes, e, n);
            |rest| == (n - 1) * e && Chunks(rest, e, n - 1) == cs[..i] + cs[i + 1..]
  {
    ByteOffsets(i, n, e);
    SplitAt(bytes, e, i, n);
    SplitAt(bytes, e, i + 1, n);
    ChunksConcat(bytes[..i * e], i, bytes[(i + 1) * e..], n - i - 1, e);
  }

  // ----- whole runs -----

  function Run(m: Model, calls: seq<Call>): (r: Model)
    requires Consistent(m)
    ensures Consistent(r)
    decreases |calls|
  {
    if calls == [] then m else Run(Step(m, calls[0]), calls[1..])
  }

  /** The block is a power-of-two multiple of four, holds the elements, and is at least half full unless minimal. */
  predicate Fits(s: Shape) {
    s.size <= s.capacity && IsCapacity(s.capacity) && (s.capacity == INITIAL_CAPACITY || s.size >= s.capacity / 2)
  }

  lemma StepKeepsFits(m: Model, c: Call)
    requires Consistent(m) && Fits(m.shape)
    ensures Fits(Step(m, c).shape)
  {
  }

  lemma {:induction false} RunsKeepFits(m: Model, calls: seq<Call>)
    requires Consistent(m) && Fits(m.shape)
    ensures Fits(Run(m, calls).shape)
    decreases |calls|
  {
    if calls != [] {
      StepKeepsFits(m, calls[0]);
      RunsKeepFits(Step(m, calls[0]), calls[1..]);
    }
  }

  predicate OnlyPushes(calls: seq<Call>) { forall c :: c in calls ==> c.PushBack? }

  /** Pushes alone: every element moved so far is accounted for by the capacity gained. */
  lemma {:induction false} PushesRelocate(m: Model, calls: seq<Call>)
    requires Consistent(m) && OnlyPushes(calls)
    requires m.shape.relocated + INITIAL_CAPACITY == m.shape.capacity
    requires m.shape.capacity == INITIAL_CAPACITY || 2 * m.shape.size > m.shape.capacity
    ensures var s := Run(m, calls).shape;
            && s.size == m.shape.size + |calls|
            && s.relocated + INITIAL_CAPACITY == s.capacity
            && (s.capacity == INITIAL_CAPACITY || 2 * s.size > s.capacity)
    decreases |calls|
  {
    if calls != [] {
      assert calls[0] in calls;
      PushesRelocate(Step(m, calls[0]), calls[1..]);
    }
  }

  /** n pushes on a fresh vector copy at most 2n elements in reallocations. */
  lemma PushesAmortized(calls: seq<Call>)
    requires OnlyPushes(calls)
    ensures var s := Run(Empty(), calls).shape;
            s.size == |calls| && s.relocated <= 2 * |calls|
  {
    PushesRelocate(Empty(), calls);
  }

  // ----- the bound is for pushes only -----

  lemma {:induction false} RunConcat(m: Model, a: seq<Call>, b: seq<Call>)
    requires Consistent(m)
    ensures Run(m, a + b) == Run(Run(m, a), b)
    decreases |a|
  {
    if a == [] {
      assert a + b == b;
    } else {
      assert (a + b)[0] == a[0] && (a + b)[1..] == a[1..] + b;
      RunConcat(Step(m, a[0]), a[1..], b);
    }
  }

  function Cycle(v: seq<Byte>): seq<Call> { [PushBack(v), Pop, Pop, PushBack(v)] }

  /** Around a full block, each cycle of four calls copies nearly the whole vector twice and comes back to the same
      shape. */
  lemma PushPopThrashes(m: Model, v: seq<Byte>)
    requires Consistent(m) && Fits(m.shape) && m.shape.size == m.shape.capacity
    ensures Run(m, Cycle(v)).shape == m.shape.(relocated := m.shape.relocated + 2 * m.shape.size - 1)
  {
    var calls := Cycle(v);
    var m1 := Step(m, calls[0]);
    var m2 := Step(m1, calls[1]);
    var m3 := Step(m2, calls[2]);
    assert calls[1..][1..] == calls[2..] && calls[2..][1..] == calls[3..] && calls[3..][1..] == [];
    assert Run(m3, calls[3..]) == Step(m3, calls[3]);
    assert Run(m2, calls[2..]) == Run(m3, calls[3..]);
    assert Run(m1, calls[1..]) == Run(m2, calls[2..]);
  }

  function Cycles(v: seq<Byte>, n: nat): seq<Call> { if n == 0 then [] else Cycle(v) + Cycles(v, n - 1) }

  lemma {:induction false} CyclesThrash(m: Model, v: seq<Byte>, n: nat)
    requires Consistent(m) && Fits(m.shape) && m.shape.size == m.shape.capacity
    ensures Run(m, Cycles(v, n)).shape.relocated == m.shape.relocated + n * (2 * m.shape.size - 1)
    ensures |Cycles(v, n)| == 4 * n
    decreases n
  {
    if n > 0 {
      PushPopThrashes(m, v);
      RunConcat(m, Cycle(v), Cycles(v, n - 1));
      CyclesThrash(Run(m, Cycle(v)), v, n - 1);
      MulStep(n - 1, 2 * m.shape.size - 1);
    }
  }

  function Pushes(v: seq<Byte>, n: nat): seq<Call> { seq(n, _ => PushBack(v)) }

  lemma Halved(c: nat)
    ensures 2 * c / 2 == c && 2 * c % 2 == 0
  {
  }

  lemma DoubledCapacity(c: nat)
    requires IsCapacity(c)
    ensures IsCapacity(2 * c)
  {
    var d := 2 * c;
    Halved(c);
    AtLeastInitial(c);
    assert d > INITIAL_CAPACITY && d % 2 == 0 && IsCapacity(d / 2);
  }

  lemma {:induction false} PowersAreCapacities(k: nat)
    ensures IsCapacity(4 * Pow2(k)) && 4 * Pow2(k) > 4 * k
  {
    if k > 0 {
      PowersAreCapacities(k - 1);
      DoubledCapacity(4 * Pow2(k - 1));
      assert 4 * Pow2(k) == 2 * (4 * Pow2(k - 1));
    }
  }

  /** Two capacities, neither of them twice the other or more, are equal. */
  lemma {:induction false} CapacityGap(c: nat, d: nat)
    requires IsCapacity(c) && IsCapacity(d) && c <= d < 2 * c
    ensures c == d
    decreases c
  {
    if c > INITIAL_CAPACITY {
      CapacityGap(c / 2, d / 2);
    }
  }

  lemma FullAfterPushes(v: seq<Byte>, n: nat)
    requires IsCapacity(n)
    ensures var m := Run(Empty(), Pushes(v, n));
            m.shape == Shape(n, n, n - INITIAL_CAPACITY) && Fits(m.shape)
  {
    PushesRelocate(Empty(), Pushes(v, n));
    RunsKeepFits(Empty(), Pushes(v, n));
    AtLeastInitial(n);
    CapacityGap(n, Run(Empty(), Pushes(v, n)).shape.capacity);
  }

  lemma AtLeastInitial(n: nat)
    requires IsCapacity(n)
    ensures n >= INITIAL_CAPACITY
  {
  }

  /** Fills a block and then goes around its end as often as it has elements. */
  function Thrashing(v: seq<Byte>, n: nat): seq<Call> { Pushes(v, n) + Cycles(v, n) }

  lemma ThrashingCosts(v: seq<Byte>, n: nat)
    requires IsCapacity(n)
    ensures Run(Empty(), Thrashing(v, n)).shape.relocated == n - INITIAL_CAPACITY + n * (2 * n - 1)
    ensures |Thrashing(v, n)| == n + 4 * n
  {
    FullAfterPushes(v, n);
    RunConcat(Empty(), Pushes(v, n), Cycles(v, n));
    CyclesThrash(Run(Empty(), Pushes(v, n)), v, n);
  }

  /** With pops among the calls no constant number of relocations per call is enough. */
  lemma RelocationsUnbounded(c: nat, v: seq<Byte>)
    ensures exists n :: Run(Empty(), Thrashing(v, n)).shape.relocated > c * |Thrashing(v, n)|
  {
    var n := 4 * Pow2(c);
    PowersAreCapacities(c);
    AtLeastInitial(n);
    ThrashingCosts(v, n);
    TooMany(c, n);
    assert Run(Empty(), Thrashing(v, n)).shape.relocated > c * |Thrashing(v, n)|;
  }

  /** n - 4 relocations of n pushes and 2n - 1 of each of n cycles, against n calls and four in each cycle. */
  lemma TooMany(c: nat, n: nat)
    requires n >= 4 && n > 4 * c
    ensures n - 4 + n * (2 * n - 1) > c * (n + 4 * n)
  {
    MulMonotone(4 * c + 1, n, n);
    assert n * (2 * n - 1) == 2 * (n * n) - n;
    assert (4 * c + 1) * n == 4 * (c * n) + n;
    assert c * (n + 4 * n) == 5 * (c * n);
    MulNonNegative(c, n);
    MulMonotone(4, n, n);
  }
}
