/**
  The fixed-capacity LIFO stack every evaluator uses. A stack state is the
  sequence of its elements from bottom to top together with the length of
  the backing array; the Java `topIndex` cursor is `|elements| - 1`.
 */
module BoundedStack {
  import opened Results

  /** Capacity chosen when no positive size is given. */
  const DefaultSize: nat := 10

  /** Value of the top cursor of an empty stack. */
  const EmptyTop: int := -1

  datatype Stack<T> = Stack(elements: seq<T>, capacity: nat) {

    /** The class invariant: the backing array is non-empty and
        -1 <= topIndex <= capacity - 1. */
    predicate Valid() {
      0 < capacity && |elements| <= capacity
    }
  }

  /** Result of `push`: the new state and the boolean the call returns. */
  datatype Pushed<T> = Pushed(stack: Stack<T>, success: bool)

  /** Result of a successful `pop`: the new state and the removed element. */
  datatype Popped<T> = Popped(stack: Stack<T>, element: T)

  /** The sized constructor. */
  function New<T>(size: int): (s: Stack<T>)
    ensures s.Valid() && IsEmpty(s)
    ensures size > 0 ==> Size(s) == size
    ensures size <= 0 ==> Size(s) == DefaultSize
  {
    Stack([], if size <= 0 then DefaultSize else size)
  }

  /** The no-argument constructor. */
  function Default<T>(): (s: Stack<T>)
    ensures s.Valid() && IsEmpty(s) && Size(s) == DefaultSize
  {
    Stack([], DefaultSize)
  }

  function TopIndex<T>(s: Stack<T>): int {
    |s.elements| - 1
  }

  /** getNumberOfElements */
  function Count<T>(s: Stack<T>): (n: int)
    ensures s.Valid() ==> 0 <= n <= Size(s)
    ensures n == |s.elements|
  {
    TopIndex(s) + 1
  }

  /** getSize: the length of the backing array, fixed when the stack is
      built (CapacityNeverChanges). */
  function Size<T>(s: Stack<T>): (n: nat)
    ensures s.Valid() ==> 0 < n && |s.elements| <= n
  {
    s.capacity
  }

  function IsEmpty<T>(s: Stack<T>): (empty: bool)
    ensures empty <==> Count(s) == 0
    ensures empty <==> s.elements == []
  {
    TopIndex(s) == EmptyTop
  }

  function IsFull<T>(s: Stack<T>): (full: bool)
    ensures full <==> Count(s) == Size(s)
  {
    TopIndex(s) == s.capacity - 1
  }

  /** peek: the top element, or NoSuchElementException on an empty stack. */
  function Peek<T>(s: Stack<T>): (r: Result<T>)
    ensures r.Err? <==> Count(s) == 0
    ensures r.Err? ==> r.error == EmptyStack
    ensures r.Ok? ==> r.value == s.elements[Count(s) - 1]
  {
    if IsEmpty(s) then Err(EmptyStack) else Ok(s.elements[TopIndex(s)])
  }

  /** pop: removes and returns the top element; only the top changes. */
  function Pop<T>(s: Stack<T>): (r: Result<Popped<T>>)
    ensures r.Err? <==> Count(s) == 0
    ensures r.Err? ==> r.error == EmptyStack
    ensures r.Ok? ==> Peek(s) == Ok(r.value.element)
    ensures r.Ok? ==> r.value.stack.elements + [r.value.element] == s.elements
    ensures r.Ok? ==> Size(r.value.stack) == Size(s) && Count(r.value.stack) == Count(s) - 1
    ensures r.Ok? && s.Valid() ==> r.value.stack.Valid()
  {
    if IsEmpty(s) then Err(EmptyStack)
    else Ok(Popped(Stack(s.elements[..TopIndex(s)], s.capacity), s.elements[TopIndex(s)]))
  }

  /** push: refuses (returns false, changes nothing) on a full stack,
      otherwise places `x` on top of the unchanged others. */
  function Push<T>(s: Stack<T>, x: T): (r: Pushed<T>)
    ensures IsFull(s) ==> r == Pushed(s, false)
    ensures !IsFull(s) ==> r.success && Peek(r.stack) == Ok(x)
    ensures r.success ==> Count(r.stack) == Count(s) + 1
    ensures !IsFull(s) ==> r.stack.elements[..Count(s)] == s.elements
    ensures Size(r.stack) == Size(s)
    ensures s.Valid() ==> r.stack.Valid()
  {
    if IsFull(s) then Pushed(s, false)
    else Pushed(Stack(s.elements + [x], s.capacity), true)
  }

  /** A successful push followed by a pop returns the pushed element and
      restores the earlier state. */
  lemma PushThenPop<T>(s: Stack<T>, x: T)
    requires !IsFull(s)
    ensures Pop(Push(s, x).stack) == Ok(Popped(s, x))
  {
    var t := Push(s, x).stack;
    assert t.elements[..Count(s)] == s.elements;
  }

  /** Popping a non-empty stack and pushing the element back restores it. */
  lemma PopThenPush<T>(s: Stack<T>)
    requires s.Valid() && !IsEmpty(s)
    ensures Push(Pop(s).value.stack, Pop(s).value.element) == Pushed(s, true)
  {
  }

  /** A call that changes a stack: `push` of an element, or `pop`. */
  datatype Call<T> = PushCall(x: T) | PopCall

  /** The stack after a sequence of calls; a refused push and a pop of an
      empty stack leave it as it was. */
  function Run<T>(s: Stack<T>, calls: seq<Call<T>>): Stack<T>
    decreases |calls|
  {
    if calls == [] then s
    else
      var next := match calls[0]
        case PushCall(x) => Push(s, x).stack
        case PopCall => if IsEmpty(s) then s else Pop(s).value.stack;
      Run(next, calls[1..])
  }

  /** No sequence of pushes and pops changes the capacity, nor breaks the
      class invariant. */
  lemma {:induction false} CapacityNeverChanges<T>(s: Stack<T>, calls: seq<Call<T>>)
    ensures Size(Run(s, calls)) == Size(s)
    ensures s.Valid() ==> Run(s, calls).Valid()
    decreases |calls|
  {
    if calls != [] {
      var next := match calls[0]
        case PushCall(x) => Push(s, x).stack
        case PopCall => if IsEmpty(s) then s else Pop(s).value.stack;
      CapacityNeverChanges(next, calls[1..]);
    }
  }

  /** Element order reversed; the element that was first becomes the top. */
  function Reverse<T>(xs: seq<T>): (r: seq<T>)
    ensures |r| == |xs|
  {
    if xs == [] then [] else Reverse(xs[1..]) + [xs[0]]
  }

  lemma {:induction false} ReverseIndex<T>(xs: seq<T>)
    ensures forall i :: 0 <= i < |xs| ==> Reverse(xs)[i] == xs[|xs| - 1 - i]
  {
    if xs != [] {
      ReverseIndex(xs[1..]);
    }
  }

  lemma {:induction false} ReverseAppend<T>(a: seq<T>, b: seq<T>)
    ensures Reverse(a + b) == Reverse(b) + Reverse(a)
  {
    if a == [] {
      assert a + b == b;
    } else {
      assert (a + b)[1..] == a[1..] + b;
      ReverseAppend(a[1..], b);
    }
  }

  /** The first element of a sequence is the last of its reversal. */
  lemma ReverseFirst<T>(xs: seq<T>)
    requires xs != []
    ensures Reverse(xs) == Reverse(xs[1..]) + [xs[0]]
  {
  }

  /** The last element of a sequence is the first of its reversal. */
  lemma {:induction false} ReverseLast<T>(xs: seq<T>)
    requires xs != []
    ensures Reverse(xs) == [xs[|xs| - 1]] + Reverse(xs[..|xs| - 1])
  {
    if |xs| > 1 {
      ReverseLast(xs[1..]);
      assert xs[1..][..|xs| - 2] == xs[..|xs| - 1][1..];
    }
  }

  lemma EmptyThen<T>(xs: seq<T>)
    ensures [] + xs == xs
  {
  }

  lemma ReverseOne<T>(y: T)
    ensures Reverse([y]) == [y]
  {
    assert [y][1..] == [];
  }

  /** Reversal around a middle element. */
  lemma ReverseAround<T>(a: seq<T>, x: T, b: seq<T>)
    ensures Reverse(a + [x] + b) == Reverse(b) + [x] + Reverse(a)
  {
    ReverseAppend(a + [x], b);
    ReverseAppend(a, [x]);
    ReverseOne(x);
  }

  /** Moving the top of `ops` onto `out` and then the top part of what is
      left above position k, one pop at a time, appends the whole top part
      above k in pop order. */
  lemma AppendTopThenRest<T>(out: seq<T>, ops: seq<T>, k: nat)
    requires k < |ops|
    ensures out + [ops[|ops| - 1]] + Reverse(ops[..|ops| - 1][k..]) == out + Reverse(ops[k..])
  {
    ReverseLast(ops[k..]);
    assert ops[k..][..|ops| - k - 1] == ops[..|ops| - 1][k..];
  }

  /** The shape of one more pop-and-push: if moving the top of `ops` to
      `out` and then everything above position k of the rest gives `rOps`
      and `rOut`, then `rOps` is what lies below k in `ops`, and `rOut` is
      `out` followed by everything above k in `ops`, in pop order. */
  lemma {:induction false} MovedTopThenRest<T>(out: seq<T>, ops: seq<T>, k: nat, rOps: seq<T>, rOut: seq<T>)
    requires k < |ops|
    requires rOps == ops[..|ops| - 1][..k]
    requires rOut == out + [ops[|ops| - 1]] + Reverse(ops[..|ops| - 1][k..])
    ensures rOps == ops[..k]
    ensures rOut == out + Reverse(ops[k..])
    ensures ops[k..] == ops[..|ops| - 1][k..] + [ops[|ops| - 1]]
  {
    AppendTopThenRest(out, ops, k);
    assert ops[k..] == ops[..|ops| - 1][k..] + [ops[|ops| - 1]];
  }

  /** Moving nothing: all of `ops` lies below its own length, and nothing
      is appended. */
  lemma MovedNothing<T>(out: seq<T>, ops: seq<T>)
    ensures ops == ops[..|ops|]
    ensures out == out + Reverse(ops[|ops|..])
  {
    assert ops[|ops|..] == [];
  }

  /** The state `reverseStack` returns: same elements bottom-to-top reversed,
      same capacity. */
  function Reversed<T>(s: Stack<T>): (r: Stack<T>)
    ensures Size(r) == Size(s) && Count(r) == Count(s)
    ensures s.Valid() ==> r.Valid()
  {
    Stack(Reverse(s.elements), s.capacity)
  }

  /** Popping a reversed stack yields the original bottom element, and what
      is left is the reversal of the remaining elements. */
  lemma PopReversed<T>(xs: seq<T>, cap: nat)
    requires xs != []
    ensures Pop(Stack(Reverse(xs), cap)) == Ok(Popped(Stack(Reverse(xs[1..]), cap), xs[0]))
  {
    var r := Reverse(xs);
    assert r == Reverse(xs[1..]) + [xs[0]];
    assert r[..|r| - 1] == Reverse(xs[1..]);
  }
}
