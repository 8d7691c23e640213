/** The list-backed LIFO stack of module/data_structure/stack.py.

    The stack's top is the last element of `items`, as in the Python class,
    which appends on `push` and pops from the end.
 */
module Stack {
  import opened Wrappers

  datatype Stack<T> = Stack(items: seq<T>)

  function Empty<T>(): (s: Stack<T>)
    ensures IsEmpty(s) && Size(s) == 0
  {
    Stack([])
  }

  function Size<T>(s: Stack<T>): nat
  {
    |s.items|
  }

  predicate IsEmpty<T>(s: Stack<T>)
  {
    |s.items| == 0
  }

  /** `push(x)`: one more element, and `x` is now the top. */
  function Push<T>(s: Stack<T>, x: T): (r: Stack<T>)
    ensures Size(r) == Size(s) + 1
    ensures Peek(r) == Ok(x)
    ensures !IsEmpty(r)
  {
    Stack(s.items + [x])
  }

  /** `pop()`: raises IndexError on an empty stack; otherwise returns the top
      and the stack below it, one element shorter. */
  function Pop<T>(s: Stack<T>): (r: Result<(T, Stack<T>)>)
    ensures IsEmpty(s) <==> r == Err(IndexError)
    ensures r.Ok? ==> Size(r.value.1) == Size(s) - 1
    ensures r.Ok? ==> Push(r.value.1, r.value.0) == s
  {
    if IsEmpty(s) then Err(IndexError)
    else Ok((s.items[|s.items| - 1], Stack(s.items[..|s.items| - 1])))
  }

  /** `peek()`: the element `pop()` would return, without removing it. */
  function Peek<T>(s: Stack<T>): (r: Result<T>)
    ensures IsEmpty(s) <==> r == Err(IndexError)
  {
    if IsEmpty(s) then Err(IndexError) else Ok(s.items[|s.items| - 1])
  }

  /** `clear()`. */
  function Clear<T>(s: Stack<T>): (r: Stack<T>)
    ensures IsEmpty(r)
  {
    Stack([])
  }

  /** Pushing then popping gives back the pushed element and the old stack. */
  lemma PushPop<T>(s: Stack<T>, x: T)
    ensures Pop(Push(s, x)) == Ok((x, s))
  {
    assert Push(s, x).items[..|s.items|] == s.items;
  }

  /** Peeking agrees with popping on which element is on top. */
  lemma PeekIsPopped<T>(s: Stack<T>)
    ensures Peek(s).Ok? <==> Pop(s).Ok?
    ensures Pop(s).Ok? ==> Peek(s).value == Pop(s).value.0
  {
  }
}
