/**
 * The demonstration driver: the list built by prepending 1, 2 and 3 to the
 * empty list, and what its accessors give back.
 */
module Demo {
  import opened Wrappers
  import opened ConsList

  /** Decimal debug text of a natural number. */
  function DebugNat(n: nat): (r: string)
    ensures |r| >= 1
    decreases n
  {
    if n < 10 then [(48 + n) as char] else DebugNat(n / 10) + [(48 + n % 10) as char]
  }

  /** Decimal debug text of an integer, with a leading minus sign when negative. */
  function DebugInt(n: int): (r: string)
  {
    if n < 0 then "-" + DebugNat(-n) else DebugNat(n)
  }

  /** The demonstration list, head first 3, 2, 1. */
  function DemoList(): (r: List<int>)
    ensures r.Elems() == [3, 2, 1]
  {
    List.New().Cons(1).Cons(2).Cons(3)
  }

  /** What the driver inspects: head, tail, initial part, last element and self-append. */
  lemma DemoScenario()
    ensures DemoList().First() == Some(3)
    ensures DemoList().Rest().Some? && DemoList().Rest().value.Elems() == [2, 1]
    ensures DemoList().Init().Some? && DemoList().Init().value.Elems() == [3, 2]
    ensures DemoList().Last() == Some(1)
    ensures DemoList().Append(DemoList()).Elems() == [3, 2, 1, 3, 2, 1]
  {
  }

  /** The debug text of the demonstration list. */
  lemma DemoRendering()
    ensures DemoList().Render(DebugInt) == "3 : 2 : 1 : []"
  {
  }

  /** Appending the demonstration list to itself rebuilds its three nodes in front of it. */
  lemma DemoSelfAppend()
    ensures DemoList().Append(DemoList()) == DemoList().Cons(1).Cons(2).Cons(3)
  {
  }

  /** The debug text of the demonstration list appended to itself. */
  lemma DemoAppendRendering()
    ensures DemoList().Append(DemoList()).Render(DebugInt) == "3 : 2 : 1 : 3 : 2 : 1 : []"
  {
  }
}
