/**
 * An immutable, persistent singly-linked list. A list is either empty or a
 * shared node holding one element in front of another list. Nodes are never
 * changed after they are built, so sharing a node between lists cannot be
 * observed, and Dafny's value semantics for datatypes describe the lists exactly.
 */
module ConsList {
  import opened Wrappers

  /** One node of a non-empty list: the element `x` in front of the list `xs`. */
  datatype ListBox<T> = ListBox(x: T, xs: List<T>)
  {
    /** The elements of the chain that starts at this node, head first. */
    ghost function Elems(): (s: seq<T>)
      ensures |s| >= 1 && s[0] == x
      decreases this
    {
      [x] + xs.Elems()
    }

    /** A rebuilt copy of the chain without its final element. */
    function Init(): (r: List<T>)
      ensures r.Elems() == Elems()[..|Elems()| - 1]
      decreases this
    {
      match xs.node
      case Some(next) => next.Init().Cons(x)
      case None => List.New()
    }

    /** Rebuilds the chain and ends it with `other`, which is shared, not copied. */
    function Append(other: List<T>): (r: List<T>)
      ensures r.Elems() == Elems() + other.Elems()
      ensures r.Suffix(|Elems()|) == Some(other)
      decreases this
    {
      match xs.node
      case Some(next) => next.Append(other).Cons(x)
      case None => other.Cons(x)
    }

    /** The element of the final node of the chain. */
    function Last(): (r: T)
      ensures r == Elems()[|Elems()| - 1]
      decreases this
    {
      match xs.node
      case Some(next) => next.Last()
      case None => x
    }
  }

  /** A list: no node for the empty list, otherwise a shared first node. */
  datatype List<T> = List(node: Option<ListBox<T>>)
  {
    /** The elements of the list, head first. */
    ghost function Elems(): (s: seq<T>)
      decreases this
    {
      match node
      case None => []
      case Some(b) => b.Elems()
    }

    /** The list left after stepping over `n` heads, if it has that many. */
    function Suffix(n: nat): Option<List<T>>
      decreases n
    {
      if n == 0 then Some(this)
      else match node
        case None => None
        case Some(b) => b.xs.Suffix(n - 1)
    }

    /** The empty list. */
    static function New(): (r: List<T>)
      ensures r.Elems() == []
    {
      List(None)
    }

    /** The default list, which is the empty one. */
    static function Default(): (r: List<T>)
      ensures r == New()
    {
      List(None)
    }

    /** Prepends `x`; the receiver becomes the tail of the new node, unchanged. */
    function Cons(x: T): (r: List<T>)
      ensures r.Elems() == [x] + Elems()
      ensures r.Uncons() == Some((x, this))
    {
      List(Some(ListBox(x, this)))
    }

    /** Splits a non-empty list into its head and its tail. */
    function Uncons(): (r: Option<(T, List<T>)>)
      ensures r.None? <==> Elems() == []
      ensures r.Some? ==> Elems() == [r.value.0] + r.value.1.Elems()
    {
      match node
      case None => None
      case Some(b) => Some((b.x, b.xs))
    }

    /** The head, if any: the first component of `Uncons`. */
    function First(): (r: Option<T>)
      ensures r.None? <==> Elems() == []
      ensures r.Some? ==> r.value == Elems()[0]
    {
      match Uncons()
      case None => None
      case Some((x, _)) => Some(x)
    }

    /** The tail, if any: the second component of `Uncons`. */
    function Rest(): (r: Option<List<T>>)
      ensures r.None? <==> Elems() == []
      ensures r.Some? ==> r.value.Elems() == Elems()[1..]
    {
      match Uncons()
      case None => None
      case Some((_, xs)) => Some(xs)
    }

    /** Every element but the last, in order, as a freshly built list. */
    function Init(): (r: Option<List<T>>)
      ensures r.None? <==> Elems() == []
      ensures r.Some? ==> r.value.Elems() == Elems()[..|Elems()| - 1]
    {
      match node
      case None => None
      case Some(b) => Some(b.Init())
    }

    /** The final element, if any. */
    function Last(): (r: Option<T>)
      ensures r.None? <==> Elems() == []
      ensures r.Some? ==> r.value == Elems()[|Elems()| - 1]
    {
      match node
      case None => None
      case Some(b) => Some(b.Last())
    }

    /**
     * The receiver's elements followed by `other`'s. An empty receiver gives
     * `other` itself; otherwise the receiver's nodes are rebuilt and `other`
     * becomes the tail after them.
     */
    function Append(other: List<T>): (r: List<T>)
      ensures r.Elems() == Elems() + other.Elems()
      ensures node.None? ==> r == other
      ensures r.Suffix(|Elems()|) == Some(other)
    {
      match node
      case None => other
      case Some(b) => b.Append(other)
    }

    /**
     * The debug text of the list: `head : tail`, ending in `[]`, where `show`
     * gives the debug text of one element.
     */
    function Render(show: T -> string): (r: string)
      ensures r == Items(Elems(), show) + "[]"
      decreases this
    {
      match node
      case None => "[]"
      case Some(b) =>
        ItemsCons(b.x, b.xs.Elems(), show);
        show(b.x) + " : " + b.xs.Render(show)
    }
  }

  /**
   * Reference text for a sequence of elements: each element's text followed by
   * " : ", built from the back of the sequence.
   */
  function Items<T>(s: seq<T>, show: T -> string): string
  {
    if s == [] then "" else Items(s[..|s| - 1], show) + show(s[|s| - 1]) + " : "
  }

  lemma {:induction false} ItemsCons<T>(x: T, s: seq<T>, show: T -> string)
    ensures Items([x] + s, show) == show(x) + " : " + Items(s, show)
    decreases |s|
  {
    if s != [] {
      var s' := s[..|s| - 1];
      assert ([x] + s)[..|[x] + s| - 1] == [x] + s';
      ItemsCons(x, s', show);
    }
  }

  /** The empty list renders as `[]`; a node renders as its head's text, " : ", then its tail's text. */
  lemma RenderShape<T>(l: List<T>, x: T, show: T -> string)
    ensures List<T>.New().Render(show) == "[]"
    ensures l.Cons(x).Render(show) == show(x) + " : " + l.Render(show)
  {
  }

  /** Lists with the same elements are the same list. */
  lemma {:induction false} ElemsInjective<T>(a: List<T>, b: List<T>)
    requires a.Elems() == b.Elems()
    ensures a == b
    decreases a
  {
    match a.node
    case None =>
      assert b.node.None?;
    case Some(ba) =>
      assert b.Elems() != [];
      var bb := b.node.value;
      assert ba.xs.Elems() == a.Elems()[1..] == b.Elems()[1..] == bb.xs.Elems();
      ElemsInjective(ba.xs, bb.xs);
  }

  /** The empty list has no head, tail, initial part or last element. */
  lemma NewIsEmpty<T>()
    ensures List<T>.New().Uncons() == None
    ensures List<T>.New().First() == None && List<T>.New().Rest() == None
    ensures List<T>.New().Init() == None && List<T>.New().Last() == None
    ensures List<T>.Default() == List<T>.New()
  {
  }

  /** Taking apart what `Cons` built gives back the element and the receiver. */
  lemma ConsUncons<T>(l: List<T>, x: T)
    ensures l.Cons(x).Uncons() == Some((x, l))
    ensures l.Cons(x).First() == Some(x) && l.Cons(x).Rest() == Some(l)
  {
  }

  /** Re-prepending what `Uncons` returns rebuilds the list. */
  lemma UnconsCons<T>(l: List<T>)
    requires l.Uncons().Some?
    ensures l.Uncons().value.1.Cons(l.Uncons().value.0) == l
  {
  }

  /** The last element of a one-element list is its element, and its `Init` is empty. */
  lemma Singleton<T>(x: T)
    ensures List.New().Cons(x).Last() == Some(x)
    ensures List.New().Cons(x).Init() == Some(List.New())
  {
  }

  /** `Init` followed by the last element, appended, gives back the list. */
  lemma {:induction false} InitAppendLast<T>(l: List<T>)
    requires l.Elems() != []
    ensures l.Init().value.Append(List.New().Cons(l.Last().value)) == l
  {
    var s := l.Elems();
    var r := l.Init().value.Append(List.New().Cons(l.Last().value));
    assert r.Elems() == s[..|s| - 1] + [s[|s| - 1]];
    assert s[..|s| - 1] + [s[|s| - 1]] == s;
    ElemsInjective(r, l);
  }

  /** Appending the empty list changes nothing, on either side. */
  lemma {:induction false} AppendIdentity<T>(l: List<T>)
    ensures List.New().Append(l) == l
    ensures l.Append(List.New()) == l
  {
    assert l.Elems() + [] == l.Elems();
    ElemsInjective(l.Append(List.New()), l);
  }

  /** `Append` is associative. */
  lemma {:induction false} AppendAssociative<T>(a: List<T>, b: List<T>, c: List<T>)
    ensures a.Append(b).Append(c) == a.Append(b.Append(c))
  {
    assert (a.Elems() + b.Elems()) + c.Elems() == a.Elems() + (b.Elems() + c.Elems());
    ElemsInjective(a.Append(b).Append(c), a.Append(b.Append(c)));
  }

  /** The length of an appended list is the sum of the two lengths. */
  lemma AppendLength<T>(a: List<T>, b: List<T>)
    ensures |a.Append(b).Elems()| == |a.Elems()| + |b.Elems()|
  {
  }
}
