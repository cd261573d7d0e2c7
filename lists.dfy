/**
 * Type-level lists (src/lists.hpp): a list is `list_element<V,Tail>` ending in
 * `end_element`, and every operation is structural recursion over it. Each
 * function here says what it does to the sequence of elements, `Elements`.
 */
module Lists {

  datatype List<T> = End | Element(value: T, tail: List<T>)

  /** The elements of a list, front first. */
  function Elements<T>(l: List<T>): seq<T>
  {
    match l
    case End => []
    case Element(v, t) => [v] + Elements(t)
  }

  /** `list_length`: count down the tails; `end_element` has length 0. */
  function Length<T>(l: List<T>): (n: nat)
    ensures n == |Elements(l)|
    ensures n == 0 <==> l.End?
  {
    match l
    case End => 0
    case Element(_, t) => Length(t) + 1
  }

  /** A list is determined by its elements. */
  lemma {:induction false} ElementsInjective<T>(a: List<T>, b: List<T>)
    requires Elements(a) == Elements(b)
    ensures a == b
  {
    match a
    case End =>
    case Element(v, t) =>
      assert Elements(b)[0] == v && Elements(b)[1..] == Elements(t);
      ElementsInjective(t, b.tail);
  }

  /** `static_list<T, Ts...>::elements`: at least one element. */
  function StaticList<T>(xs: seq<T>): (l: List<T>)
    requires |xs| >= 1
    ensures Elements(l) == xs
    decreases |xs|
  {
    if |xs| == 1 then Element(xs[0], End) else Element(xs[0], StaticList(xs[1..]))
  }

  /** `make_list_from_type<N,T>`: N copies of T; the recursion stops at N = 1. */
  function MakeListFromType<T>(n: int, t: T): (l: List<T>)
    requires n >= 1
    ensures |Elements(l)| == n && forall i :: 0 <= i < n ==> Elements(l)[i] == t
    decreases n
  {
    if n == 1 then Element(t, End) else Element(t, MakeListFromType(n - 1, t))
  }

  /** `push_front<List,T>`. */
  function PushFront<T>(l: List<T>, t: T): (r: List<T>)
    ensures Elements(r) == [t] + Elements(l)
  {
    Element(t, l)
  }

  /** `push_back<List,T>`: rebuild the list with T after the last element. */
  function PushBack<T>(l: List<T>, t: T): (r: List<T>)
    ensures Elements(r) == Elements(l) + [t]
  {
    match l
    case End => Element(t, End)
    case Element(v, tl) => Element(v, PushBack(tl, t))
  }

  /** `pop_front<T>`: the tail. */
  function PopFront<T>(l: List<T>): (r: List<T>)
    requires l.Element?
    ensures Elements(r) == Elements(l)[1..]
  {
    l.tail
  }

  /** `pop_back_impl<T1,T2>`: keep T1 unless T2 is the end. */
  function PopBackImpl<T>(t1: T, t2: List<T>): (r: List<T>)
    ensures Elements(r) == ([t1] + Elements(t2))[..|Elements(t2)|]
  {
    match t2
    case End => End
    case Element(v, tl) => Element(t1, PopBackImpl(v, tl))
  }

  /** `pop_back<T>`: every element but the last. */
  function PopBack<T>(l: List<T>): (r: List<T>)
    requires l.Element?
    ensures Elements(r) == Elements(l)[..Length(l) - 1]
  {
    PopBackImpl(l.value, l.tail)
  }

  /**
   * `pi_impl<T1,I,TLength>` of `pop_int<T,N>`: TLength stays the whole list's
   * length; at I = N the element is skipped, and when N is the last index the
   * `<T1,N,N+1>` specialisation ends the list.
   */
  function PiImpl<T>(t1: List<T>, i: int, n: int, tlen: int): (r: List<T>)
    requires 0 <= i <= n < tlen && Length(t1) == tlen - i
    ensures Elements(r) == Elements(t1)[..n - i] + Elements(t1)[n - i + 1..]
    decreases n - i
  {
    if i == n then
      if tlen == n + 1 then End else Element(t1.tail.value, t1.tail.tail)
    else
      Element(t1.value, PiImpl(t1.tail, i + 1, n, tlen))
  }

  /** `pop_int<T,N>`: remove the element at index N. */
  function PopInt<T>(l: List<T>, n: int): (r: List<T>)
    requires 0 <= n < Length(l)
    ensures Elements(r) == Elements(l)[..n] + Elements(l)[n + 1..]
    ensures Length(r) == Length(l) - 1
  {
    PiImpl(l, 0, n, Length(l))
  }

  /** `lb_impl<T2,V>` of `list_back`: V is the latest element seen. */
  function LbImpl<T>(t2: List<T>, v: T): (r: T)
    ensures r == ([v] + Elements(t2))[|Elements(t2)|]
  {
    match t2
    case End => v
    case Element(w, tl) => LbImpl(tl, w)
  }

  /** `list_back<T>`: the last element. */
  function ListBack<T>(l: List<T>): (r: T)
    requires l.Element?
    ensures r == Elements(l)[Length(l) - 1]
  {
    LbImpl(l.tail, l.value)
  }

  /** `lgi_impl<T1,I>` of `list_get_int<T,N>`: walk until I reaches N. */
  function LgiImpl<T>(t1: List<T>, i: int, n: int): (r: T)
    requires 0 <= i <= n < i + Length(t1)
    ensures r == Elements(t1)[n - i]
    decreases n - i
  {
    if i == n then t1.value else LgiImpl(t1.tail, i + 1, n)
  }

  /** `list_get_int<T,N>`: the element at index N, counting from 0. */
  function ListGetInt<T>(l: List<T>, n: int): (r: T)
    requires 0 <= n < Length(l)
    ensures r == Elements(l)[n]
  {
    LgiImpl(l, 0, n)
  }

  /** Sequence reversal, the reference for `list_reverse`. */
  function Reverse<T>(s: seq<T>): (r: seq<T>)
    ensures |r| == |s| && forall k :: 0 <= k < |s| ==> r[k] == s[|s| - 1 - k]
  {
    if s == [] then [] else [s[|s| - 1]] + Reverse(s[..|s| - 1])
  }

  /**
   * `lr_impl<T2,N>` of `list_reverse`: N = 2 swaps the first two elements,
   * N = 1 returns T2, any other N puts the last element first and recurses on
   * the rest with N set to that rest's length.
   */
  function LrImpl<T>(t2: List<T>, n: int): List<T>
    requires n == 1 || Length(t2) >= 2
    decreases Length(t2)
  {
    if n == 2 then StaticList([t2.tail.value, t2.value])
    else if n == 1 then t2
    else Element(ListBack(t2), LrImpl(PopBack(t2), Length(t2) - 1))
  }

  /** `list_reverse<T>` as written: the entry call passes the tail's length. */
  function ListReverse<T>(l: List<T>): List<T>
    requires Length(l) >= 2
  {
    LrImpl(l, Length(l.tail))
  }

  /** `list_reverse<T>` with the entry call passing the list's own length. */
  function ListReverseFixed<T>(l: List<T>): List<T>
    requires Length(l) >= 1
  {
    LrImpl(l, Length(l))
  }

  /**
   * `operate<Op, Lists...>`: apply Op to the heads of all lists, then recurse
   * on the tails; the recursion ends when the FIRST list ends, so every other
   * list must be at least as long and what they have beyond is ignored.
   */
  function Operate<T(!new), U>(op: seq<T> --> U, ls: seq<List<T>>): (r: List<U>)
    requires |ls| >= 1
    requires forall k :: 0 <= k < |ls| ==> Length(ls[k]) >= Length(ls[0])
    requires forall s: seq<T> :: |s| == |ls| ==> op.requires(s)
    ensures Length(r) == Length(ls[0])
    decreases Length(ls[0])
  {
    if ls[0].End? then End
    else
      assert forall k :: 0 <= k < |ls| ==> Length(ls[k]) >= 1 && ls[k].Element?;
      Element(op(Heads(ls)), Operate(op, Tails(ls)))
  }

  /** The head of every list (`Lists::value...`). */
  function Heads<T>(ls: seq<List<T>>): (hs: seq<T>)
    requires forall k :: 0 <= k < |ls| ==> ls[k].Element?
    ensures |hs| == |ls| && forall k :: 0 <= k < |ls| ==> hs[k] == Elements(ls[k])[0]
  {
    seq(|ls|, k requires 0 <= k < |ls| => ls[k].value)
  }

  /** The tail of every list (`Lists::tail...`). */
  function Tails<T>(ls: seq<List<T>>): (ts: seq<List<T>>)
    requires forall k :: 0 <= k < |ls| ==> ls[k].Element?
    ensures |ts| == |ls| && forall k :: 0 <= k < |ls| ==> Elements(ts[k]) == Elements(ls[k])[1..]
    ensures forall k :: 0 <= k < |ls| ==> Length(ts[k]) == Length(ls[k]) - 1
  {
    seq(|ls|, k requires 0 <= k < |ls| => ls[k].tail)
  }

  /** The i-th element of every list. */
  function Column<T>(ls: seq<List<T>>, i: nat): (c: seq<T>)
    requires forall k :: 0 <= k < |ls| ==> i < Length(ls[k])
    ensures |c| == |ls| && forall k :: 0 <= k < |ls| ==> c[k] == ListGetInt(ls[k], i)
  {
    seq(|ls|, k requires 0 <= k < |ls| => ListGetInt(ls[k], i))
  }

  // ---------------------------------------------------------------------------
  // Lemmas

  /** `pop_front` undoes `push_front`. */
  lemma PopFrontPushFront<T>(l: List<T>, t: T)
    ensures PopFront(PushFront(l, t)) == l
  {
  }

  /** `pop_back` undoes `push_back`. */
  lemma PopBackPushBack<T>(l: List<T>, t: T)
    ensures PopBack(PushBack(l, t)) == l
  {
    var r := PopBack(PushBack(l, t));
    assert Elements(r) == (Elements(l) + [t])[..|Elements(l)|];
    assert Elements(r) == Elements(l);
    ElementsInjective(r, l);
  }

  /** `push_back` appends after the last element. */
  lemma PushBackLast<T>(l: List<T>, t: T)
    ensures Length(PushBack(l, t)) == Length(l) + 1
    ensures ListBack(PushBack(l, t)) == t
    ensures forall i :: 0 <= i < Length(l) ==> ListGetInt(PushBack(l, t), i) == ListGetInt(l, i)
  {
  }

  /** `pop_back` of a one-element list is `end_element`. */
  lemma PopBackSingle<T>(v: T)
    ensures PopBack(Element(v, End)) == End
  {
  }

  /** `list_back` is the element at the last index. */
  lemma ListBackIsLastIndex<T>(l: List<T>)
    requires l.Element?
    ensures ListBack(l) == ListGetInt(l, Length(l) - 1)
  {
  }

  /** Removing the last index with `pop_int` is `pop_back`. */
  lemma PopIntLastIsPopBack<T>(l: List<T>)
    requires l.Element?
    ensures PopInt(l, Length(l) - 1) == PopBack(l)
  {
    var n := Length(l) - 1;
    assert Elements(PopInt(l, n)) == Elements(l)[..n];
    ElementsInjective(PopInt(l, n), PopBack(l));
  }

  /** `operate`'s result has the first list's length, and element i is Op applied to the i-th elements. */
  lemma {:induction false} OperateAt<T(!new), U>(op: seq<T> --> U, ls: seq<List<T>>, i: nat)
    requires |ls| >= 1
    requires forall k :: 0 <= k < |ls| ==> Length(ls[k]) >= Length(ls[0])
    requires forall s: seq<T> :: |s| == |ls| ==> op.requires(s)
    requires i < Length(ls[0])
    ensures Length(Operate(op, ls)) == Length(ls[0])
    ensures Elements(Operate(op, ls))[i] == op(Column(ls, i))
    decreases i
  {
    if i == 0 {
      assert Column(ls, 0) == Heads(ls);
    } else {
      var ts := Tails(ls);
      OperateAt(op, ts, i - 1);
      assert Column(ts, i - 1) == Column(ls, i);
    }
  }

  /** `operate` elementwise, for all indices at once. */
  lemma OperateColumns<T(!new), U>(op: seq<T> --> U, ls: seq<List<T>>)
    requires |ls| >= 1
    requires forall k :: 0 <= k < |ls| ==> Length(ls[k]) >= Length(ls[0])
    requires forall s: seq<T> :: |s| == |ls| ==> op.requires(s)
    ensures Length(Operate(op, ls)) == Length(ls[0])
    ensures forall i :: 0 <= i < Length(ls[0]) ==> Elements(Operate(op, ls))[i] == op(Column(ls, i))
  {
    forall i | 0 <= i < Length(ls[0])
      ensures Elements(Operate(op, ls))[i] == op(Column(ls, i))
    {
      OperateAt(op, ls, i);
    }
  }

  /** With N set to T2's own length, `lr_impl` reverses T2. */
  lemma {:induction false} LrImplReverses<T>(t: List<T>)
    requires Length(t) >= 1
    ensures Elements(LrImpl(t, Length(t))) == Reverse(Elements(t))
    decreases Length(t)
  {
    var n := Length(t);
    if n >= 3 {
      var p := PopBack(t);
      LrImplReverses(p);
      assert Elements(p) == Elements(t)[..n - 1];
    }
  }

  /** The corrected entry point reverses every non-empty list. */
  lemma ListReverseFixedReverses<T>(l: List<T>)
    requires Length(l) >= 1
    ensures Elements(ListReverseFixed(l)) == Reverse(Elements(l))
  {
    LrImplReverses(l);
  }

  /**
   * As written, `list_reverse` reverses lists of four or more elements: from
   * the first recursive call on, N is the length of the list it is applied to.
   */
  lemma ListReverseLong<T>(l: List<T>)
    requires Length(l) >= 4
    ensures Elements(ListReverse(l)) == Reverse(Elements(l))
  {
    var n := Length(l);
    var p := PopBack(l);
    LrImplReverses(p);
    assert Elements(p) == Elements(l)[..n - 1];
  }

  /** As written, `list_reverse` returns a two-element list unchanged. */
  lemma ListReverseTwo<T>(l: List<T>)
    requires Length(l) == 2
    ensures ListReverse(l) == l
    ensures Elements(l)[0] != Elements(l)[1] ==> Elements(ListReverse(l)) != Reverse(Elements(l))
  {
  }

  /** As written, `list_reverse` of [a,b,c] is [b,a]: it swaps the first two and drops the third. */
  lemma ListReverseThree<T>(l: List<T>)
    requires Length(l) == 3
    ensures Elements(ListReverse(l)) == [Elements(l)[1], Elements(l)[0]]
    ensures Elements(ListReverse(l)) != Reverse(Elements(l))
  {
    assert Length(l.tail) == 2;
  }
}
