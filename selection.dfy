/**
 * List comprehensions shared by the cleaning passes: `MapSeq` applies a function to every
 * element, and order-preserving selection keeps some elements of a list and drops the
 * rest: `Somes` is what such a loop leaves, `SomePositions` where it came from.
 */
module Selection {
  import opened Wrappers

  /** `[f(x) for x in s]`. */
  function MapSeq<A, B>(f: A -> B, s: seq<A>): (r: seq<B>)
    ensures |r| == |s| && forall i :: 0 <= i < |s| ==> r[i] == f(s[i])
  {
    seq(|s|, i requires 0 <= i < |s| => f(s[i]))
  }

  lemma MapSeqAppend<A, B>(f: A -> B, a: seq<A>, b: seq<A>)
    ensures MapSeq(f, a + b) == MapSeq(f, a) + MapSeq(f, b)
  {
  }

  lemma MapSeqFront<A, B>(f: A -> B, s: seq<A>)
    requires s != []
    ensures MapSeq(f, s[..|s| - 1]) == MapSeq(f, s)[..|s| - 1]
  {
  }

  /** The kept values of `os`, in order. */
  function Somes<T>(os: seq<Option<T>>): seq<T>
    decreases |os|
  {
    if os == [] then []
    else Somes(os[..|os| - 1]) + (if os[|os| - 1].Some? then [os[|os| - 1].value] else [])
  }

  /** One step of a loop that replaces the elements of a list, left to right, by their images under `f`. */
  lemma ReplaceStep<A>(f: A -> A, words: seq<A>, items: seq<A>, i: nat)
    requires i < |words| == |items|
    requires forall j :: 0 <= j < i ==> words[j] == f(items[j])
    requires forall j :: i <= j < |words| ==> words[j] == items[j]
    ensures forall j :: 0 <= j < i + 1 ==> words[i := f(words[i])][j] == f(items[j])
    ensures forall j :: i + 1 <= j < |words| ==> words[i := f(words[i])][j] == items[j]
  {
  }

  /** The value an option holds, as a list of none or one. */
  function OptionList<T>(o: Option<T>): seq<T> {
    if o.Some? then [o.value] else []
  }

  lemma SomesSnoc<T>(os: seq<Option<T>>)
    requires os != []
    ensures Somes(os) == Somes(os[..|os| - 1]) + OptionList(os[|os| - 1])
  {
  }

  /** The positions of the kept values of `os`. */
  function SomePositions<T>(os: seq<Option<T>>): seq<nat>
    decreases |os|
  {
    if os == [] then []
    else SomePositions(os[..|os| - 1]) + (if os[|os| - 1].Some? then [|os| - 1] else [])
  }

  /** The k-th kept value sits at the k-th position. */
  lemma {:induction false} SomePositionsMatch<T>(os: seq<Option<T>>)
    ensures |SomePositions(os)| == |Somes(os)|
    ensures forall k :: 0 <= k < |SomePositions(os)| ==>
              SomePositions(os)[k] < |os| && os[SomePositions(os)[k]] == Some(Somes(os)[k])
    decreases |os|
  {
    if os != [] {
      var front := os[..|os| - 1];
      SomePositionsMatch(front);
      assert forall i :: 0 <= i < |front| ==> os[i] == front[i];
    }
  }

  /** The positions increase, so the kept values keep their order and none is taken twice. */
  lemma {:induction false} SomePositionsOrdered<T>(os: seq<Option<T>>)
    ensures forall k :: 0 <= k < |SomePositions(os)| ==> SomePositions(os)[k] < |os|
    ensures forall k, l :: 0 <= k < l < |SomePositions(os)| ==> SomePositions(os)[k] < SomePositions(os)[l]
    decreases |os|
  {
    if os != [] {
      SomePositionsOrdered(os[..|os| - 1]);
    }
  }

  /** No kept value is missed. */
  lemma {:induction false} SomePositionsComplete<T>(os: seq<Option<T>>)
    ensures forall i :: 0 <= i < |os| && os[i].Some? ==> i in SomePositions(os)
    decreases |os|
  {
    if os != [] {
      var front := os[..|os| - 1];
      SomePositionsComplete(front);
      assert forall i :: 0 <= i < |front| ==> os[i] == front[i];
    }
  }

  /** Selecting from two lists one after the other is selecting from their concatenation. */
  lemma {:induction false} SomesAppend<T>(a: seq<Option<T>>, b: seq<Option<T>>)
    ensures Somes(a + b) == Somes(a) + Somes(b)
    decreases |b|
  {
    if b == [] {
      assert a + b == a;
    } else {
      var b0 := b[..|b| - 1];
      SomesAppend(a, b0);
      assert (a + b)[..|a + b| - 1] == a + b0;
      assert (a + b)[|a + b| - 1] == b[|b| - 1];
    }
  }
}
