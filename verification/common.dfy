/** Helpers shared by every part of the results service: an optional value,
    the way an Express handler ends, and the two query shapes the service
    uses everywhere (a filtered `find` and a `findOne`). */
module Common {

  datatype Option<+T> = None | Some(value: T)

  /** How a handler ends: it either passes control on with `next()`, or it
      answers at once with a status code and a message. */
  datatype Outcome = Next | Reply(status: int, message: string)

  /** The elements of `s` that satisfy `p`, in their original order: a
      `find` with a filter, or a `reduce` that pushes the matching elements. */
  function Filter<T(!new)>(s: seq<T>, p: T -> bool): (r: seq<T>)
    ensures |r| <= |s|
    ensures forall x :: x in r <==> x in s && p(x)
  {
    if s == [] then []
    else (if p(s[0]) then [s[0]] else []) + Filter(s[1..], p)
  }

  lemma {:induction false} FilterAppend<T(!new)>(s: seq<T>, t: seq<T>, p: T -> bool)
    ensures Filter(s + t, p) == Filter(s, p) + Filter(t, p)
  {
    if s != [] {
      assert (s + t)[1..] == s[1..] + t;
      FilterAppend(s[1..], t, p);
    } else {
      assert s + t == t;
    }
  }

  /** Two filters that agree on every element of `s` keep the same elements. */
  lemma {:induction false} FilterCongruent<T(!new)>(s: seq<T>, p: T -> bool, q: T -> bool)
    requires forall x :: x in s ==> p(x) == q(x)
    ensures Filter(s, p) == Filter(s, q)
  {
    if s != [] {
      FilterCongruent(s[1..], p, q);
    }
  }

  /** `f` applied to every element of `s`, in order: a `map`. */
  function Each<T, U>(s: seq<T>, f: T -> U): (r: seq<U>)
    ensures |r| == |s|
  {
    if s == [] then [] else [f(s[0])] + Each(s[1..], f)
  }

  lemma {:induction false} EachAt<T, U>(s: seq<T>, f: T -> U, i: int)
    requires 0 <= i < |s|
    ensures Each(s, f)[i] == f(s[i])
  {
    if i > 0 {
      EachAt(s[1..], f, i - 1);
    }
  }

  /** Two functions that agree on every element of `s` map it alike. */
  lemma {:induction false} EachCongruent<T, U>(s: seq<T>, f: T -> U, g: T -> U)
    requires forall x :: x in s ==> f(x) == g(x)
    ensures Each(s, f) == Each(s, g)
  {
    if s != [] {
      EachCongruent(s[1..], f, g);
    }
  }

  /** The position of the first element of `s` that satisfies `p`: what a
      `findOne` returns when the store is read in its natural order. */
  function FirstIndex<T>(s: seq<T>, p: T -> bool): (r: Option<nat>)
    ensures r.Some? ==> r.value < |s| && p(s[r.value])
    ensures r.Some? ==> forall j :: 0 <= j < r.value ==> !p(s[j])
    ensures r.None? ==> forall j :: 0 <= j < |s| ==> !p(s[j])
  {
    if s == [] then None
    else if p(s[0]) then Some(0)
    else match FirstIndex(s[1..], p)
      case None => None
      case Some(i) => Some(i + 1)
  }

  /** The first element of `s` that satisfies `p`, if there is one. */
  function FindFirst<T(!new)>(s: seq<T>, p: T -> bool): (r: Option<T>)
    ensures r.Some? ==> r.value in s && p(r.value)
    ensures r.None? <==> forall x :: x in s ==> !p(x)
  {
    match FirstIndex(s, p)
    case None => None
    case Some(i) => Some(s[i])
  }

  /** Two predicates that agree on every element of `s` find the same element. */
  lemma {:induction false} FirstIndexCongruent<T>(s: seq<T>, p: T -> bool, q: T -> bool)
    requires forall x :: x in s ==> p(x) == q(x)
    ensures FirstIndex(s, p) == FirstIndex(s, q)
  {
    if s != [] {
      FirstIndexCongruent(s[1..], p, q);
    }
  }

  /** ASCII lower-casing, the part of `toLowerCase` the service relies on. */
  function LowerChar(c: char): char
  {
    if 'A' <= c <= 'Z' then (c as int + 32) as char else c
  }

  function Lower(s: string): (r: string)
    ensures |r| == |s|
    ensures forall i :: 0 <= i < |s| ==> r[i] == LowerChar(s[i])
  {
    seq(|s|, i requires 0 <= i < |s| => LowerChar(s[i]))
  }
}
