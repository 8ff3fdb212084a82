/** Notions shared by the models of the different components. */
module Common {

  datatype Option<+T> = None | Some(value: T)

  ghost predicate NoDup<T>(s: seq<T>) { forall i, j :: 0 <= i < j < |s| ==> s[i] != s[j] }

  lemma Associative<T>(a: seq<T>, b: seq<T>, c: seq<T>)
    ensures a + (b + c) == a + b + c
  {
  }

  lemma EmptySum<T>(s: seq<T>)
    ensures [] + s == s && s + [] == s
  {
  }

  ghost function Elements<T>(s: seq<T>): set<T> { set x | x in s }

  lemma ElementsConcat<T>(s: seq<T>, t: seq<T>)
    ensures Elements(s + t) == Elements(s) + Elements(t)
  {
  }

  lemma {:induction false} DistinctSize<T>(s: seq<T>)
    requires NoDup(s)
    ensures |Elements(s)| == |s|
  {
    if s != [] {
      var (front, last) := (s[..|s| - 1], s[|s| - 1]);
      DistinctSize(front);
      assert s == front + [last];
      ElementsConcat(front, [last]);
      assert Elements([last]) == {last} && last !in Elements(front);
    }
  }

  function Upto(n: nat): (r: set<nat>)
    ensures |r| == n && forall b: nat :: b in r <==> b < n
  {
    if n == 0 then {} else Upto(n - 1) + {n - 1}
  }

  lemma SetsFit<T>(a: set<T>, b: set<T>)
    requires a <= b
    ensures |a| <= |b|
  {
    assert b == a + (b - a);
  }

  /** There are at most n different numbers below n. */
  lemma FewDistinct(s: seq<nat>, n: nat)
    requires NoDup(s) && forall i :: 0 <= i < |s| ==> s[i] < n
    ensures |s| <= n
  {
    DistinctSize(s);
    SetsFit(Elements(s), Upto(n));
  }

  /** A character of a C string, or the terminator behind it. */
  function CharAt(s: string, i: nat): char { if i < |s| then s[i] else '\0' }

  /** Where x is first in s. */
  function Position<T(==)>(s: seq<T>, x: T): (i: nat)
    requires x in s
    ensures i < |s| && s[i] == x && x !in s[..i]
  {
    if s[0] == x then 0 else 1 + Position(s[1..], x)
  }
}
