/** What the order tests of two symbols mean: the order of numbers if both are numbers, and otherwise
    the lexicographic order of their strings. */
module ComparisonLaws {
  import opened Common
  import opened KconfigSyntax

  /** a comes before b: it is a proper beginning of b, or smaller where they first differ. */
  ghost predicate Before(a: string, b: string) {
    exists k: nat :: SplitsAt(a, b, k)
  }

  ghost predicate SplitsAt(a: string, b: string, k: nat) {
    k <= |a| && k < |b| && a[..k] == b[..k] && (k == |a| || a[k] < b[k])
  }

  lemma {:induction false} StrcmpIsOrder(a: string, b: string)
    ensures Strcmp(a, b) < 0 <==> Before(a, b)
    ensures Strcmp(a, b) > 0 <==> Before(b, a)
  {
    if a == [] || b == [] || a[0] != b[0] {
      assert Strcmp(a, b) < 0 ==> SplitsAt(a, b, 0);
      assert Strcmp(a, b) > 0 ==> SplitsAt(b, a, 0);
      if k: nat :| SplitsAt(a, b, k) && k > 0 { SameFront(a, b, k); }
      if k: nat :| SplitsAt(b, a, k) && k > 0 { SameFront(b, a, k); }
    } else {
      StrcmpIsOrder(a[1..], b[1..]);
      BeforeTail(a, b);
      BeforeTail(b, a);
    }
  }

  lemma SameFront(a: string, b: string, k: nat)
    requires SplitsAt(a, b, k) && k > 0
    ensures a != [] && b != [] && a[0] == b[0]
  {
    assert a[..k][0] == b[..k][0];
  }

  lemma BeforeTail(a: string, b: string)
    requires a != [] && b != [] && a[0] == b[0]
    ensures Before(a, b) <==> Before(a[1..], b[1..])
  {
    if k: nat :| SplitsAt(a, b, k) {
      assert k > 0;
      assert a[1..][..k - 1] == a[..k][1..] && b[1..][..k - 1] == b[..k][1..];
      assert SplitsAt(a[1..], b[1..], k - 1);
    }
    if k: nat :| SplitsAt(a[1..], b[1..], k) {
      assert a[..k + 1] == [a[0]] + a[1..][..k] && b[..k + 1] == [b[0]] + b[1..][..k];
      assert SplitsAt(a, b, k + 1);
    }
  }

  /** The six tests, for any order in which two things are related in just one of three ways. */
  ghost predicate Follows(v: Valuation, a: Symbol, b: Symbol, less: bool, equal: bool, greater: bool) {
    && (Eval(v, Comp(Eq, a, b)) == YES <==> equal) && (Eval(v, Comp(Ne, a, b)) == YES <==> !equal)
    && (Eval(v, Comp(Lt, a, b)) == YES <==> less) && (Eval(v, Comp(Ge, a, b)) == YES <==> !less)
    && (Eval(v, Comp(Gt, a, b)) == YES <==> greater) && (Eval(v, Comp(Le, a, b)) == YES <==> !greater)
  }

  /** The string of the symbol is a number, in the base of its type; bool and tristate symbols are none. */
  ghost predicate IsNumber(v: Valuation, s: Symbol, x: int) {
    !s.HasTri() && v.number(s.Type(), v.str(s)) == Some(x)
  }

  /** The numbers that strtoll gives, or strtoull for a hex symbol. */
  predicate Fits(s: Symbol, x: int) {
    if s.Type().Hex? then 0 <= x < TWO_TO_64 else -TWO_TO_64 / 2 <= x < TWO_TO_64 / 2
  }

  /** Numbers are in their own order; but next to a hex symbol, a negative one counts as 2^64 more. */
  lemma NumbersAreOrdered(v: Valuation, a: Symbol, b: Symbol, x: int, y: int)
    requires IsNumber(v, a, x) && IsNumber(v, b, y) && !(a.Type().Str? && b.Type().Str?) && Fits(a, x) && Fits(b, y)
    ensures var unsigned := a.Type().Hex? || b.Type().Hex?;
            var (m, n) := (if unsigned && x < 0 then x + TWO_TO_64 else x, if unsigned && y < 0 then y + TWO_TO_64 else y);
            Follows(v, a, b, m < n, m == n, n < m)
  {
  }

  /** Everything else is in the order of the strings. */
  lemma OthersAreTexts(v: Valuation, a: Symbol, b: Symbol)
    requires (a.Type().Str? && b.Type().Str?) || (forall x :: !IsNumber(v, a, x)) || (forall x :: !IsNumber(v, b, x))
    ensures Follows(v, a, b, Before(v.str(a), v.str(b)), v.str(a) == v.str(b), Before(v.str(b), v.str(a)))
  {
    StrcmpIsOrder(v.str(a), v.str(b));
    assert a.HasTri() || v.number(a.Type(), v.str(a)).None? || IsNumber(v, a, v.number(a.Type(), v.str(a)).value);
    assert b.HasTri() || v.number(b.Type(), v.str(b)).None? || IsNumber(v, b, v.number(b.Type(), v.str(b)).value);
    assert Compare(v, a, b) == Strcmp(v.str(a), v.str(b));
  }
}
