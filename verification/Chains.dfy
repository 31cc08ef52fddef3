/** Following a partial successor function from a start point, and the pigeonhole bound
    on how long such a path can be when it ends. */
module Chains {
  import opened Words

  type Successor = u32 -> Option<u32>

  /** The point reached after n steps, if the path gets that far. */
  function Iter(step: Successor, first: u32, n: nat): (r: Option<u32>)
  {
    if n == 0 then Some(first)
    else
      match Iter(step, first, n - 1)
      case None => None
      case Some(c) => step(c)
  }

  /** The path has exactly n points: the last one has no successor. */
  ghost predicate EndsAfter(step: Successor, first: u32, n: nat)
  {
    n > 0 && Iter(step, first, n - 1).Some? && Iter(step, first, n) == None
  }

  lemma {:induction false} IterPrefix(step: Successor, first: u32, m: nat, n: nat)
    requires m <= n && Iter(step, first, n).Some?
    ensures Iter(step, first, m).Some?
  {
    if m < n {
      IterPrefix(step, first, m, n - 1);
    }
  }

  lemma {:induction false} IterShift(step: Successor, first: u32, m: nat, n: nat)
    requires Iter(step, first, m).Some?
    ensures Iter(step, first, m + n) == Iter(step, Iter(step, first, m).value, n)
  {
    if n > 0 {
      IterShift(step, first, m, n - 1);
    }
  }

  /** A path that ends does not visit a point twice. */
  lemma EndingIsInjective(step: Successor, first: u32, n: nat, i: nat, j: nat)
    requires EndsAfter(step, first, n) && i < j < n
    ensures Iter(step, first, i).Some? && Iter(step, first, i) != Iter(step, first, j)
  {
    IterPrefix(step, first, i, n - 1);
    IterPrefix(step, first, j, n - 1);
    if Iter(step, first, i) == Iter(step, first, j) {
      IterShift(step, first, i, n - j);
      IterShift(step, first, j, n - j);
      IterPrefix(step, first, i + (n - j), n - 1);
    }
  }

  /** n distinct numbers of an interval fit in the interval. */
  lemma {:induction false} Pigeonhole(s: seq<u32>, lo: int, hi: int)
    requires lo <= hi && forall i :: 0 <= i < |s| ==> lo <= s[i] < hi
    requires forall i, j :: 0 <= i < j < |s| ==> s[i] != s[j]
    ensures |s| <= hi - lo
    decreases hi - lo
  {
    if |s| > 0 {
      assert lo <= s[0] < hi;
    }
    if lo == hi {
    } else if i :| 0 <= i < |s| && s[i] == hi - 1 {
      Pigeonhole(s[..i] + s[i + 1..], lo, hi - 1);
    } else {
      Pigeonhole(s, lo, hi - 1);
    }
  }

  ghost function Path(step: Successor, first: u32, n: nat): (r: seq<u32>)
    requires n > 0 ==> Iter(step, first, n - 1).Some?
    ensures |r| == n && forall i :: 0 <= i < n ==> Iter(step, first, i) == Some(r[i])
  {
    if n == 0 then []
    else
      IterPrefix(step, first, if n > 1 then n - 2 else 0, n - 1);
      Path(step, first, n - 1) + [Iter(step, first, n - 1).value]
  }

  /** A path that ends is no longer than the interval its points lie in. */
  lemma EndingIsShort(step: Successor, first: u32, n: nat, lo: int, hi: int)
    requires EndsAfter(step, first, n) && lo <= hi
    requires forall i :: 0 <= i < n && Iter(step, first, i).Some? ==> lo <= Iter(step, first, i).value < hi
    ensures n <= hi - lo
  {
    var s := Path(step, first, n);
    forall i, j | 0 <= i < j < n
      ensures s[i] != s[j]
    {
      EndingIsInjective(step, first, n, i, j);
    }
    Pigeonhole(s, lo, hi);
  }
}
