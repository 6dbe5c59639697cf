/** Shared vocabulary: optional values and the three array/string operations
    the client code leans on (`Array.prototype.findIndex`, `Array.prototype.filter`
    and `String.prototype.split(c)[0]`). */
module Common {

  /** A value that may be absent (`T | undefined` / `T | null` in the client). */
  datatype Option<+T> = None | Some(value: T) {

    /** The value, or a default when absent (`x ?? d`, `x || d`). */
    function GetOr(default: T): T {
      match this
      case Some(v) => v
      case None => default
    }
  }

  /** `s.findIndex(p)`: the index of the first element satisfying `p`, absent
      when there is none (the client sees -1 then). */
  function FirstIndex<T>(s: seq<T>, p: T -> bool): (r: Option<nat>)
    ensures r.Some? ==> r.value < |s| && p(s[r.value])
    ensures r.Some? ==> forall j :: 0 <= j < r.value ==> !p(s[j])
    ensures r.None? <==> forall j :: 0 <= j < |s| ==> !p(s[j])
  {
    if |s| == 0 then None
    else if p(s[0]) then Some(0)
    else
      match FirstIndex(s[1..], p)
      case None => None
      case Some(i) => Some(i + 1)
  }

  /** `s.filter(keep)`: the elements of `s` that satisfy `keep`, in their original order. */
  function Filter<T(!new)>(s: seq<T>, keep: T -> bool): (r: seq<T>)
    ensures |r| <= |s|
    ensures forall x :: x in r <==> x in s && keep(x)
  {
    if |s| == 0 then []
    else if keep(s[0]) then [s[0]] + Filter(s[1..], keep)
    else Filter(s[1..], keep)
  }

  /** Filtering distributes over concatenation: the kept elements keep their relative order. */
  lemma {:induction false} FilterAppend<T(!new)>(a: seq<T>, b: seq<T>, keep: T -> bool)
    ensures Filter(a + b, keep) == Filter(a, keep) + Filter(b, keep)
  {
    if |a| == 0 {
      assert a + b == b;
    } else {
      assert (a + b)[1..] == a[1..] + b;
      FilterAppend(a[1..], b, keep);
    }
  }

  /** A filter that keeps every element is the identity. */
  lemma {:induction false} FilterKeepsAll<T(!new)>(s: seq<T>, keep: T -> bool)
    requires forall x :: x in s ==> keep(x)
    ensures Filter(s, keep) == s
  {
    if |s| > 0 {
      assert forall x :: x in s[1..] ==> x in s;
      FilterKeepsAll(s[1..], keep);
      assert [s[0]] + s[1..] == s;
    }
  }

  /** When exactly one position fails `keep`, filtering removes that position
      and nothing else. */
  lemma {:induction false} FilterDropsOne<T(!new)>(s: seq<T>, keep: T -> bool, k: nat)
    requires k < |s| && !keep(s[k])
    requires forall j :: 0 <= j < |s| && j != k ==> keep(s[j])
    ensures Filter(s, keep) == s[..k] + s[k + 1..]
    ensures |Filter(s, keep)| == |s| - 1
  {
    var a, m, b := s[..k], [s[k]], s[k + 1..];
    assert s == a + m + b;
    FilterAppend(a + m, b, keep);
    FilterAppend(a, m, keep);
    assert Filter(m, keep) == [] by {
      assert m[1..] == [];
    }
    assert forall i :: 0 <= i < |a| ==> a[i] == s[i];
    assert forall i :: 0 <= i < |b| ==> b[i] == s[k + 1 + i];
    FilterKeepsAll(a, keep);
    FilterKeepsAll(b, keep);
  }

  /** `s.split(c)[0]`: the text of `s` before the first occurrence of `c`,
      or all of `s` when `c` does not occur. */
  function BeforeFirst(s: string, c: char): (r: string)
    ensures r <= s
    ensures c !in r
    ensures |r| < |s| ==> s[|r|] == c
  {
    if |s| == 0 || s[0] == c then ""
    else [s[0]] + BeforeFirst(s[1..], c)
  }

  /** The three properties of `BeforeFirst` pin its result down: any prefix
      without `c` that ends at `c` or at the end of `s` is that result. */
  lemma {:induction false} BeforeFirstUnique(s: string, c: char, p: string)
    requires p <= s
    requires c !in p
    requires |p| < |s| ==> s[|p|] == c
    ensures p == BeforeFirst(s, c)
  {
    if |s| == 0 {
    } else if s[0] == c {
    } else {
      assert |p| > 0;
      assert p[0] == s[0];
      BeforeFirstUnique(s[1..], c, p[1..]);
      assert p == [p[0]] + p[1..];
    }
  }
}
