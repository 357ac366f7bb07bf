/** Shared vocabulary: bytes, optional values and the trailing-run strip. */
module Prelude {

  /** One octet, as Python's `bytes` elements. */
  type byte = x: int | 0 <= x < 256

  datatype Option<+T> = None | Some(value: T) {
    function GetOr(default: T): T {
      match this
      case Some(v) => v
      case None => default
    }
  }

  /** `s` starts with `p`. */
  predicate IsPrefix<T(==)>(p: seq<T>, s: seq<T>) {
    |p| <= |s| && s[..|p|] == p
  }

  /** `a` is a prefix of `a + b`, and what follows it is `b`. */
  lemma Appended<T>(a: seq<T>, b: seq<T>)
    ensures IsPrefix(a, a + b) && (a + b)[|a|..] == b
  {
    assert (a + b)[..|a|] == a;
  }

  lemma Reassociate<T>(a: seq<T>, b: seq<T>, c: seq<T>, d: seq<T>)
    ensures a + b + c + d == a + (b + c + d)
  {
  }

  /** A prefix of `a` is a prefix of `a + b`. */
  lemma PrefixOfLonger<T>(p: seq<T>, a: seq<T>, b: seq<T>)
    requires IsPrefix(p, a)
    ensures IsPrefix(p, a + b)
  {
    assert (a + b)[..|p|] == a[..|p|];
  }

  /** Putting the same text in front keeps the prefix relation. */
  lemma PrefixAfterCommon<T>(a: seq<T>, p: seq<T>, s: seq<T>)
    requires IsPrefix(p, s)
    ensures IsPrefix(a + p, a + s)
  {
    assert (a + s)[..|a + p|] == a + s[..|p|];
  }

  /** Removes the maximal trailing run of `x` from `s` (the effect of
      `while s[-1] == x: s = s[:-1]` when it stops before emptying `s`). */
  function DropTrailing<T(==)>(s: seq<T>, x: T): (r: seq<T>)
    ensures IsPrefix(r, s)
    ensures r == [] || r[|r| - 1] != x
    ensures forall i :: |r| <= i < |s| ==> s[i] == x
    decreases |s|
  {
    if |s| > 0 && s[|s| - 1] == x then DropTrailing(s[..|s| - 1], x) else s
  }

  /** Stripping a run of `x` after a part that does not end in `x`
      leaves exactly that part. */
  lemma {:induction false} DropTrailingPadding<T>(u: seq<T>, pad: seq<T>, x: T)
    requires u == [] || u[|u| - 1] != x
    requires forall i :: 0 <= i < |pad| ==> pad[i] == x
    ensures DropTrailing(u + pad, x) == u
    decreases |pad|
  {
    if pad == [] {
      assert u + pad == u;
    } else {
      var s := u + pad;
      assert s[..|s| - 1] == u + pad[..|pad| - 1];
      DropTrailingPadding(u, pad[..|pad| - 1], x);
    }
  }
}
