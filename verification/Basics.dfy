/**
 Optional values, bytes, and facts about sequences.
 */
module Basics {
  datatype Option<+T> = None | Some(value: T)

  type byte = n: nat | n < 256

  function Without<T>(s: seq<T>, i: nat): (t: seq<T>)
    requires i < |s|
    ensures |t| == |s| - 1 && forall k :: 0 <= k < |t| ==> t[k] == s[if k < i then k else k + 1]
  {
    s[..i] + s[i + 1..]
  }

  function Max(a: int, b: int): int {
    if a > b then a else b
  }

  // ----- Slices and sums -----

  lemma SliceOfSlice<T>(s: seq<T>, from: nat, to: nat, lo: nat, hi: nat)
    requires from <= to <= |s| && lo <= hi <= to - from
    ensures s[from..to][lo..hi] == s[from + lo..from + hi]
  {
    var t := s[from..to];
    forall k | 0 <= k < hi - lo
      ensures t[lo..hi][k] == s[from + lo..from + hi][k]
    {
      assert t[lo + k] == s[from + (lo + k)];
    }
  }

  lemma TailOfSlice<T>(s: seq<T>, lo: nat, hi: nat, t: seq<T>, pos: nat, at: nat)
    requires lo <= hi <= |s| && s[lo..hi] == t && pos <= |t| && at == lo + pos
    ensures at <= hi && s[at..hi] == t[pos..]
  {
    SliceOfSlice(s, lo, hi, pos, hi - lo);
    assert t[pos..hi - lo] == t[pos..];
  }

  lemma TakeSplit<T>(b: seq<T>, n: nat, k: nat)
    requires n + k <= |b|
    ensures b[..n + k] == b[..n] + b[n..][..k]
  {
  }

  lemma DropShift<T>(first: seq<T>, rest: seq<T>, lo: nat, hi: nat, from: nat, to: nat)
    requires lo <= hi <= |rest| && from == |first| + lo && to == |first| + hi
    ensures (first + rest)[from..to] == rest[lo..hi]
  {
  }

  lemma SplitSum<T>(a: seq<T>, b: seq<T>, n: nat)
    requires n == |a|
    ensures (a + b)[..n] == a && (a + b)[n..] == b
  {
  }

  lemma Regroup<T>(a: seq<T>, b: seq<T>, c: seq<T>, d: seq<T>)
    ensures a + (b + c + d) == a + b + c + d && [] + a + b == a + b
  {
  }

  lemma Bracket<T>(pre: seq<T>, x: T, data: seq<T>, post: seq<T>)
    ensures pre + ([x] + data) + post == pre + [x] + (data + post) && [] + data == data
  {
  }

  lemma Regroup5<T>(a: seq<T>, x: T, b: seq<T>, mine: seq<T>, c: seq<T>, d: seq<T>)
    ensures a + ([x] + (b + mine + c)) + d == (a + [x] + b) + mine + (c + d)
  {
  }
}
