/**
 Numbers in archive headers: digits in a field of fixed width, with spaces around them.
 */
module ElfArchiveNumbers {
  import opened Basics

  const SPACE: byte := 0x20
  const ZERO: byte := 0x30

  predicate IsDigit(c: byte, base: nat) {
    c >= ZERO && c - ZERO < base
  }

  predicate Spaces(s: seq<byte>, lo: nat, hi: nat) {
    forall i {:trigger s[i]} :: lo <= i < hi && i < |s| ==> s[i] == SPACE
  }

  predicate Digits(s: seq<byte>, lo: nat, hi: nat, base: nat) {
    forall i {:trigger s[i]} :: lo <= i < hi && i < |s| ==> IsDigit(s[i], base)
  }

  /** The characters from `lo` to `hi` are digits, all others spaces. */
  predicate IsField(s: seq<byte>, base: nat, lo: nat, hi: nat) {
    lo <= hi <= |s| && Spaces(s, 0, lo) && Digits(s, lo, hi, base) && Spaces(s, hi, |s|)
  }

  function Value(s: seq<byte>, lo: nat, hi: nat, base: nat): nat
    requires lo <= hi <= |s| && Digits(s, lo, hi, base)
    decreases hi
  {
    if lo == hi then 0 else base * Value(s, lo, hi - 1, base) + (s[hi - 1] - ZERO)
  }

  /** A field has one value: where there are digits, they are the same ones. */
  lemma FieldHasOneValue(s: seq<byte>, base: nat, lo: nat, hi: nat, lo': nat, hi': nat)
    requires IsField(s, base, lo, hi) && IsField(s, base, lo', hi')
    ensures Value(s, lo, hi, base) == Value(s, lo', hi', base)
  {
    if lo < hi {
      assert s[lo] != SPACE && s[hi - 1] != SPACE;
      assert lo' <= lo && hi <= hi';
    }
    if lo' < hi' {
      assert s[lo'] != SPACE && s[hi' - 1] != SPACE;
      assert lo <= lo' && hi' <= hi;
    }
  }

  /** Reads a field. It is refused exactly if there is anything but digits with spaces around them. */
  method GetNum(str: seq<byte>, base: nat) returns (result: nat, err: bool)
    ensures err <==> forall lo: nat, hi: nat :: !IsField(str, base, lo, hi)
    ensures forall lo: nat, hi: nat :: IsField(str, base, lo, hi) ==> result == Value(str, lo, hi, base)
  {
    var pos := 0;
    result := 0;
    while pos < |str| && str[pos] == SPACE
      invariant pos <= |str| && Spaces(str, 0, pos)
    {
      pos := pos + 1;
    }
    ghost var from := pos;
    while pos < |str| && IsDigit(str[pos], base)
      invariant from <= pos <= |str| && Digits(str, from, pos, base)
      invariant result == Value(str, from, pos, base)
    {
      result := base * result + (str[pos] - ZERO);
      pos := pos + 1;
    }
    ghost var to := pos;
    while pos < |str| && str[pos] == SPACE
      invariant to <= pos <= |str| && Spaces(str, to, pos)
    {
      pos := pos + 1;
    }
    err := pos < |str|;
    if err {
      StuckInside(str, base, from, to, pos);
    } else {
      assert IsField(str, base, from, to);
      forall lo: nat, hi: nat | IsField(str, base, lo, hi)
        ensures result == Value(str, lo, hi, base)
      {
        FieldHasOneValue(str, base, lo, hi, from, to);
      }
    }
  }

  /** Behind spaces, digits and spaces there is something else: no way to cut the field is right. */
  lemma StuckInside(s: seq<byte>, base: nat, from: nat, to: nat, pos: nat)
    requires from <= to <= pos < |s|
    requires Spaces(s, 0, from) && Digits(s, from, to, base) && Spaces(s, to, pos) && s[pos] != SPACE
    requires from == to ==> from == pos
    requires to == pos ==> !IsDigit(s[pos], base)
    ensures forall lo: nat, hi: nat :: !IsField(s, base, lo, hi)
  {
    if to < pos {
      assert s[from] != SPACE && s[to] == SPACE && !IsDigit(s[to], base);
    }
  }

  // ----- Written fields -----

  function Show(n: nat, base: nat): (s: seq<byte>)
    requires 2 <= base <= 10
    ensures s != [] && Digits(s, 0, |s|, base)
  {
    if n < base then [ZERO + n] else Show(n / base, base) + [ZERO + n % base]
  }

  function Blank(n: nat): seq<byte> {
    seq(n, _ => SPACE)
  }

  lemma {:induction false} ValueMoved(s: seq<byte>, lo: nat, hi: nat, t: seq<byte>, base: nat)
    requires lo + |t| == hi <= |s| && Digits(t, 0, |t|, base)
    requires forall i {:trigger t[i]} :: 0 <= i < |t| ==> s[lo + i] == t[i]
    ensures Digits(s, lo, hi, base) && Value(s, lo, hi, base) == Value(t, 0, |t|, base)
    decreases |t|
  {
    assert forall i {:trigger s[i]} :: lo <= i < hi ==> s[i] == t[i - lo];
    if t != [] {
      var init := t[..|t| - 1];
      ValueMoved(s, lo, hi - 1, init, base);
      ValueMoved(t, 0, |t| - 1, init, base);
    }
  }

  lemma {:induction false} ShownValue(n: nat, base: nat)
    requires 2 <= base <= 10
    ensures Value(Show(n, base), 0, |Show(n, base)|, base) == n
  {
    if n < base {
      OneDigit(n, base);
    } else {
      var q, d := n / base, n % base;
      assert n == q * base + d;
      ShownValue(q, base);
      ShownLast(Show(q, base), q, d, base, n);
    }
  }

  lemma OneDigit(d: nat, base: nat)
    requires d < base <= 10
    ensures Digits([ZERO + d], 0, 1, base) && Value([ZERO + d], 0, 1, base) == d
  {
    var s := [ZERO + d];
    assert Value(s, 0, 0, base) == 0;
    assert s[0] == ZERO + d;
  }

  lemma ShownLast(init: seq<byte>, q: nat, d: nat, base: nat, n: nat)
    requires d < base <= 10 && n == q * base + d && Digits(init, 0, |init|, base) && Value(init, 0, |init|, base) == q
    ensures var s := init + [ZERO + d]; Digits(s, 0, |s|, base) && Value(s, 0, |s|, base) == n
  {
    var s := init + [ZERO + d];
    ValueMoved(s, 0, |init|, init, base);
    assert s[|s| - 1] == ZERO + d;
  }

  /** Whatever spaces are put around the digits of a number, the field is accepted and has that number. */
  lemma FieldRoundTrip(n: nat, base: nat, before: nat, after: nat)
    requires 2 <= base <= 10
    ensures var s, hi := Blank(before) + Show(n, base) + Blank(after), before + |Show(n, base)|;
            IsField(s, base, before, hi) && Value(s, before, hi, base) == n
  {
    var t := Show(n, base);
    var s, hi := Blank(before) + t + Blank(after), before + |t|;
    ShownValue(n, base);
    ValueMoved(s, before, hi, t, base);
  }
}
