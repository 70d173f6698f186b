/** `memcpy` into arrays, and what is left of the array around the bytes copied. */
module Memory {

  /** `b` with the bytes from `at` on overwritten by `s`. */
  function Overwrite<T>(b: seq<T>, at: nat, s: seq<T>): (r: seq<T>)
    requires at + |s| <= |b|
    ensures |r| == |b|
  {
    b[..at] + s + b[at + |s|..]
  }

  lemma OverwriteNothing<T>(b: seq<T>, at: nat)
    requires at <= |b|
    ensures Overwrite(b, at, []) == b
  {
  }

  /** Writing on behind what was written is one longer write. */
  lemma OverwriteExtends<T>(b: seq<T>, at: nat, s: seq<T>, t: seq<T>)
    requires at + |s| + |t| <= |b|
    ensures Overwrite(Overwrite(b, at, s), at + |s|, t) == Overwrite(b, at, s + t)
  {
  }

  lemma OverwriteHolds<T>(b: seq<T>, at: nat, s: seq<T>)
    requires at + |s| <= |b|
    ensures Overwrite(b, at, s)[at..at + |s|] == s
    ensures Overwrite(b, at, s)[..at] == b[..at] && Overwrite(b, at, s)[at + |s|..] == b[at + |s|..]
  {
  }

  lemma ArraySlice<T>(a: array<T>, from: nat, to: nat)
    requires from <= to <= a.Length
    ensures a[from..to] == a[..][from..to] && a[..to] == a[..][..to] && a[from..] == a[..][from..]
  {
  }

  /** Copies a string of values into an array. */
  method Put<T>(to: array<T>, at: nat, s: seq<T>)
    requires at + |s| <= to.Length
    modifies to
    ensures to[..] == Overwrite(old(to[..]), at, s)
  {
    forall i | 0 <= i < |s| {
      to[at + i] := s[i];
    }
  }

  /** Copies a stretch of one array into another. */
  method Copy<T>(to: array<T>, at: nat, from: array<T>, start: nat, len: nat)
    requires to != from
    requires at + len <= to.Length && start + len <= from.Length
    modifies to
    ensures to[..] == Overwrite(old(to[..]), at, from[start..start + len])
  {
    forall i | 0 <= i < len {
      to[at + i] := from[start + i];
    }
  }
}
