/** Octet rotation: each resend of a fragment shifts every byte by another offset. */
module Rotation {
  import opened Prelude

  /** A cached fragment: the offset for its next send, and its data without any rotation. */
  datatype CachedFrag = CachedFrag(rotoff: byte, data: seq<byte>)

  /** `u8::wrapping_add` and `u8::wrapping_sub`. */
  function Plus(x: byte, k: byte): byte {
    if x + k < 0x100 then x + k else x + k - 0x100
  }

  function Minus(x: byte, k: byte): byte {
    if k <= x then x - k else x - k + 0x100
  }

  function Rotate(data: seq<byte>, k: byte): (r: seq<byte>)
    ensures |r| == |data|
  {
    seq(|data|, i requires 0 <= i < |data| => Plus(data[i], k))
  }

  function Unrotate(data: seq<byte>, k: byte): (r: seq<byte>)
    ensures |r| == |data|
  {
    seq(|data|, i requires 0 <= i < |data| => Minus(data[i], k))
  }

  /** Rotation adds the offset to every octet, modulo 256. */
  lemma RotateAdds(data: seq<byte>, k: byte, i: nat)
    requires i < |data|
    ensures Rotate(data, k)[i] == (data[i] + k) % 0x100
  {
  }

  lemma UnrotateRotate(data: seq<byte>, k: byte)
    ensures Unrotate(Rotate(data, k), k) == data
    ensures Rotate(Unrotate(data, k), k) == data
  {
  }

  /** The offset j sends after k: k + j modulo 256, see ShiftedValue. */
  function Shifted(k: byte, j: nat): (r: byte) {
    if j == 0 then k else Plus(Shifted(k, j - 1), 1)
  }

  lemma {:induction false} ShiftedQuotient(k: byte, j: nat) returns (q: nat)
    ensures k + j == 0x100 * q + Shifted(k, j)
  {
    if j == 0 {
      q := 0;
    } else {
      q := ShiftedQuotient(k, j - 1);
      q := if Shifted(k, j - 1) == 0xFF then q + 1 else q;
    }
  }

  lemma ShiftedValue(k: byte, j: nat)
    ensures Shifted(k, j) == (k + j) % 0x100
  {
    var q := ShiftedQuotient(k, j);
  }

  lemma {:induction false} ShiftedSum(k: byte, m: nat, n: nat)
    ensures Shifted(Shifted(k, m), n) == Shifted(k, m + n)
    decreases n
  {
    if n > 0 {
      ShiftedSum(k, m, n - 1);
    }
  }

  /** The bytes one send puts out, and the fragment afterwards: the next send uses the next offset, modulo 256. */
  function RotateOctets(f: CachedFrag): (r: (byte, seq<byte>, CachedFrag)) {
    (f.rotoff, Rotate(f.data, f.rotoff), f.(rotoff := Plus(f.rotoff, 1)))
  }

  /** What n sends of the same fragment in a row put out. */
  function Resends(f: CachedFrag, n: nat): (r: seq<(byte, seq<byte>)>)
    ensures |r| == n
    decreases n
  {
    if n == 0 then [] else
      var (k, data, f') := RotateOctets(f);
      [(k, data)] + Resends(f', n - 1)
  }

  lemma {:induction false} ResendAt(f: CachedFrag, n: nat, j: nat)
    requires j < n
    ensures Resends(f, n)[j].0 == Shifted(f.rotoff, j)
    ensures Resends(f, n)[j].1 == Rotate(f.data, Shifted(f.rotoff, j))
    decreases n
  {
    if j > 0 {
      var f' := RotateOctets(f).2;
      assert f'.rotoff == Shifted(f.rotoff, 1);
      ResendAt(f', n - 1, j - 1);
      ShiftedSum(f.rotoff, 1, j - 1);
      assert Resends(f, n)[j] == Resends(f', n - 1)[j - 1];
    }
  }

  /** The offsets whose rotation of data contains the pair (a, b). */
  ghost function BadOffsets(data: seq<byte>, a: byte, b: byte): set<byte> {
    set k: byte | 0 <= k < 0x100 && HasPair(Rotate(data, k), a, b)
  }

  /** The one offset that turns data[i] into a. */
  function OffsetFor(data: seq<byte>, a: byte, i: nat): (k: byte)
    requires i < |data|
  {
    Minus(a, data[i])
  }

  /** A pair in the rotated bytes is already in the shorter prefix, or fixes the offset. */
  lemma PairInPrefixOrLast(data: seq<byte>, k: byte, a: byte, b: byte)
    requires |data| >= 2 && HasPair(Rotate(data, k), a, b)
    ensures HasPair(Rotate(data[..|data| - 1], k), a, b) || k == OffsetFor(data, a, |data| - 2)
  {
    var i :| PairAt(Rotate(data, k), i, a, b);
    if i < |data| - 2 {
      assert PairAt(Rotate(data[..|data| - 1], k), i, a, b);
    }
  }

  lemma PairInPrefix(data: seq<byte>, k: byte, a: byte, b: byte)
    requires data != [] && HasPair(Rotate(data[..|data| - 1], k), a, b)
    ensures HasPair(Rotate(data, k), a, b)
  {
    var i :| PairAt(Rotate(data[..|data| - 1], k), i, a, b);
    assert PairAt(Rotate(data, k), i, a, b);
  }

  /** Each adjacent position rules out at most one offset, so L bytes rule out at most L - 1 of the 256. */
  lemma {:induction false} BadOffsetsBound(data: seq<byte>, a: byte, b: byte)
    requires data != []
    ensures |BadOffsets(data, a, b)| <= |data| - 1
  {
    var bad := BadOffsets(data, a, b);
    if |data| == 1 {
      assert bad == {};
    } else {
      var shorter := BadOffsets(data[..|data| - 1], a, b);
      BadOffsetsBound(data[..|data| - 1], a, b);
      var k0 := OffsetFor(data, a, |data| - 2);
      forall k | k in bad ensures k in shorter + {k0} {
        PairInPrefixOrLast(data, k, a, b);
      }
      SubsetSize(bad, shorter + {k0});
    }
  }

  /** The n offsets from start on, wrapping modulo 256. */
  ghost function OffsetWindow(start: byte, n: nat): (w: set<byte>) {
    set j | 0 <= j < n :: Shifted(start, j)
  }

  lemma {:induction false} OffsetWindowSize(start: byte, n: nat)
    requires n <= 0x100
    ensures |OffsetWindow(start, n)| == n
  {
    if n > 0 {
      OffsetWindowSize(start, n - 1);
      var last := Shifted(start, n - 1);
      forall j | 0 <= j < n - 1 ensures Shifted(start, j) != last {
        ShiftedDistinct(start, j, n - 1);
      }
      OffsetWindowGrows(start, n);
      assert last !in OffsetWindow(start, n - 1);
    }
  }

  lemma OffsetWindowGrows(start: byte, n: nat)
    requires n > 0
    ensures OffsetWindow(start, n) == OffsetWindow(start, n - 1) + {Shifted(start, n - 1)}
  {
  }

  lemma ShiftedDistinct(k: byte, i: nat, j: nat)
    requires i < j < i + 0x100
    ensures Shifted(k, i) != Shifted(k, j)
  {
    var q := ShiftedQuotient(k, i);
    var r := ShiftedQuotient(k, j);
  }

  /** Of any |data| consecutive offsets, one avoids the pair (a, b). */
  lemma SomeOffsetIsClean(data: seq<byte>, start: byte, a: byte, b: byte) returns (j: nat)
    requires 1 <= |data| <= 0x100
    ensures j < |data| && !HasPair(Rotate(data, Shifted(start, j)), a, b)
  {
    var window, bad := OffsetWindow(start, |data|), BadOffsets(data, a, b);
    BadOffsetsBound(data, a, b);
    OffsetWindowSize(start, |data|);
    if window <= bad {
      SubsetSize(window, bad);
      assert false;
    }
    var k :| k in window && k !in bad;
    j :| 0 <= j < |data| && k == Shifted(start, j);
  }

  /**
    Among as many consecutive resends as the fragment has bytes, one is free of the pair (a, b);
    and every resend unrotates to the cached data.
   */
  lemma SomeResendIsClean(f: CachedFrag, a: byte, b: byte)
    requires 1 <= |f.data| <= 0x100
    ensures exists j :: 0 <= j < |f.data| && !HasPair(Resends(f, |f.data|)[j].1, a, b)
    ensures forall j :: 0 <= j < |f.data| ==>
      Unrotate(Resends(f, |f.data|)[j].1, Resends(f, |f.data|)[j].0) == f.data
  {
    var j := SomeOffsetIsClean(f.data, f.rotoff, a, b);
    ResendAt(f, |f.data|, j);
    forall i | 0 <= i < |f.data|
      ensures Unrotate(Resends(f, |f.data|)[i].1, Resends(f, |f.data|)[i].0) == f.data
    {
      ResendAt(f, |f.data|, i);
      UnrotateRotate(f.data, Shifted(f.rotoff, i));
    }
  }

  /** The bytes 0, 47, 94, ... modulo 256: neighbours differ by C3 - 94. */
  function Stair(i: nat): byte {
    if i == 0 then 0 else Plus(Stair(i - 1), 47)
  }

  function Staircase(n: nat): (data: seq<byte>)
    ensures |data| == n
  {
    seq(n, i requires 0 <= i < n => Stair(i))
  }

  /** The bound is sharp: for every length up to 256 some data has 94 C3 in exactly L - 1 rotations. */
  lemma {:induction false} BadOffsetsBoundIsSharp(n: nat)
    requires 1 <= n <= 0x100
    ensures |BadOffsets(Staircase(n), 0x94, 0xC3)| == n - 1
  {
    BadOffsetsBound(Staircase(n), 0x94, 0xC3);
    if n > 1 {
      BadOffsetsBoundIsSharp(n - 1);
      OneMoreBadOffset(n, Minus(0x94, Stair(n - 2)));
    }
  }

  lemma OneMoreBadOffset(n: nat, k0: byte)
    requires 1 < n <= 0x100 && k0 == Minus(0x94, Stair(n - 2))
    ensures |BadOffsets(Staircase(n), 0x94, 0xC3)| >= |BadOffsets(Staircase(n - 1), 0x94, 0xC3)| + 1
  {
    var bad, shorter := BadOffsets(Staircase(n), 0x94, 0xC3), BadOffsets(Staircase(n - 1), 0x94, 0xC3);
    StaircasePair(n, n - 2);
    forall k: byte | k in shorter ensures k in bad && k != k0 {
      StairOffset(n, k);
    }
    SubsetSize(shorter + {k0}, bad);
  }

  lemma StaircasePair(n: nat, i: nat)
    requires i + 1 < n
    ensures HasPair(Rotate(Staircase(n), Minus(0x94, Stair(i))), 0x94, 0xC3)
  {
    assert Stair(i + 1) == Plus(Stair(i), 47);
    assert PairAt(Rotate(Staircase(n), Minus(0x94, Stair(i))), i, 0x94, 0xC3);
  }

  /** An offset bad for the shorter staircase stays bad, and is not the new one. */
  lemma StairOffset(n: nat, k: byte)
    requires 1 < n <= 0x100 && HasPair(Rotate(Staircase(n - 1), k), 0x94, 0xC3)
    ensures HasPair(Rotate(Staircase(n), k), 0x94, 0xC3)
    ensures k != Minus(0x94, Stair(n - 2))
  {
    assert Staircase(n - 1) == Staircase(n)[..n - 1];
    PairInPrefix(Staircase(n), k, 0x94, 0xC3);
    var i :| PairAt(Rotate(Staircase(n - 1), k), i, 0x94, 0xC3);
    assert Plus(Stair(i), k) == 0x94;
    StairsDistinct(i, n - 2);
  }

  /** 47 is invertible modulo 256, so no two of the first 256 stairs agree. */
  lemma StairsDistinct(i: nat, j: nat)
    requires i < j < 0x100
    ensures Stair(i) != Stair(j)
  {
    var q := StairQuotient(i);
    var r := StairQuotient(j);
    NoSmallMultiple(j - i, r - q);
  }

  lemma {:induction false} StairQuotient(i: nat) returns (q: nat)
    ensures 47 * i == 0x100 * q + Stair(i)
  {
    if i == 0 {
      q := 0;
    } else {
      q := StairQuotient(i - 1);
      q := if Stair(i - 1) + 47 < 0x100 then q else q + 1;
    }
  }

  lemma NoSmallMultiple(d: int, m: int)
    requires 0 < d < 0x100
    ensures 47 * d != 0x100 * m
  {
    // otherwise d == 0x100 * (207 * m - 38 * d)
  }
}
