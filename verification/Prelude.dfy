/** Shared value types: options, results, machine integers and a few sequence notions. */
module Prelude {

  datatype Option<+T> = None | Some(value: T)

  datatype Result<+T, +E> = Success(value: T) | Failure(error: E)

  type byte = b: int | 0 <= b < 0x100
  type u16 = n: int | 0 <= n < 0x1_0000
  type u32 = n: int | 0 <= n < 0x1_0000_0000
  type u64 = n: int | 0 <= n < 0x1_0000_0000_0000_0000

  /** The adjacent pair (a, b) stands at position i of s. */
  predicate PairAt(s: seq<byte>, i: int, a: byte, b: byte) {
    0 <= i < |s| - 1 && s[i] == a && s[i + 1] == b
  }

  /** Somewhere in s, b follows a immediately. */
  ghost predicate HasPair(s: seq<byte>, a: byte, b: byte) {
    exists i :: PairAt(s, i, a, b)
  }

  /** All blocks of ss, one after the other. */
  function Joined(ss: seq<seq<byte>>): (r: seq<byte>) {
    if ss == [] then [] else Joined(ss[..|ss| - 1]) + ss[|ss| - 1]
  }

  /** Elements of s that satisfy keep, in their order (Rust's `VecDeque::retain`). */
  function Retain<T(!new)>(s: seq<T>, keep: T -> bool): (r: seq<T>)
    ensures |r| <= |s|
    ensures forall x :: x in r <==> x in s && keep(x)
  {
    if s == [] then []
    else if keep(s[0]) then [s[0]] + Retain(s[1..], keep)
    else Retain(s[1..], keep)
  }

  lemma {:induction false} RetainAppend<T(!new)>(s: seq<T>, x: T, keep: T -> bool)
    ensures Retain(s + [x], keep) == if keep(x) then Retain(s, keep) + [x] else Retain(s, keep)
  {
    if s == [] {
      assert [x][1..] == [];
    } else {
      assert (s + [x])[1..] == s[1..] + [x];
      RetainAppend(s[1..], x, keep);
    }
  }

  lemma {:induction false} SubsetSize<T>(a: set<T>, b: set<T>)
    requires a <= b
    ensures |a| <= |b|
  {
    if a != {} {
      var x :| x in a;
      SubsetSize(a - {x}, b - {x});
    }
  }

  /** Every earlier element of s is related to every later one. */
  ghost predicate Pairwise<T>(s: seq<T>, rel: (T, T) -> bool) {
    forall i, j :: 0 <= i < j < |s| ==> rel(s[i], s[j])
  }

  lemma {:induction false} RetainPairwise<T(!new)>(s: seq<T>, keep: T -> bool, rel: (T, T) -> bool)
    requires Pairwise(s, rel)
    ensures Pairwise(Retain(s, keep), rel)
  {
    if s != [] {
      RetainPairwise(s[1..], keep, rel);
      var rest := Retain(s[1..], keep);
      forall x | x in rest ensures rel(s[0], x) {
        var j :| 0 <= j < |s[1..]| && s[1..][j] == x;
        assert s[j + 1] == x;
      }
    }
  }

  /** A kept element moves towards the front, never away from it. */
  lemma {:induction false} RetainPosition<T(!new)>(s: seq<T>, keep: T -> bool, k: nat)
    requires k < |s| && keep(s[k])
    ensures exists j :: 0 <= j <= k && j < |Retain(s, keep)| && Retain(s, keep)[j] == s[k]
  {
    if k > 0 {
      RetainPosition(s[1..], keep, k - 1);
      var rest := Retain(s[1..], keep);
      var j :| 0 <= j <= k - 1 && j < |rest| && rest[j] == s[1..][k - 1];
      assert Retain(s, keep)[if keep(s[0]) then j + 1 else j] == s[k];
    } else {
      assert Retain(s, keep)[0] == s[0];
    }
  }
}

/** Readings a fixed gap apart, and how many of them fit in a window. */
module Spacing {
  import opened Prelude

  /** Each later reading is at least gap past each earlier one. */
  ghost predicate Spaced(times: seq<nat>, gap: nat) {
    forall i, j :: 0 <= i < j < |times| ==> times[i] + gap <= times[j]
  }

  ghost predicate Within(times: seq<nat>, lo: nat, hi: nat) {
    forall i :: 0 <= i < |times| ==> lo <= times[i] < hi
  }

  lemma {:induction false} SpacedSpan(times: seq<nat>, gap: nat)
    requires Spaced(times, gap) && times != []
    ensures times[0] + (|times| - 1) * gap <= times[|times| - 1]
  {
    var n := |times|;
    if n > 1 {
      SpacedSpan(times[..n - 1], gap);
      assert times[n - 2] + gap <= times[n - 1];
      OneGapMore(n, gap);
    }
  }

  lemma OneGapMore(n: nat, gap: nat)
    ensures (n - 1) * gap == (n - 2) * gap + gap
  {
  }

  lemma Scaled(m: nat, n: nat, gap: nat)
    requires m <= n
    ensures m * gap <= n * gap
  {
  }

  lemma QuotientBound(q: nat, gap: nat, room: nat)
    requires gap > 0 && q * gap <= room
    ensures q <= room / gap
  {
    var r := room / gap;
    if r + 1 <= q {
      Scaled(r + 1, q, gap);
    }
  }

  /** Readings a gap apart within lo to lo + width number at most one more than the gaps that fit. */
  lemma SpacedFit(times: seq<nat>, gap: nat, lo: nat, width: nat)
    requires Spaced(times, gap) && Within(times, lo, lo + width + 1) && 0 < gap
    ensures |times| <= width / gap + 1
  {
    if times != [] {
      SpacedSpan(times, gap);
      QuotientBound(|times| - 1, gap, width);
    }
  }

  function InWindow(lo: nat, hi: nat): nat -> bool {
    (t: nat) => lo <= t < hi
  }

  ghost function Apart(gap: nat): (nat, nat) -> bool {
    (t: nat, u: nat) => t + gap <= u
  }

  /** The readings that fall in a window are as spaced as all of them. */
  lemma WindowFit(times: seq<nat>, gap: nat, lo: nat, width: nat)
    requires Spaced(times, gap) && 0 < gap
    ensures |Retain(times, InWindow(lo, lo + width + 1))| <= width / gap + 1
  {
    var hi := lo + width + 1;
    var inside := Retain(times, InWindow(lo, hi));
    assert Pairwise(times, Apart(gap));
    RetainPairwise(times, InWindow(lo, hi), Apart(gap));
    forall i, j | 0 <= i < j < |inside| ensures inside[i] + gap <= inside[j] {
      assert Apart(gap)(inside[i], inside[j]);
    }
    forall i | 0 <= i < |inside| ensures lo <= inside[i] < hi {
      assert inside[i] in inside;
    }
    SpacedFit(inside, gap, lo, width);
  }
}
