/** The byte stuffing that keeps the radio's own start marker, 94 C3, out of a packet. */
module Escape94C3 {
  import opened Prelude

  datatype UnescapeError = Truncated | InvalidCode(code: byte)

  /** How many input bytes the next code covers: both bytes of a marker, otherwise one. */
  function Width(x: seq<byte>): nat
    requires x != []
  {
    if |x| >= 2 && x[0] == 0x94 && x[1] == 0xC3 then 2 else 1
  }

  /** The code for the next one or two input bytes. */
  function Code(x: seq<byte>): seq<byte>
    requires x != []
  {
    if Width(x) == 2 then [0xEE, 0x01] else if x[0] == 0xEE then [0xEE, 0x00] else [x[0]]
  }

  function Escape(x: seq<byte>): (y: seq<byte>) {
    if x == [] then [] else Code(x) + Escape(x[Width(x)..])
  }

  function Unescape(y: seq<byte>): (r: Result<seq<byte>, UnescapeError>) {
    if y == [] then Success([])
    else if y[0] == 0xEE then
      if |y| == 1 then Failure(Truncated)
      else if y[1] == 0x00 then Prefixed([0xEE], Unescape(y[2..]))
      else if y[1] == 0x01 then Prefixed([0x94, 0xC3], Unescape(y[2..]))
      else Failure(InvalidCode(y[1]))
    else Prefixed([y[0]], Unescape(y[1..]))
  }

  function Prefixed(head: seq<byte>, rest: Result<seq<byte>, UnescapeError>): Result<seq<byte>, UnescapeError> {
    if rest.Success? then Success(head + rest.value) else rest
  }

  /** Every EE is followed by 00 or 01. */
  ghost predicate WellEscaped(y: seq<byte>) {
    forall i :: 0 <= i < |y| && y[i] == 0xEE ==> i + 1 < |y| && (y[i + 1] == 0x00 || y[i + 1] == 0x01)
  }

  function CountEE(x: seq<byte>): nat {
    if x == [] then 0 else (if x[0] == 0xEE then 1 else 0) + CountEE(x[1..])
  }

  method EscapeLoop(data: seq<byte>) returns (out: seq<byte>)
    ensures out == Escape(data)
  {
    out := [];
    var i := 0;
    assert data[0..] == data;
    while i < |data|
      invariant 0 <= i <= |data|
      invariant Escape(data) == out + Escape(data[i..])
    {
      EscapeStep(out, data, i);
      if i + 1 < |data| && data[i] == 0x94 && data[i + 1] == 0xC3 {
        out := out + [0xEE, 0x01];
        i := i + 2;
      } else if data[i] == 0xEE {
        out := out + [0xEE, 0x00];
        i := i + 1;
      } else {
        out := out + [data[i]];
        i := i + 1;
      }
    }
  }

  lemma EscapeStep(out: seq<byte>, data: seq<byte>, i: nat)
    requires i < |data|
    ensures i + Width(data[i..]) <= |data|
    ensures out + Escape(data[i..]) == (out + Code(data[i..])) + Escape(data[i + Width(data[i..])..])
  {
    var n := Width(data[i..]);
    assert data[i..][n..] == data[i + n..];
  }

  method UnescapeLoop(encoded: seq<byte>) returns (r: Result<seq<byte>, UnescapeError>)
    ensures r == Unescape(encoded)
  {
    var out: seq<byte> := [];
    var i := 0;
    assert encoded[0..] == encoded;
    PrefixedNone(Unescape(encoded));
    while i < |encoded|
      invariant 0 <= i <= |encoded|
      invariant Unescape(encoded) == Prefixed(out, Unescape(encoded[i..]))
    {
      ghost var rest := encoded[i..];
      if encoded[i] == 0xEE {
        if i + 1 >= |encoded| {
          return Failure(Truncated);
        }
        assert rest[2..] == encoded[i + 2..];
        if encoded[i + 1] == 0x00 {
          PrefixedTwice(out, [0xEE], Unescape(encoded[i + 2..]));
          out := out + [0xEE];
          i := i + 2;
        } else if encoded[i + 1] == 0x01 {
          PrefixedTwice(out, [0x94, 0xC3], Unescape(encoded[i + 2..]));
          out := out + [0x94, 0xC3];
          i := i + 2;
        } else {
          return Failure(InvalidCode(encoded[i + 1]));
        }
      } else {
        assert rest[1..] == encoded[i + 1..];
        PrefixedTwice(out, [encoded[i]], Unescape(encoded[i + 1..]));
        out := out + [encoded[i]];
        i := i + 1;
      }
    }
    assert out + [] == out;
    r := Success(out);
  }

  lemma PrefixedNone(r: Result<seq<byte>, UnescapeError>)
    ensures Prefixed([], r) == r
  {
    if r.Success? {
      assert [] + r.value == r.value;
    }
  }

  lemma PrefixedTwice(a: seq<byte>, b: seq<byte>, r: Result<seq<byte>, UnescapeError>)
    ensures Prefixed(a, Prefixed(b, r)) == Prefixed(a + b, r)
  {
    if r.Success? {
      assert a + (b + r.value) == (a + b) + r.value;
    }
  }

  /** The two codes as the radio sees them: EE 00 is an EE, EE 01 is a marker, and all else stands for itself. */
  lemma CodesOnAir(b: byte, rest: seq<byte>)
    ensures Escape([0xEE] + rest) == [0xEE, 0x00] + Escape(rest)
    ensures Escape([0x94, 0xC3] + rest) == [0xEE, 0x01] + Escape(rest)
    ensures b != 0xEE && !(b == 0x94 && rest != [] && rest[0] == 0xC3) ==> Escape([b] + rest) == [b] + Escape(rest)
  {
    assert ([0xEE] + rest)[1..] == rest && ([0x94, 0xC3] + rest)[2..] == rest && ([b] + rest)[1..] == rest;
  }

  /** A failing buffer fails at its first bad escape: cut short, or with a code other than 00 and 01. */
  lemma {:induction false} UnescapeFailsAt(good: seq<byte>, bad: seq<byte>)
    requires WellEscaped(good)
    ensures Unescape(good + [0xEE]) == Failure(Truncated)
    ensures bad != [] && bad[0] != 0x00 && bad[0] != 0x01 ==>
      Unescape(good + [0xEE] + bad) == Failure(InvalidCode(bad[0]))
  {
    if good == [] {
      assert good + [0xEE] == [0xEE] && good + [0xEE] + bad == [0xEE] + bad;
    } else {
      var n := if good[0] == 0xEE then 2 else 1;
      WellEscapedTail(good, n);
      UnescapeFailsAt(good[n..], bad);
      assert (good + [0xEE])[n..] == good[n..] + [0xEE];
      assert (good + [0xEE] + bad)[n..] == good[n..] + [0xEE] + bad;
    }
  }

  /** Decoding an encoded buffer gives the buffer back, whatever its bytes. */
  lemma {:induction false} UnescapeEscape(x: seq<byte>)
    ensures Unescape(Escape(x)) == Success(x)
  {
    if x != [] {
      var n, code := Width(x), Code(x);
      UnescapeEscape(x[n..]);
      assert Escape(x)[|code|..] == Escape(x[n..]);
      assert x[..n] == (if n == 2 then [0x94, 0xC3] else [x[0]]);
      assert x == x[..n] + x[n..];
    }
  }

  /** Only an input that starts with C3 is encoded to a buffer that starts with C3. */
  lemma EscapeFirst(x: seq<byte>)
    requires x != []
    ensures Escape(x) != [] && (Escape(x)[0] == 0xC3 <==> x[0] == 0xC3)
  {
    assert Escape(x)[0] == Code(x)[0];
  }

  /** The start marker never appears in an encoded buffer. */
  lemma {:induction false} EscapeHasNoPair(x: seq<byte>)
    ensures !HasPair(Escape(x), 0x94, 0xC3)
  {
    if x != [] {
      var y, n, code := Escape(x), Width(x), Code(x);
      var rest := Escape(x[n..]);
      EscapeHasNoPair(x[n..]);
      if x[n..] != [] { EscapeFirst(x[n..]); }
      forall i ensures !PairAt(y, i, 0x94, 0xC3) {
        if i >= |code| {
          assert y[|code|..] == rest;
          assert !PairAt(rest, i - |code|, 0x94, 0xC3);
        }
      }
    }
  }

  /** A buffer decodes exactly when each EE in it starts one of the two escape codes. */
  lemma {:induction false} UnescapeSucceedsIff(y: seq<byte>)
    ensures Unescape(y).Success? <==> WellEscaped(y)
  {
    if y != [] {
      if y[0] != 0xEE {
        UnescapeSucceedsIff(y[1..]);
        WellEscapedTail(y, 1);
      } else if |y| > 1 && (y[1] == 0x00 || y[1] == 0x01) {
        UnescapeSucceedsIff(y[2..]);
        WellEscapedTail(y, 2);
      }
    }
  }

  lemma WellEscapedTail(y: seq<byte>, n: nat)
    requires n <= |y| && (n == 1 || n == 2)
    requires n == 1 ==> y[0] != 0xEE
    requires n == 2 ==> y[0] == 0xEE && (y[1] == 0x00 || y[1] == 0x01)
    ensures WellEscaped(y) <==> WellEscaped(y[n..])
  {
    if WellEscaped(y[n..]) {
      forall i | 0 <= i < |y| && y[i] == 0xEE
        ensures i + 1 < |y| && (y[i + 1] == 0x00 || y[i + 1] == 0x01)
      {
        if i >= n {
          assert y[n..][i - n] == 0xEE;
        }
      }
    }
    if WellEscaped(y) {
      forall i | 0 <= i < |y[n..]| && y[n..][i] == 0xEE
        ensures i + 1 < |y[n..]| && (y[n..][i + 1] == 0x00 || y[n..][i + 1] == 0x01)
      {
        assert y[i + n] == 0xEE;
      }
    }
  }

  /** On a decodable buffer, encoding the decoded bytes gives the buffer back exactly when it is free of 94 C3. */
  lemma EscapeUnescapeIff(y: seq<byte>)
    requires Unescape(y).Success?
    ensures Escape(Unescape(y).value) == y <==> !HasPair(y, 0x94, 0xC3)
  {
    if HasPair(y, 0x94, 0xC3) {
      EscapeHasNoPair(Unescape(y).value);
    } else {
      EscapeUnescape(y);
    }
  }

  lemma {:induction false} EscapeUnescape(y: seq<byte>)
    requires Unescape(y).Success? && !HasPair(y, 0x94, 0xC3)
    ensures Escape(Unescape(y).value) == y
  {
    if y != [] {
      var n := if y[0] == 0xEE then 2 else 1;
      var tail := y[n..];
      forall i ensures !PairAt(tail, i, 0x94, 0xC3) {
        assert !PairAt(y, i + n, 0x94, 0xC3);
      }
      EscapeUnescape(tail);
      var x, x' := Unescape(y).value, Unescape(tail).value;
      var head := x[..|x| - |x'|];
      assert x == head + x';
      if x' != [] { EscapeFirst(x'); }
      assert !PairAt(y, 0, 0x94, 0xC3);
      assert Code(x) == y[..n] && Width(x) == |head|;
      assert x[|head|..] == x';
    }
  }

  /** The image of Escape: exactly the well-escaped buffers without the start marker. */
  lemma EscapeImage(y: seq<byte>)
    ensures (exists x :: Escape(x) == y) <==> WellEscaped(y) && !HasPair(y, 0x94, 0xC3)
  {
    UnescapeSucceedsIff(y);
    if x :| Escape(x) == y {
      UnescapeEscape(x);
      EscapeHasNoPair(x);
    }
    if WellEscaped(y) && !HasPair(y, 0x94, 0xC3) {
      EscapeUnescapeIff(y);
      assert Escape(Unescape(y).value) == y;
    }
  }

  /** Encoding costs one extra byte for each EE and nothing for a 94 C3. */
  lemma {:induction false} EscapeLength(x: seq<byte>)
    ensures |Escape(x)| == |x| + CountEE(x)
  {
    if x != [] {
      EscapeLength(x[Width(x)..]);
      if Width(x) == 2 {
        assert x[1..][1..] == x[2..];
      }
    }
  }

  /** Encoding distributes over concatenation except when the marker straddles the seam. */
  lemma EscapeConcatIff(a: seq<byte>, b: seq<byte>)
    ensures Escape(a + b) == Escape(a) + Escape(b)
       <==> !(a != [] && b != [] && a[|a| - 1] == 0x94 && b[0] == 0xC3)
  {
    if a != [] && b != [] && a[|a| - 1] == 0x94 && b[0] == 0xC3 {
      EscapeLast(a);
      EscapeFirst(b);
      assert PairAt(Escape(a) + Escape(b), |Escape(a)| - 1, 0x94, 0xC3);
      EscapeHasNoPair(a + b);
    } else {
      EscapeConcat(a, b);
    }
  }

  lemma {:induction false} EscapeConcat(a: seq<byte>, b: seq<byte>)
    requires !(a != [] && b != [] && a[|a| - 1] == 0x94 && b[0] == 0xC3)
    ensures Escape(a + b) == Escape(a) + Escape(b)
  {
    if a == [] {
      assert a + b == b;
    } else {
      var n, code := Width(a), Code(a);
      assert Width(a + b) == n && Code(a + b) == code;
      assert (a + b)[n..] == a[n..] + b;
      EscapeConcat(a[n..], b);
      assert code + (Escape(a[n..]) + Escape(b)) == (code + Escape(a[n..])) + Escape(b);
    }
  }

  lemma {:induction false} EscapeLast(a: seq<byte>)
    requires a != [] && a[|a| - 1] == 0x94
    ensures Escape(a) != [] && Escape(a)[|Escape(a)| - 1] == 0x94
  {
    if |a| > Width(a) {
      EscapeLast(a[Width(a)..]);
    }
  }
}
