/** A byte in front of the encoding of a list never makes the encoding of a list
    that starts with a string. */
module RlpPrefix {
  import opened Rlp

  lemma {:induction false} SameNumber(a: Bytes, b: Bytes)
    requires |a| == |b| && FromBigEndian(a) == FromBigEndian(b)
    ensures a == b
  {
    if a != [] {
      var n := |a| - 1;
      SameNumber(a[..n], b[..n]);
      assert a == a[..n] + [a[n]] && b == b[..n] + [b[n]];
    }
  }

  /** Bytes that are their own shift by `h` are all `h`. */
  lemma {:induction false} OwnShift(b: Bytes, h: Byte)
    requires b != [] && b == [h] + b[..|b| - 1]
    ensures b[|b| - 1] == h
  {
    var n := |b| - 1;
    if n > 0 {
      assert b[..n] == [h] + b[..n][..n - 1];
      OwnShift(b[..n], h);
      assert b[n] == b[n - 1];
    }
  }

  /** If shifting the bytes of a number by `h` gives the number after it, the
      number ends in the byte before `h` or in the largest byte. */
  lemma ShiftedSuccessor(b: Bytes, c: Bytes, h: Byte)
    requires |b| == |c| > 0 && b == [h] + c[..|c| - 1]
    requires FromBigEndian(b) == FromBigEndian(c) + 1
    ensures c[|c| - 1] == 255 || c[|c| - 1] == h - 1
  {
    var n := |b| - 1;
    if c[n] != 255 {
      SameNumber(b[..n], c[..n]);
      OwnShift(b, h);
    }
  }

  lemma {:induction false} LongerIsLarger(m: nat, n: nat)
    requires m <= n
    ensures |ToBigEndian(m)| <= |ToBigEndian(n)|
  {
    if m != 0 {
      LongerIsLarger(m / 256, n / 256);
    }
  }

  lemma StringStart(s: Bytes)
    requires |s| < LENGTH_LIMIT
    ensures Encode(Str(s)) != [] && Encode(Str(s))[0] < 0xc0
  {
    LengthOfLength(|s|);
  }

  /** Two long lists, one a byte longer than the other: if they are the same bytes
      but for that byte, the payload of the longer starts like a list. */
  lemma LongLists(t: Byte, x: Bytes, y: Bytes)
    requires 55 < |x| < LENGTH_LIMIT && 55 < |y| < LENGTH_LIMIT
    requires [t] + (Header(0xc0, |x|) + x) == Header(0xc0, |y|) + y
    ensures y[0] >= 0xc0
  {
    var lenX, lenY := ToBigEndian(|x|), ToBigEndian(|y|);
    LengthOfLength(|x|);
    LengthOfLength(|y|);
    var whole := [t] + (([0xf7 + |lenX|] + lenX) + x);
    assert whole == ([0xf7 + |lenY|] + lenY) + y;
    if |lenX| < |lenY| {
      LongerIsLarger(|y|, |x|);
    } else if |lenY| < |lenX| {
      LongerIsLarger(|x|, |y|);
    }
    var n := |lenX|;
    assert |lenY| == n && |y| == |x| + 1;
    assert lenY == whole[1..1 + n] == [0xf7 + n] + lenX[..n - 1];
    BigEndianRoundTrip(|x|);
    BigEndianRoundTrip(|y|);
    ShiftedSuccessor(lenY, lenX, 0xf7 + n);
    assert y[0] == whole[1 + n] == lenX[n - 1];
  }

  lemma ByteBeforeList(t: Byte, a: seq<Item>, b: seq<Item>)
    requires Encodable(List(a)) && Encodable(List(b))
    requires b != [] && b[0].Str?
    ensures [t] + Encode(List(a)) != Encode(List(b))
  {
    var x, y := EncodeAll(a), EncodeAll(b);
    var whole := [t] + Encode(List(a));
    if whole == Encode(List(b)) {
      assert Encodable(b[0]);
      StringStart(b[0].bytes);
      assert y[0] == Encode(b[0])[0];
      ListStart(a);
      assert whole[1] >= 0xc0;
      if |y| > 55 {
        LengthOfLength(|y|);
        if |x| > 55 {
          LongLists(t, x, y);
        }
      }
    }
  }
}
