/** JavaScript text: sequences of UTF-16 code units, and the code points they spell. */
module Utf16 {

  /** A code unit or a code point; which one a text holds is said where it is used. */
  type Text = seq<nat>

  predicate Lead(unit: nat) { 0xD800 <= unit < 0xDC00 }

  predicate Trail(unit: nat) { 0xDC00 <= unit < 0xE000 }

  /** A code point that is a character on its own: in range, and no surrogate. */
  predicate Scalar(point: nat) { point < 0x110000 && !Lead(point) && !Trail(point) }

  predicate Scalars(points: Text) { forall p <- points :: Scalar(p) }

  /** `String.fromCodePoint(point)`. */
  function EncodePoint(point: nat): (units: Text)
    ensures |units| == if point < 0x1_0000 then 1 else 2
    ensures point < 0x1_0000 ==> units == [point]
  {
    if point < 0x1_0000 then [point]
    else [0xD800 + (point - 0x1_0000) / 0x400, 0xDC00 + (point - 0x1_0000) % 0x400]
  }

  /** The code units a text of code points is stored as. */
  function Encode(points: Text): Text {
    if points == [] then [] else EncodePoint(points[0]) + Encode(points[1..])
  }

  /** `[...units]`: the code points of a string; an unpaired surrogate stands for itself. */
  function Points(units: Text): Text {
    if units == [] then []
    else if |units| > 1 && Lead(units[0]) && Trail(units[1]) then
      [0x1_0000 + (units[0] - 0xD800) * 0x400 + (units[1] - 0xDC00)] + Points(units[2..])
    else
      [units[0]] + Points(units[1..])
  }

  lemma EncodePointPair(point: nat)
    requires Scalar(point) && point >= 0x1_0000
    ensures var u := EncodePoint(point);
            Lead(u[0]) && Trail(u[1]) && point == 0x1_0000 + (u[0] - 0xD800) * 0x400 + (u[1] - 0xDC00)
  {
  }

  /** Storing characters as units loses nothing: spreading the string gives them back. */
  lemma {:induction false} PointsOfEncode(points: Text)
    requires Scalars(points)
    ensures Points(Encode(points)) == points
  {
    if points == [] {
    } else {
      var u, rest := EncodePoint(points[0]), Encode(points[1..]);
      PointsOfEncode(points[1..]);
      assert points[0] in points && Encode(points) == u + rest;
      if points[0] < 0x1_0000 {
        assert (u + rest)[1..] == rest;
      } else {
        EncodePointPair(points[0]);
        assert (u + rest)[2..] == rest;
      }
    }
  }

  lemma EncodeStep(s: Text)
    ensures s == [] ==> Encode(s) == []
    ensures s != [] ==> Encode(s) == EncodePoint(s[0]) + Encode(s[1..])
  {
    hide EncodePoint;
  }

  lemma EncodeOne(point: nat)
    ensures Encode([point]) == EncodePoint(point)
  {
    hide EncodePoint;
    assert [point][1..] == [];
  }

  lemma Associate(a: Text, b: Text, c: Text)
    ensures a + b + c == a + (b + c)
  {
  }

  lemma {:induction false} EncodeConcat(a: Text, b: Text)
    ensures Encode(a + b) == Encode(a) + Encode(b)
  {
    hide EncodePoint, Encode;
    EncodeStep(a);
    EncodeStep(a + b);
    if a == [] {
      assert a + b == b && [] + Encode(b) == Encode(b);
    } else {
      EncodeConcat(a[1..], b);
      assert (a + b)[1..] == a[1..] + b;
      Associate(EncodePoint(a[0]), Encode(a[1..]), Encode(b));
    }
  }

  /** A prefix of the characters is a prefix of the stored units. */
  lemma EncodePrefix(a: Text, b: Text)
    requires a <= b
    ensures Encode(a) <= Encode(b)
  {
    assert b == a + b[|a|..];
    EncodeConcat(a, b[|a|..]);
  }
}
