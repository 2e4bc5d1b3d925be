/**
 The runes as code points: the byte sequences taken for runes are exactly the encodings of
 the Unicode scalar values, by the table in section 3 of RFC 3629.
 */
module CodePoints {
  import opened ByteStrings
  import opened Utf8

  predicate IsScalar(c: nat) { c < 0xD800 || 0xE000 <= c < 0x11_0000 }

  /** The bytes of six, twelve or eighteen bits after the lead. */
  function Trail(c: nat): Byte { 0x80 + c % 0x40 }

  function EncodeScalar(c: nat): Bytes
    requires IsScalar(c)
  {
    if c < 0x80 then [c]
    else if c < 0x800 then [0xC0 + c / 0x40, Trail(c)]
    else if c < 0x1_0000 then [0xE0 + c / 0x1000, Trail(c / 0x40), Trail(c)]
    else [0xF0 + c / 0x4_0000, Trail(c / 0x1000), Trail(c / 0x40), Trail(c)]
  }

  /** The code point that a lead's bits and its trail bytes make up. */
  function Join(high: nat, trail: Byte): nat
    requires IsTrail(trail)
  {
    high * 0x40 + (trail - 0x80)
  }

  lemma JoinSplits(high: nat, trail: Byte)
    requires IsTrail(trail)
    ensures Join(high, trail) / 0x40 == high && Trail(Join(high, trail)) == trail
  {
  }

  lemma ScalarIsRune(c: nat)
    requires IsScalar(c)
    ensures IsRune(EncodeScalar(c))
  {
    assert Sequence(EncodeScalar(c), |EncodeScalar(c)|);
    RuneLenIs(EncodeScalar(c), |EncodeScalar(c)|);
  }

  ghost predicate Encodes(c: nat, r: Bytes) { IsScalar(c) && EncodeScalar(c) == r }

  lemma DecodedTwo(r: Bytes) returns (c: nat)
    requires |r| == 2 && Sequence(r, 2)
    ensures Encodes(c, r)
  {
    c := Join(r[0] - 0xC0, r[1]);
    JoinSplits(r[0] - 0xC0, r[1]);
    assert EncodeScalar(c) == [r[0], r[1]];
  }

  lemma DecodedThree(r: Bytes) returns (c: nat)
    requires |r| == 3 && Sequence(r, 3)
    ensures Encodes(c, r)
  {
    var m := Join(r[0] - 0xE0, r[1]);
    c := Join(m, r[2]);
    JoinSplits(r[0] - 0xE0, r[1]);
    JoinSplits(m, r[2]);
    assert c / 0x1000 == m / 0x40;
    assert EncodeScalar(c) == [r[0], r[1], r[2]];
  }

  lemma DecodedFour(r: Bytes) returns (c: nat)
    requires |r| == 4 && Sequence(r, 4)
    ensures Encodes(c, r)
  {
    var l := Join(r[0] - 0xF0, r[1]);
    var m := Join(l, r[2]);
    c := Join(m, r[3]);
    JoinSplits(r[0] - 0xF0, r[1]);
    JoinSplits(l, r[2]);
    JoinSplits(m, r[3]);
    assert c / 0x1000 == l && c / 0x4_0000 == l / 0x40;
    assert EncodeScalar(c) == [r[0], r[1], r[2], r[3]];
  }

  lemma DecodedOne(r: Bytes)
    requires |r| == 1 && Sequence(r, 1)
    ensures Encodes(r[0], r)
  {
  }

  /** Every rune encodes a scalar value. */
  lemma RuneIsScalar(r: Rune) returns (c: nat)
    ensures Encodes(c, r)
  {
    RuneBytes(r);
    match |r|
    case 1 =>
      DecodedOne(r);
      c := r[0];
    case 2 => c := DecodedTwo(r);
    case 3 => c := DecodedThree(r);
    case _ => c := DecodedFour(r);
  }

  /** Neither overlong forms nor surrogates are runes, and nothing else is missing. */
  lemma RunesAreScalars(r: Bytes)
    ensures IsRune(r) <==> exists c: nat :: Encodes(c, r)
  {
    if IsRune(r) {
      var c := RuneIsScalar(r);
    }
    if c: nat :| Encodes(c, r) {
      ScalarIsRune(c);
    }
  }
}
