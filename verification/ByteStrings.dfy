/** Byte strings, the byte constants the other modules name, and the sequence facts they share. */
module ByteStrings {

  type Byte = b: int | 0 <= b < 256

  type Bytes = seq<Byte>

  datatype Option<+T> = None | Some(value: T)

  const QUOTE: Byte := 0x22
  const COMMA: Byte := 0x2C
  const MINUS: Byte := 0x2D
  const COLON: Byte := 0x3A
  const OPEN: Byte := 0x5B // [
  const BACKSLASH: Byte := 0x5C
  const CLOSE: Byte := 0x5D // ]
  const UNDERSCORE: Byte := 0x5F
  const OPEN_BRACE: Byte := 0x7B
  const CLOSE_BRACE: Byte := 0x7D

  predicate IsUpper(b: Byte) { 0x41 <= b <= 0x5A }

  predicate IsDigit(b: Byte) { 0x30 <= b <= 0x39 }

  predicate AllUpper(s: Bytes) { forall i | 0 <= i < |s| :: IsUpper(s[i]) }

  predicate AllDigits(s: Bytes) { forall i | 0 <= i < |s| :: IsDigit(s[i]) }

  lemma Associate<T>(a: seq<T>, b: seq<T>, c: seq<T>)
    ensures a + (b + c) == a + b + c
  {
  }

  /** The concatenation of a list of chunks. */
  function Concat<T>(chunks: seq<seq<T>>): seq<T> {
    if chunks == [] then [] else chunks[0] + Concat(chunks[1..])
  }

  lemma {:induction false} ConcatMore<T>(chunks: seq<seq<T>>, last: seq<T>)
    ensures Concat(chunks + [last]) == Concat(chunks) + last
  {
    if chunks == [] {
      assert [last][1..] == [];
      assert Concat([last]) == last + [];
    } else {
      assert (chunks + [last])[1..] == chunks[1..] + [last];
      ConcatMore(chunks[1..], last);
    }
  }

  /** What a function makes of the elements of a list, one after the other. */
  function Gathered<T, S>(at: T -> seq<S>, xs: seq<T>): seq<S> {
    if xs == [] then [] else at(xs[0]) + Gathered(at, xs[1..])
  }

  lemma {:induction false} InGathered<T, S>(at: T -> seq<S>, xs: seq<T>, y: S)
    ensures y in Gathered(at, xs) <==> exists x :: x in xs && y in at(x)
  {
    if xs == [] {
    } else {
      InGathered(at, xs[1..], y);
      assert xs == [xs[0]] + xs[1..];
    }
  }

  lemma {:induction false} GatheredAppend<T, S>(at: T -> seq<S>, a: seq<T>, b: seq<T>)
    ensures Gathered(at, a + b) == Gathered(at, a) + Gathered(at, b)
  {
    if a == [] {
      assert a + b == b;
    } else {
      assert (a + b)[0] == a[0] && (a + b)[1..] == a[1..] + b;
      GatheredAppend(at, a[1..], b);
    }
  }

  lemma GatheredNext<T, S>(at: T -> seq<S>, xs: seq<T>, i: nat)
    requires i < |xs|
    ensures Gathered(at, xs[..i + 1]) == Gathered(at, xs[..i]) + at(xs[i])
  {
    assert xs[..i + 1] == xs[..i] + [xs[i]];
    GatheredAppend(at, xs[..i], [xs[i]]);
    assert [xs[i]][1..] == [];
  }
}
