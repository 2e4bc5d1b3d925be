/**
 The model's findings as spans: character offsets become byte offsets, labels become token
 kinds, and whatever does not fit the text is dropped.
 */
module ModelSpans {
  import opened ByteStrings
  import opened Utf8
  import opened Spans
  import opened Dictionary

  /** One finding, with its position counted in characters. */
  datatype Entity = Entity(entity: Bytes, tag: Bytes, start: int, end: int)

  // ---------------------------------------------------------------- offsets

  function Offsets(text: seq<Rune>): seq<nat> {
    seq(|text| + 1, k requires 0 <= k <= |text| => Off(text, k))
  }

  /** The characters before byte i have been listed; the rest of the text are the characters from k on. */
  ghost predicate Listed(text: Bytes, t: seq<Rune>, i: nat, k: nat) {
    k <= |t| && i <= |text| && Valid(text[i..]) && Runes(text[i..]) == t[k..] && i == Off(t, k)
  }

  lemma ListedStep(text: Bytes, t: seq<Rune>, i: nat, k: nat, n: nat)
    requires Listed(text, t, i, k) && i < |text| && n == RuneLen(text[i..])
    ensures 0 < n && k < |t| && Listed(text, t, i + n, k + 1)
  {
    HeadOf(text, i, n);
    assert t[k..][0] == t[k] && t[k..][1..] == t[k + 1..];
  }

  lemma ListedStarts(text: Bytes)
    requires Valid(text)
    ensures Listed(text, Runes(text), 0, 0)
  {
    assert text[0..] == text && Runes(text)[..0] == [] && Runes(text)[0..] == Runes(text);
  }

  lemma ListedEnds(text: Bytes, t: seq<Rune>, k: nat)
    requires Listed(text, t, |text|, k)
    ensures k == |t|
  {
    assert text[|text|..] == [];
  }

  ghost predicate Offset(t: seq<Rune>, offsets: seq<int>) {
    |offsets| <= |t| + 1 && forall k | 0 <= k < |offsets| :: offsets[k] == Off(t, k)
  }

  lemma OffsetOnce(t: seq<Rune>, offsets: seq<int>, i: int)
    requires Offset(t, offsets) && |offsets| <= |t| && i == Off(t, |offsets|)
    ensures Offset(t, offsets + [i])
  {
  }

  /** So far, the offsets of the characters before byte i have been collected. */
  ghost predicate Collected(text: Bytes, t: seq<Rune>, i: nat, offsets: seq<int>) {
    Listed(text, t, i, |offsets|) && Offset(t, offsets)
  }

  lemma CollectedOnce(text: Bytes, t: seq<Rune>, i: nat, offsets: seq<int>, n: nat)
    requires Collected(text, t, i, offsets) && i < |text| && n == RuneLen(text[i..])
    ensures 0 < n && i + n <= |text| && Collected(text, t, i + n, offsets + [i])
  {
    ListedStep(text, t, i, |offsets|, n);
    OffsetOnce(t, offsets, i);
  }

  lemma CollectedAll(text: Bytes, t: seq<Rune>, offsets: seq<int>)
    requires Collected(text, t, |text|, offsets)
    ensures offsets + [|text|] == Offsets(t)
  {
    ListedEnds(text, t, |offsets|);
    OffsetOnce(t, offsets, |text|);
  }

  /** The offset of every character, and of the end. */
  method RuneOffsets(text: Bytes) returns (offsets: seq<int>)
    requires Valid(text)
    ensures offsets == Offsets(Runes(text))
  {
    ghost var t := Runes(text);
    offsets := [];
    var i := 0;
    ListedStarts(text);
    while i < |text|
      invariant i <= |text| && Collected(text, t, i, offsets)
      decreases |text| - i
    {
      var n := RuneLen(text[i..]);
      CollectedOnce(text, t, i, offsets, n);
      offsets := offsets + [i];
      i := i + n;
    }
    CollectedAll(text, t, offsets);
    offsets := offsets + [|text|];
  }

  /** A character range as a byte range; anything outside the text or backwards is refused. */
  function ByteRange(offsets: seq<int>, start: int, end: int): Option<(int, int)> {
    if start < 0 || end <= start || end > |offsets| - 1 then None else Some((offsets[start], offsets[end]))
  }

  /** The byte range holds exactly the characters asked for, and there is one exactly for ranges within the text. */
  lemma ByteRangeExact(text: Bytes, start: int, end: int)
    requires Valid(text)
    ensures ByteRange(Offsets(Runes(text)), start, end).Some? <==> 0 <= start < end <= |Runes(text)|
    ensures 0 <= start < end <= |Runes(text)| ==>
              var (a, b) := ByteRange(Offsets(Runes(text)), start, end).value;
              && 0 <= a < b <= |text| && text[a..b] == Encode(Runes(text)[start..end])
              && Valid(text[..a]) && Valid(text[..b])
  {
    EncodeRunes(text);
    if 0 <= start < end <= |Runes(text)| {
      SliceCuts(Runes(text), start, end);
    }
  }

  // ---------------------------------------------------------------- labels

  /** The capital letters of a label, in order. */
  function Letters(s: Bytes): Bytes {
    if s == [] then [] else Letters(s[..|s| - 1]) + if IsUpper(s[|s| - 1]) then [s[|s| - 1]] else []
  }

  lemma {:induction false} LettersAppend(a: Bytes, b: Bytes)
    ensures Letters(a + b) == Letters(a) + Letters(b)
  {
    if b == [] {
      assert a + b == a;
    } else {
      LettersAppend(a, b[..|b| - 1]);
      assert (a + b)[..|a + b| - 1] == a + b[..|b| - 1];
    }
  }

  lemma {:induction false} LettersUpper(s: Bytes)
    ensures AllUpper(Letters(s))
    ensures (forall i | 0 <= i < |s| :: !IsUpper(s[i])) ==> Letters(s) == []
  {
    if s == [] {
    } else {
      LettersUpper(s[..|s| - 1]);
    }
  }

  /** A rune contributes its byte when it is a capital letter, and nothing otherwise. */
  lemma LettersStep(s: Bytes, i: nat, n: nat)
    requires i < |s| && n == (if RuneLen(s[i..]) == 0 then 1 else RuneLen(s[i..]))
    ensures i + n <= |s|
    ensures Letters(s[..i + n]) == Letters(s[..i]) + if n == 1 && IsUpper(s[i]) then [s[i]] else []
  {
    var r := s[i..i + n];
    assert s[..i + n] == s[..i] + r;
    LettersAppend(s[..i], r);
    if n == 1 {
      assert r == [s[i]] && r[..0] == [];
    } else {
      RuneBytes(s[i..]);
      assert forall k | 0 <= k < n :: r[k] == s[i..][k];
      LettersUpper(r);
    }
  }

  /** The label after strings.ToUpper, reduced rune by rune to the alphabet a kind may use. */
  method SanitizeLabel(upper: Bytes) returns (kind: Bytes)
    ensures kind == Letters(upper) && AllUpper(kind)
  {
    kind := [];
    var i := 0;
    while i < |upper|
      invariant 0 <= i <= |upper| && kind == Letters(upper[..i])
      decreases |upper| - i
    {
      var n := if RuneLen(upper[i..]) == 0 then 1 else RuneLen(upper[i..]);
      LettersStep(upper, i, n);
      if n == 1 && IsUpper(upper[i]) {
        kind := kind + [upper[i]];
      }
      i := i + n;
    }
    assert upper[..i] == upper;
    LettersUpper(upper);
  }

  // ---------------------------------------------------------------- filtering

  /** Upper-casing, and the test for a bare word of prose. */
  datatype LabelRules = LabelRules(toUpper: Bytes -> Bytes, prose: Bytes -> bool)

  const SECRET: Bytes := [0x53, 0x45, 0x43, 0x52, 0x45, 0x54]

  /** The text found agrees with the finding, whose label gives a kind that suits it. */
  predicate Suits(rules: LabelRules, got: Bytes, e: Entity) {
    var kind := Letters(rules.toUpper(e.tag));
    && kind != []
    && (e.entity == [] || got == e.entity)
    && !((kind == PASSWORD || kind == SECRET) && rules.prose(got))
  }

  /** What becomes of one finding. */
  function Accept(rules: LabelRules, text: Bytes, offsets: seq<int>, e: Entity): Option<Span> {
    match ByteRange(offsets, e.start, e.end)
    case None => None
    case Some((a, b)) =>
      if 0 <= a <= b <= |text| && Suits(rules, text[a..b], e)
      then Some(Span(a, b, Letters(rules.toUpper(e.tag))))
      else None
  }

  function Accepted(rules: LabelRules, text: Bytes, offsets: seq<int>): Entity -> seq<Span> {
    (e: Entity) => match Accept(rules, text, offsets, e) case Some(s) => [s] case None => []
  }

  /** What becomes of the findings, one after the other. */
  function AcceptAll(rules: LabelRules, text: Bytes, offsets: seq<int>, es: seq<Entity>): seq<Span> {
    Gathered(Accepted(rules, text, offsets), es)
  }

  method CollectML(rules: LabelRules, text: Bytes, entities: seq<Entity>) returns (spans: seq<Span>)
    requires Valid(text)
    ensures spans == AcceptAll(rules, text, Offsets(Runes(text)), entities)
  {
    var offsets := RuneOffsets(text);
    spans := [];
    for i := 0 to |entities|
      invariant spans == AcceptAll(rules, text, offsets, entities[..i])
    {
      var ent := entities[i];
      GatheredNext(Accepted(rules, text, offsets), entities, i);
      ByteRangeExact(text, ent.start, ent.end);
      var range := ByteRange(offsets, ent.start, ent.end);
      if range.None? {
        continue;
      }
      var (start, end) := range.value;
      var kind := SanitizeLabel(rules.toUpper(ent.tag));
      if kind == [] {
        continue;
      }
      var got := text[start..end];
      if ent.entity != [] && got != ent.entity {
        continue;
      }
      if (kind == PASSWORD || kind == SECRET) && rules.prose(got) {
        continue;
      }
      spans := spans + [Span(start, end, kind)];
    }
    assert entities[..|entities|] == entities;
  }

  /**
   The finding names characters of the text, and these are the ones it quotes, if it quotes
   any; its label leaves a kind; and under a credential's kind they are not a bare word of prose.
   */
  ghost predicate Usable(rules: LabelRules, text: seq<Rune>, e: Entity) {
    && 0 <= e.start < e.end <= |text|
    && var got, kind := Encode(text[e.start..e.end]), Letters(rules.toUpper(e.tag));
       && (e.entity != [] ==> e.entity == got)
       && kind != []
       && (kind in {PASSWORD, SECRET} ==> !rules.prose(got))
  }

  lemma UsableMeans(rules: LabelRules, text: seq<Rune>, e: Entity)
    requires 0 <= e.start < e.end <= |text|
    ensures Usable(rules, text, e) <==> Suits(rules, Encode(text[e.start..e.end]), e)
  {
  }

  /** The span is what the finding says: the bytes of the characters it names, with its label's kind. */
  ghost predicate SpanFor(rules: LabelRules, text: Bytes, a: int, b: int, e: Entity, s: Span) {
    && s.start == a && s.end == b && s.kind == Letters(rules.toUpper(e.tag))
    && Proper(s, |text|) && CutsRunes(text, s)
  }

  lemma AcceptAt(rules: LabelRules, text: Bytes, offsets: seq<int>, e: Entity, a: int, b: int)
    requires ByteRange(offsets, e.start, e.end) == Some((a, b)) && 0 <= a < b <= |text|
    requires Valid(text[..a]) && Valid(text[..b])
    ensures var r := Accept(rules, text, offsets, e);
            && (r.Some? <==> Suits(rules, text[a..b], e))
            && (r.Some? ==> SpanFor(rules, text, a, b, e, r.value))
  {
    var kind := Letters(rules.toUpper(e.tag));
    LettersUpper(rules.toUpper(e.tag));
    RangeCuts(text, a, b, kind);
  }

  /** Untrusted findings are accepted exactly when they are usable, over the bytes of the characters they name. */
  lemma AcceptExact(rules: LabelRules, text: Bytes, e: Entity)
    requires Valid(text)
    ensures var r, t := Accept(rules, text, Offsets(Runes(text)), e), Runes(text);
            && (r.Some? <==> Usable(rules, t, e))
            && (r.Some? ==> && SpanFor(rules, text, Off(t, e.start), Off(t, e.end), e, r.value)
                            && text[r.value.start..r.value.end] == Encode(t[e.start..e.end]))
  {
    var t := Runes(text);
    ByteRangeExact(text, e.start, e.end);
    if 0 <= e.start < e.end <= |t| {
      var (a, b) := ByteRange(Offsets(t), e.start, e.end).value;
      AcceptAt(rules, text, Offsets(t), e, a, b);
      UsableMeans(rules, t, e);
    }
  }

  lemma RangeCuts(text: Bytes, a: int, b: int, kind: Bytes)
    requires 0 <= a < b <= |text| && Valid(text[..a]) && Valid(text[..b])
    ensures CutsRunes(text, Span(a, b, kind))
  {
    assert text[..b] == text[..a] + text[a..b];
    ValidRest(text[..a], text[a..b]);
  }

  /** So whatever the model replies, the spans that reach the sweep are proper and end between runes. */
  lemma ModelSpansFit(rules: LabelRules, text: Bytes, es: seq<Entity>)
    requires Valid(text)
    ensures forall s | s in AcceptAll(rules, text, Offsets(Runes(text)), es) :: Proper(s, |text|) && CutsRunes(text, s)
  {
    forall s | s in AcceptAll(rules, text, Offsets(Runes(text)), es)
      ensures Proper(s, |text|) && CutsRunes(text, s)
    {
      AcceptAllHas(rules, text, Offsets(Runes(text)), es, s);
      var e :| e in es && Accept(rules, text, Offsets(Runes(text)), e) == Some(s);
      AcceptExact(rules, text, e);
    }
  }

  /** A span is accepted exactly when some finding gives it. */
  lemma AcceptAllHas(rules: LabelRules, text: Bytes, offsets: seq<int>, es: seq<Entity>, s: Span)
    ensures s in AcceptAll(rules, text, offsets, es)
        <==> exists e :: e in es && Accept(rules, text, offsets, e) == Some(s)
  {
    InGathered(Accepted(rules, text, offsets), es, s);
    forall e
      ensures s in Accepted(rules, text, offsets)(e) <==> Accept(rules, text, offsets, e) == Some(s)
    {
    }
  }

  /** The findings are taken one after the other. */
  lemma AcceptAllAppend(rules: LabelRules, text: Bytes, offsets: seq<int>, a: seq<Entity>, b: seq<Entity>)
    ensures AcceptAll(rules, text, offsets, a + b)
         == AcceptAll(rules, text, offsets, a) + AcceptAll(rules, text, offsets, b)
  {
    GatheredAppend(Accepted(rules, text, offsets), a, b);
  }
}
