/**
 The detectors put together: the patterns, the dictionary and the model's filtered findings.
 What masking and restoring ask of the detectors is what these three give.
 */
module Engine {
  import opened ByteStrings
  import opened Utf8
  import opened Spans
  import opened Sessions
  import opened WholeWords
  import opened Dictionary
  import opened ModelSpans
  import opened Masking
  import opened Coverage
  import opened JsonTree
  import opened JsonRestore
  import opened RoundTrip
  import opened EndToEnd

  /**
   What the engine consults: the patterns, the dictionary and the indices of the words the
   matcher finds in a text, and the model, which may be unavailable for a text.
   */
  datatype Sources = Sources(
    patterns: Bytes -> seq<Span>,
    u: Tables<Rune>, dict: seq<Bytes>, matched: Bytes -> seq<nat>,
    rules: LabelRules, model: Bytes -> Option<seq<Entity>>,
    secretKey: Bytes -> bool)

  /** The patterns report spans within the text, between runes and with kinds the grammar can carry. */
  ghost predicate PatternsFit(patterns: Bytes -> seq<Span>) {
    && (forall text {:trigger patterns(text)} :: AllProper(patterns(text), |text|))
    && forall text {:trigger patterns(text)} | Valid(text) :: AllCut(text, patterns(text))
  }

  ghost predicate AllCut(text: Bytes, spans: seq<Span>) { forall s | s in spans :: CutsRunes(text, s) }

  ghost predicate IndicesOf(dict: seq<Bytes>, matched: seq<nat>) {
    forall i | 0 <= i < |matched| :: matched[i] < |dict|
  }

  ghost predicate SourcesFit(src: Sources) {
    && PatternsFit(src.patterns) && IsDictionary(src.dict)
    && forall text :: IndicesOf(src.dict, src.matched(text))
  }

  ghost function Sure(src: Sources, text: Bytes): seq<Span>
    requires SourcesFit(src)
  {
    assert IndicesOf(src.dict, src.matched(text));
    src.patterns(text)
    + if Valid(text) then ReportedAll(src.u, Runes(text), WordsOf(src.dict, src.matched(text))) else []
  }

  ghost function Guess(src: Sources, text: Bytes): seq<Span> {
    match src.model(text)
    case None => []
    case Some(found) => if Valid(text) then AcceptAll(src.rules, text, Offsets(Runes(text)), found) else []
  }

  ghost function DetectorsOf(src: Sources): Detectors
    requires SourcesFit(src)
  {
    Detectors((text: Bytes) => Sure(src, text), (text: Bytes) => Guess(src, text), src.secretKey)
  }

  lemma DictionarySpansFit(u: Tables<Rune>, text: seq<Rune>, words: seq<seq<Rune>>)
    ensures forall s | s in ReportedAll(u, text, words) ::
              Proper(s, |Encode(text)|) && CutsRunes(Encode(text), s) && s.kind == CUSTOM
  {
    forall s | s in ReportedAll(u, text, words)
      ensures Proper(s, |Encode(text)|) && CutsRunes(Encode(text), s) && s.kind == CUSTOM
    {
      ReportedAllHas(u, text, words, s);
      var w :| w in words && w != [] && s in Reported(u, text, w);
      ReportedSpansAreWords(u, text, w, s);
    }
  }

  lemma SureFits(src: Sources, text: Bytes, s: Span)
    requires SourcesFit(src) && s in Sure(src, text)
    ensures Proper(s, |text|) && (Valid(text) ==> CutsRunes(text, s))
    ensures s in src.patterns(text) || s.kind == CUSTOM
  {
    if s in src.patterns(text) {
      assert AllProper(src.patterns(text), |text|) && (Valid(text) ==> AllCut(text, src.patterns(text)));
    } else {
      EncodeRunes(text);
      DictionarySpansFit(src.u, Runes(text), WordsOf(src.dict, src.matched(text)));
    }
  }

  lemma GuessFits(src: Sources, text: Bytes, s: Span)
    requires s in Guess(src, text)
    ensures Proper(s, |text|) && CutsRunes(text, s)
  {
    ModelSpansFit(src.rules, text, src.model(text).value);
  }

  /** So the round trips hold for the engine, whatever the matcher finds and the model replies. */
  lemma DetectorsFit(src: Sources)
    requires SourcesFit(src)
    ensures InRange(DetectorsOf(src)) && OnRunes(DetectorsOf(src))
  {
    forall text
      ensures AllProper(Sure(src, text), |text|) && AllProper(Guess(src, text), |text|)
      ensures Valid(text) ==> CutsAtRunes(text, Sure(src, text)) && CutsAtRunes(text, Guess(src, text))
    {
      forall s | s in Sure(src, text) ensures Proper(s, |text|) && (Valid(text) ==> CutsRunes(text, s)) {
        SureFits(src, text, s);
      }
      forall s | s in Guess(src, text) ensures Proper(s, |text|) && CutsRunes(text, s) {
        GuessFits(src, text, s);
      }
    }
  }

  // ---------------------------------------------------------------- the engine's methods

  /** The deterministic tier: the patterns, then the dictionary. */
  method Collect(src: Sources, text: Bytes) returns (spans: seq<Span>)
    requires SourcesFit(src) && Valid(text)
    ensures spans == Sure(src, text)
  {
    spans := src.patterns(text);
    assert IndicesOf(src.dict, src.matched(text));
    var custom := CollectCustom(src.u, text, src.dict, src.matched(text));
    spans := spans + custom;
  }

  /** The model tier; an unavailable model reports nothing. */
  method CollectGuesses(src: Sources, text: Bytes) returns (spans: seq<Span>)
    requires Valid(text)
    ensures spans == Guess(src, text)
  {
    var reply := src.model(text);
    if reply.None? {
      return [];
    }
    spans := CollectML(src.rules, text, reply.value);
  }

  /** Masking a text with both tiers is what the round trips are about. */
  method MaskText(src: Sources, text: Bytes, sess: Session) returns (masked: Bytes)
    requires SourcesFit(src) && Valid(text)
    modifies sess
    ensures masked == MaskedText(MarkText(DetectorsOf(src), text, old(sess.State())).0)
    ensures sess.State() == MarkText(DetectorsOf(src), text, old(sess.State())).1
  {
    DetectorsFit(src);
    var sure := Collect(src, text);
    var guess := CollectGuesses(src, text);
    assert DetectorsOf(src).sure(text) == sure && DetectorsOf(src).guess(text) == guess;
    masked := MaskSpans(text, sure, guess, sess);
  }

  // ---------------------------------------------------------------- the engine's round trip

  ghost predicate ShortLabels(rules: LabelRules, found: seq<Entity>) {
    forall i | 0 <= i < |found| :: |Letters(rules.toUpper(found[i].tag))| <= 53
  }

  /** Patterns and model use kinds of at most 53 letters. */
  ghost predicate ShortSources(src: Sources) {
    && (forall text :: KindsAtMost(src.patterns(text), 53))
    && forall text | src.model(text).Some? :: ShortLabels(src.rules, src.model(text).value)
  }

  lemma AcceptedKinds(rules: LabelRules, text: Bytes, offsets: seq<int>, found: seq<Entity>)
    requires ShortLabels(rules, found)
    ensures KindsAtMost(AcceptAll(rules, text, offsets, found), 53)
  {
    forall s | s in AcceptAll(rules, text, offsets, found)
      ensures |s.kind| <= 53
    {
      AcceptAllHas(rules, text, offsets, found, s);
      var i :| 0 <= i < |found| && Accept(rules, text, offsets, found[i]) == Some(s);
    }
  }

  lemma KindsAreShort(src: Sources)
    requires SourcesFit(src) && ShortSources(src)
    ensures ShortKinds(DetectorsOf(src))
  {
    forall text
      ensures KindsAtMost(Sure(src, text), 53) && KindsAtMost(Guess(src, text), 53)
    {
      forall s | s in Sure(src, text) ensures |s.kind| <= 53 {
        SureFits(src, text, s);
        assert KindsAtMost(src.patterns(text), 53);
      }
      if src.model(text).Some? && Valid(text) {
        AcceptedKinds(src.rules, text, Offsets(Runes(text)), src.model(text).value);
      }
    }
  }

  /**
   The engine's own round trip: with these detectors, a document of at most 16 MiB of strings
   without anything shaped like a token comes back unchanged.
   */
  lemma EngineRoundTrip(src: Sources, v: Json)
    requires SourcesFit(src) && ShortSources(src)
    requires WellFormed(v) && TokenFreeTree(v) && Weight(v) <= 0x100_0000
    ensures Echoed(DetectorsOf(src), v) == Some(v)
  {
    DetectorsFit(src);
    KindsAreShort(src);
    TokenFreeRoundTrip(DetectorsOf(src), v);
  }

  // ---------------------------------------------------------------- what the engine hides

  lemma SureHas(src: Sources, text: Bytes, s: Span)
    requires SourcesFit(src) && IndicesOf(src.dict, src.matched(text))
    ensures s in Sure(src, text)
            <==> || s in src.patterns(text)
                 || (Valid(text) && exists w :: w in WordsOf(src.dict, src.matched(text)) && w != []
                                                && s in Reported(src.u, Runes(text), w))
  {
    if Valid(text) {
      ReportedAllHas(src.u, Runes(text), WordsOf(src.dict, src.matched(text)), s);
    }
  }

  lemma GuessHas(src: Sources, text: Bytes, s: Span)
    requires Valid(text)
    ensures s in Guess(src, text)
            <==> src.model(text).Some?
                 && exists e :: e in src.model(text).value
                                && Accept(src.rules, text, Offsets(Runes(text)), e) == Some(s)
  {
    if src.model(text).Some? {
      AcceptAllHas(src.rules, text, Offsets(Runes(text)), src.model(text).value, s);
    }
  }

  /**
   Every whole-word occurrence of a matched dictionary word is claimed, and so its first byte
   is masked, unless the word overlaps itself outside of words.
   */
  lemma DictionaryWordHidden(src: Sources, text: Bytes, p: Marked, w: seq<Rune>, k: nat)
    requires SourcesFit(src) && IndicesOf(src.dict, src.matched(text)) && Valid(text)
    requires w in WordsOf(src.dict, src.matched(text)) && w != []
    requires KeepsClasses(src.u) && OverlapsInsideWords(src.u, w) && WholeWord(src.u, Runes(text), w, k)
    requires CutOf(DetectorsOf(src), text, p)
    ensures Detected(DetectorsOf(src), text, SpanAt(Runes(text), k, k + |w|))
    ensures Hidden(p, Off(Runes(text), k))
  {
    var s := SpanAt(Runes(text), k, k + |w|);
    WholeWordReported(src.u, Runes(text), WordsOf(src.dict, src.matched(text)), w, k);
    assert s in DetectorsOf(src).sure(text);
    DetectorsFit(src);
    DetectedStartsHidden(DetectorsOf(src), text, p, s);
  }

  /** Every usable finding of the model that shares no byte with a trusted span is claimed, so its first byte is masked. */
  lemma FindingHidden(src: Sources, text: Bytes, p: Marked, e: Entity)
    requires SourcesFit(src) && Valid(text)
    requires src.model(text).Some? && e in src.model(text).value && Usable(src.rules, Runes(text), e)
    requires var t := Runes(text);
             var s := Span(Off(t, e.start), Off(t, e.end), Letters(src.rules.toUpper(e.tag)));
             forall x | x in Sure(src, text) :: !ShareByte(x, s)
    requires CutOf(DetectorsOf(src), text, p)
    ensures Hidden(p, Off(Runes(text), e.start))
  {
    var t := Runes(text);
    var s := Span(Off(t, e.start), Off(t, e.end), Letters(src.rules.toUpper(e.tag)));
    AcceptExact(src.rules, text, e);
    assert Accept(src.rules, text, Offsets(t), e) == Some(s);
    GuessHas(src, text, s);
    assert s in DetectorsOf(src).guess(text);
    DetectorsFit(src);
    DetectedStartsHidden(DetectorsOf(src), text, p, s);
  }
}
