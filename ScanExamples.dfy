/**
 * Worked scenarios with a concrete ASCII-like codec: every character outside
 * ASCII is replaced by "?" on the lossy round trip.
 */
module ScanExamples {

  import opened Wrappers
  import opened TextModel
  import opened SequenceDiff
  import opened IncompatibleCharacters

  predicate IsAscii(c: Char) {
    |c.units| == 1 && c.units[0] < 0x80
  }

  const QuestionMark: Char := Character([0x3F])

  function AsciiLossy(s: Text): (t: Text)
    ensures |t| == |s|
    ensures forall i | 0 <= i < |s| :: t[i] == if IsAscii(s[i]) then s[i] else QuestionMark
  {
    seq(|s|, i requires 0 <= i < |s| => if IsAscii(s[i]) then s[i] else QuestionMark)
  }

  const AsciiCodec: Codec := Codec(s => forall c | c in s :: IsAscii(c), s => Some(AsciiLossy(s)))

  /** A text of single-unit characters is as long in UTF-16 as in characters. */
  lemma {:induction false} SingleUnitLength(s: Text)
    requires forall i | 0 <= i < |s| :: Width(s[i]) == 1
    ensures Utf16Length(s) == |s|
  {
    if s != [] {
      SingleUnitLength(s[1..]);
    }
  }

  const NeverCancelled: CancelOracle := k => false

  const LetterA: Char := Character([0x61])
  const LetterB: Char := Character([0x62])
  const LetterC: Char := Character([0x63])
  const LetterF: Char := Character([0x66])
  const LineFeed: Char := Character([0x0A])
  const EAcute: Char := Character([0xE9])
  const Euro: Char := Character([0x20AC])

  lemma NonAsciiSubstitute(c: Char)
    requires !IsAscii(c)
    ensures AsciiCodec.lossyRoundTrip([c]) == Some([QuestionMark])
  {
    assert AsciiLossy([c]) == [QuestionMark];
  }

  const Cafe: Text := [LetterC, LetterA, LetterF, EAcute]
  const CafeConverted: Text := [LetterC, LetterA, LetterF, QuestionMark]

  lemma CafeRemovals()
    ensures Removals(Cafe, CafeConverted) == [3]
  {
    var s, t := Cafe, CafeConverted;
    assert RemovalsFrom(s, t, 3, 4) == [3];
    assert RemovalsFrom(s, t, 3, 3) == [3];
    assert RemovalsFrom(s, t, 2, 2) == [3];
    assert RemovalsFrom(s, t, 1, 1) == [3];
    assert RemovalsFrom(s, t, 0, 0) == [3];
  }

  lemma CafeFinding()
    ensures MakeFinding(Cafe, 3, Some([QuestionMark]))
            == IncompatibleCharacter(EAcute, Some([QuestionMark]), 3, 1)
  {
    var s := Cafe;
    SingleUnitLength(s[..3]);
    assert s[..3] == [LetterC, LetterA, LetterF];
    assert CountNewlines([LetterF]) == 0;
    assert CountNewlines([LetterA, LetterF]) == 0;
  }

  /** "café" against ASCII: one finding, "é" at offset 3 on line 1, substitute "?". */
  lemma CafeScenario()
    ensures ScanIncompatibleCharacters(Cafe, AsciiCodec, NeverCancelled)
            == Ok([IncompatibleCharacter(EAcute, Some([QuestionMark]), 3, 1)])
  {
    var s, t := Cafe, CafeConverted;
    assert AsciiLossy(s) == t;
    assert !IsAscii(s[3]) && !AsciiCodec.canBeConverted(s);
    SingleUnitLength(t);
    CafeRemovals();
    NonAsciiSubstitute(s[3]);
    CafeFinding();
    assert NoCancellation(NeverCancelled, 1, 1);
    var r := DiffFind(s, t, AsciiCodec, NeverCancelled, 1);
    assert r.Ok? && |r.findings| == 1;
    assert r.findings[0] == MakeFinding(s, 3, Some([QuestionMark]));
  }

  const MultiLine: Text := [LetterA, LineFeed, LetterB, Euro, LineFeed, LetterC]
  const MultiLineConverted: Text := [LetterA, LineFeed, LetterB, QuestionMark, LineFeed, LetterC]

  lemma MultiLineRemovals()
    ensures Removals(MultiLine, MultiLineConverted) == [3]
  {
    var s, t := MultiLine, MultiLineConverted;
    assert RemovalsFrom(s, t, 5, 5) == [];
    assert RemovalsFrom(s, t, 4, 4) == [];
    assert RemovalsFrom(s, t, 4, 3) == [];
    assert RemovalsFrom(s, t, 4, 5) == [4];
    assert RemovalsFrom(s, t, 3, 5) == [3, 4];
    assert RemovalsFrom(s, t, 3, 4) == [3];
    assert RemovalsFrom(s, t, 3, 3) == [3];
    assert RemovalsFrom(s, t, 2, 2) == [3];
    assert RemovalsFrom(s, t, 1, 1) == [3];
    assert RemovalsFrom(s, t, 0, 0) == [3];
  }

  lemma MultiLineFinding()
    ensures MakeFinding(MultiLine, 3, Some([QuestionMark]))
            == IncompatibleCharacter(Euro, Some([QuestionMark]), 3, 2)
  {
    var s := MultiLine;
    SingleUnitLength(s[..3]);
    assert s[..3] == [LetterA, LineFeed, LetterB];
    assert CountNewlines([LetterB]) == 0;
    assert CountNewlines([LineFeed, LetterB]) == 1;
  }

  /** "a\nb€\nc" against ASCII: one finding, "€" at offset 3 on line 2. */
  lemma MultiLineScenario()
    ensures ScanIncompatibleCharacters(MultiLine, AsciiCodec, NeverCancelled)
            == Ok([IncompatibleCharacter(Euro, Some([QuestionMark]), 3, 2)])
  {
    var s, t := MultiLine, MultiLineConverted;
    assert AsciiLossy(s) == t;
    assert !IsAscii(s[3]) && !AsciiCodec.canBeConverted(s);
    SingleUnitLength(t);
    MultiLineRemovals();
    NonAsciiSubstitute(s[3]);
    MultiLineFinding();
    assert NoCancellation(NeverCancelled, 1, 1);
    var r := DiffFind(s, t, AsciiCodec, NeverCancelled, 1);
    assert r.Ok? && |r.findings| == 1;
    assert r.findings[0] == MakeFinding(s, 3, Some([QuestionMark]));
  }
}
