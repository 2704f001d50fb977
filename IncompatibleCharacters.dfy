/**
 * The incompatible-character scanner: which characters of a text do not
 * survive a lossy round trip through a target encoding, with their
 * substitute, UTF-16 location and line number.
 */
module IncompatibleCharacters {

  import opened Wrappers
  import opened TextModel
  import opened SequenceDiff

  /** NSRange: a start offset and a length, in UTF-16 code units. */
  datatype NSRange = NSRange(location: int, length: int) {
    function End(): int {
      location + length
    }
  }

  /**
   * One reported character.  `character` is the original character,
   * `convertedCharacter` its lossy substitute (None when that conversion
   * fails), `location` its UTF-16 offset in the original text and
   * `lineNumber` the 1-based line it lies on.
   */
  datatype IncompatibleCharacter = IncompatibleCharacter(
    character: Char,
    convertedCharacter: Option<Text>,
    location: int,
    lineNumber: int)
  {
    /** The code units the character occupies in the original text. */
    function Range(): (r: NSRange)
      ensures r.location == location
      ensures r.length == Width(character) >= 1
    {
      var text: Text := [character];
      assert text[0] == character && text[1..] == [];
      assert Utf16Length(text) == Width(character) + Utf16Length([]);
      NSRange(location, Utf16Length(text))
    }
  }

  /**
   * The text codec of one encoding, a black box: whether the text converts
   * without loss, and the lossy encode-then-decode round trip (None when the
   * lossy encoding or the decoding yields nothing).
   */
  datatype Codec = Codec(canBeConverted: Text -> bool, lossyRoundTrip: Text -> Option<Text>)

  /** `cancelled(k)`: whether the k-th cancellation check of a scan throws. */
  type CancelOracle = nat -> bool

  datatype ScanResult = Ok(findings: seq<IncompatibleCharacter>) | Cancelled

  /** The quick path is reserved for texts longer than this many UTF-16 units. */
  const QuickFindThreshold := 10_000

  /** No check point among k, k+1, ..., k+n-1 observes a cancellation. */
  predicate NoCancellation(cancelled: CancelOracle, k: nat, n: nat) {
    forall p: nat | k <= p < k + n :: !cancelled(p)
  }

  /**
   * What the scanner promises about a report on text `s`: every finding names
   * the character found at its location, lies inside the text and carries the
   * line number of its location; findings are ordered, their ranges do not
   * overlap and their line numbers never decrease.
   */
  predicate OrderedReport(s: Text, fs: seq<IncompatibleCharacter>) {
    && (forall f | f in fs ::
          && CharacterAt(s, f.location) == Some(f.character)
          && f.Range().End() <= Utf16Length(s)
          && f.lineNumber == LineNumber(s, f.location))
    && (forall j, k | 0 <= j < k < |fs| ::
          fs[j].Range().End() <= fs[k].location && fs[j].lineNumber <= fs[k].lineNumber)
  }

  /** The finding for the character at index `i` of `s`. */
  function MakeFinding(s: Text, i: nat, converted: Option<Text>): (f: IncompatibleCharacter)
    requires i < |s|
    ensures f.character == s[i] && f.convertedCharacter == converted
    ensures f.location == Utf16Offset(s, i)
    ensures CharacterAt(s, f.location) == Some(s[i])
    ensures f.Range().End() == Utf16Offset(s, i + 1) <= Utf16Length(s)
    ensures f.lineNumber == 1 + CountNewlines(s[..i])
  {
    var location := Utf16Offset(s, i);
    CharacterAtOffset(s, i);
    Utf16OffsetBounds(s, i, |s|);
    Utf16OffsetStep(s, i);
    LineNumberAtOffset(s, i);
    IncompatibleCharacter(s[i], converted, location, LineNumber(s, location))
  }

  /**
   * The findings for the original characters at `offsets`, with the given
   * substitutes, checking for cancellation (check points k, k+1, ...) before
   * each one.  A cancellation discards everything: there is no partial list.
   */
  function EmitChecked(s: Text, offsets: seq<nat>, substitutes: seq<Option<Text>>,
                       cancelled: CancelOracle, k: nat): (r: ScanResult)
    requires |substitutes| == |offsets|
    requires forall j | 0 <= j < |offsets| :: offsets[j] < |s|
    ensures r.Ok? <==> NoCancellation(cancelled, k, |offsets|)
    ensures r.Ok? ==> |r.findings| == |offsets|
    ensures r.Ok? ==> forall j | 0 <= j < |offsets| ::
              r.findings[j] == MakeFinding(s, offsets[j], substitutes[j])
    decreases |offsets|
  {
    if offsets == [] then Ok([])
    else if cancelled(k) then Cancelled
    else match EmitChecked(s, offsets[1..], substitutes[1..], cancelled, k + 1)
      case Cancelled => Cancelled
      case Ok(rest) => Ok([MakeFinding(s, offsets[0], substitutes[0])] + rest)
  }

  /** Findings emitted at strictly increasing offsets form an ordered report. */
  lemma EmittedReportOrdered(s: Text, offsets: seq<nat>, substitutes: seq<Option<Text>>,
                             cancelled: CancelOracle, k: nat)
    requires |substitutes| == |offsets|
    requires forall j | 0 <= j < |offsets| :: offsets[j] < |s|
    requires StrictlyIncreasing(offsets)
    ensures var r := EmitChecked(s, offsets, substitutes, cancelled, k);
            r.Ok? ==> OrderedReport(s, r.findings)
  {
    var r := EmitChecked(s, offsets, substitutes, cancelled, k);
    if r.Ok? {
      var fs := r.findings;
      forall j, m | 0 <= j < m < |fs|
        ensures fs[j].Range().End() <= fs[m].location && fs[j].lineNumber <= fs[m].lineNumber
      {
        Utf16OffsetStep(s, offsets[j]);
        Utf16OffsetMonotone(s, offsets[j] + 1, offsets[m]);
        LineNumberMonotone(s, fs[j].location, fs[m].location);
      }
    }
  }

  /**
   * The indices i >= start that `zip(s, t).enumerated().filter { $1.0 != $1.1 }`
   * keeps: the positions below both lengths where the two texts differ.
   */
  function MismatchOffsetsFrom(s: Text, t: Text, start: nat): (r: seq<nat>)
    ensures StrictlyIncreasing(r)
    ensures forall j | 0 <= j < |r| :: start <= r[j] < |s| && r[j] < |t| && s[r[j]] != t[r[j]]
    ensures forall i {:trigger i in r} | start <= i < |s| && i < |t| && s[i] != t[i] :: i in r
    decreases |s| - start
  {
    if start >= |s| || start >= |t| then []
    else if s[start] != t[start] then [start] + MismatchOffsetsFrom(s, t, start + 1)
    else MismatchOffsetsFrom(s, t, start + 1)
  }

  function MismatchOffsets(s: Text, t: Text): (r: seq<nat>)
    ensures StrictlyIncreasing(r)
    ensures forall j | 0 <= j < |r| :: r[j] < |s| && r[j] < |t| && s[r[j]] != t[r[j]]
    ensures forall i {:trigger i in r} | 0 <= i < |s| && i < |t| && s[i] != t[i] :: i in r
  {
    MismatchOffsetsFrom(s, t, 0)
  }

  /** Texts that agree on every compared position from `start` on leave the filter nothing. */
  lemma {:induction false} MismatchOffsetsFromOfAgreeing(s: Text, t: Text, start: nat)
    requires forall i | start <= i < |s| && i < |t| :: s[i] == t[i]
    ensures MismatchOffsetsFrom(s, t, start) == []
    decreases |s| - start
  {
    if start < |s| && start < |t| {
      MismatchOffsetsFromOfAgreeing(s, t, start + 1);
    }
  }

  /** Texts that agree on every compared position have no mismatch to report. */
  lemma MismatchOffsetsOfAgreeing(s: Text, t: Text)
    requires forall i | 0 <= i < |s| && i < |t| :: s[i] == t[i]
    ensures MismatchOffsets(s, t) == []
  {
    MismatchOffsetsFromOfAgreeing(s, t, 0);
  }

  /**
   * The quick locator: one finding per position where the original and the
   * converted text differ, the converted character serving as substitute.
   * Positions past the shorter text are never compared.
   */
  function QuickIncompatibleFind(s: Text, converted: Text, cancelled: CancelOracle, k: nat): (r: ScanResult)
    ensures var offsets := MismatchOffsets(s, converted);
            && (r.Ok? <==> NoCancellation(cancelled, k, |offsets|))
            && (r.Ok? ==> |r.findings| == |offsets|)
            && (r.Ok? ==> forall j | 0 <= j < |offsets| ::
                  r.findings[j] == MakeFinding(s, offsets[j], Some([converted[offsets[j]]])))
            && (r.Ok? ==> OrderedReport(s, r.findings))
  {
    var offsets := MismatchOffsets(s, converted);
    var substitutes := seq(|offsets|, j requires 0 <= j < |offsets| => Some([converted[offsets[j]]]));
    EmittedReportOrdered(s, offsets, substitutes, cancelled, k);
    EmitChecked(s, offsets, substitutes, cancelled, k)
  }

  /**
   * The exact locator: one finding per removal of the diff from `s` to
   * `converted`, each substitute being the lossy round trip of that single
   * character.
   */
  function DiffFind(s: Text, converted: Text, codec: Codec, cancelled: CancelOracle, k: nat): (r: ScanResult)
    ensures var offsets := Removals(s, converted);
            && (r.Ok? <==> NoCancellation(cancelled, k, |offsets|))
            && (r.Ok? ==> |r.findings| == |offsets|)
            && (r.Ok? ==> forall j | 0 <= j < |offsets| ::
                  r.findings[j] == MakeFinding(s, offsets[j], codec.lossyRoundTrip([s[offsets[j]]])))
            && (r.Ok? ==> OrderedReport(s, r.findings))
  {
    var offsets := Removals(s, converted);
    var substitutes := seq(|offsets|, j requires 0 <= j < |offsets| => codec.lossyRoundTrip([s[offsets[j]]]));
    EmittedReportOrdered(s, offsets, substitutes, cancelled, k);
    EmitChecked(s, offsets, substitutes, cancelled, k)
  }

  /** Whether the scan takes the quick path: equal UTF-16 lengths above the threshold. */
  predicate UsesQuickFind(s: Text, converted: Text): (quick: bool)
    ensures Utf16Length(s) <= QuickFindThreshold ==> !quick
    ensures Utf16Length(s) != Utf16Length(converted) ==> !quick
    ensures quick ==> |s| > 0 && |converted| > 0
  {
    Utf16Length(s) == Utf16Length(converted) && Utf16Length(s) > QuickFindThreshold
  }

  /** The original offsets the selected locator reports for `converted`. */
  function LocatedOffsets(s: Text, converted: Text): (r: seq<nat>)
    ensures StrictlyIncreasing(r)
    ensures forall j | 0 <= j < |r| :: r[j] < |s|
  {
    if UsesQuickFind(s, converted) then MismatchOffsets(s, converted) else Removals(s, converted)
  }

  /**
   * `scanIncompatibleCharacters(for:)`: check point 0 follows the round trip,
   * the locator's check points are 1, 2, ...
   */
  function ScanIncompatibleCharacters(s: Text, codec: Codec, cancelled: CancelOracle): (r: ScanResult)
    ensures codec.canBeConverted(s) ==> r == Ok([])
    ensures codec.lossyRoundTrip(s).None? ==> r == Ok([])
    ensures r.Ok? ==> OrderedReport(s, r.findings)
  {
    if codec.canBeConverted(s) then Ok([])
    else match codec.lossyRoundTrip(s)
      case None => Ok([])
      case Some(converted) =>
        if cancelled(0) then Cancelled
        else if UsesQuickFind(s, converted) then QuickIncompatibleFind(s, converted, cancelled, 1)
        else DiffFind(s, converted, codec, cancelled, 1)
  }
}
