/** Properties of `scanIncompatibleCharacters(for:)` as a whole. */
module ScanProperties {

  import opened Wrappers
  import opened TextModel
  import opened SequenceDiff
  import opened IncompatibleCharacters

  /**
   * A scan is cancelled exactly when the round trip succeeded and one of its
   * check points (0 after the round trip, then one per located character)
   * observes a cancellation; a successful scan always reports every located
   * character, never a truncated list.
   */
  lemma ScanCancellation(s: Text, codec: Codec, cancelled: CancelOracle)
    ensures var r := ScanIncompatibleCharacters(s, codec, cancelled);
            var roundTrip := codec.lossyRoundTrip(s);
            && (r.Cancelled? <==>
                  && !codec.canBeConverted(s) && roundTrip.Some?
                  && !NoCancellation(cancelled, 0, |LocatedOffsets(s, roundTrip.value)| + 1))
            && (r.Ok? && !codec.canBeConverted(s) && roundTrip.Some? ==>
                  |r.findings| == |LocatedOffsets(s, roundTrip.value)|)
  {
  }

  /**
   * `Task.checkCancellation()` reads a flag that stays set once set: with such
   * an oracle the scan is cancelled exactly when the flag is set at its last
   * check point.
   */
  lemma ScanCancelledByPersistentFlag(s: Text, codec: Codec, cancelled: CancelOracle)
    requires forall p: nat, q: nat | p <= q :: cancelled(p) ==> cancelled(q)
    requires !codec.canBeConverted(s) && codec.lossyRoundTrip(s).Some?
    ensures var n := |LocatedOffsets(s, codec.lossyRoundTrip(s).value)|;
            ScanIncompatibleCharacters(s, codec, cancelled).Cancelled? <==> cancelled(n)
  {
  }

  /**
   * On the quick path a character is reported exactly when it differs from
   * the converted character at the same index; positions past the shorter
   * text are never compared.
   */
  lemma ScanQuickPathComplete(s: Text, t: Text, codec: Codec, cancelled: CancelOracle)
    requires !codec.canBeConverted(s) && codec.lossyRoundTrip(s) == Some(t)
    requires UsesQuickFind(s, t)
    requires ScanIncompatibleCharacters(s, codec, cancelled).Ok?
    ensures var fs := ScanIncompatibleCharacters(s, codec, cancelled).findings;
            forall i | 0 <= i < |s| && i < |t| ::
              s[i] != t[i] <==> exists j | 0 <= j < |fs| :: fs[j].location == Utf16Offset(s, i)
  {
    var r := QuickIncompatibleFind(s, t, cancelled, 1);
    assert ScanIncompatibleCharacters(s, codec, cancelled) == r;
    var fs, offsets := r.findings, MismatchOffsets(s, t);
    assert forall j | 0 <= j < |fs| :: fs[j].location == Utf16Offset(s, offsets[j]);
    QuickFindReportsMismatches(s, t, fs);
  }

  /**
   * Every quick-path finding is a differing position of both texts, and its
   * substitute is the converted character at that position.
   */
  lemma ScanQuickPathSound(s: Text, t: Text, codec: Codec, cancelled: CancelOracle)
    requires !codec.canBeConverted(s) && codec.lossyRoundTrip(s) == Some(t)
    requires UsesQuickFind(s, t)
    requires ScanIncompatibleCharacters(s, codec, cancelled).Ok?
    ensures var fs := ScanIncompatibleCharacters(s, codec, cancelled).findings;
            forall j | 0 <= j < |fs| :: exists i | 0 <= i < |s| && i < |t| ::
              s[i] != t[i] && fs[j] == MakeFinding(s, i, Some([t[i]]))
  {
  }

  /** Findings at the mismatch offsets: every differing position is reported, and nothing else. */
  lemma QuickFindReportsMismatches(s: Text, t: Text, fs: seq<IncompatibleCharacter>)
    requires |fs| == |MismatchOffsets(s, t)|
    requires forall j | 0 <= j < |fs| :: fs[j].location == Utf16Offset(s, MismatchOffsets(s, t)[j])
    ensures forall i | 0 <= i < |s| && i < |t| ::
              s[i] != t[i] <==> exists j | 0 <= j < |fs| :: fs[j].location == Utf16Offset(s, i)
  {
    var offsets := MismatchOffsets(s, t);
    forall i | 0 <= i < |s| && i < |t|
      ensures s[i] != t[i] <==> exists j | 0 <= j < |fs| :: fs[j].location == Utf16Offset(s, i)
    {
      if s[i] != t[i] {
        assert i in offsets;
        var j :| 0 <= j < |offsets| && offsets[j] == i;
        assert fs[j].location == Utf16Offset(s, i);
      }
      if j :| 0 <= j < |fs| && fs[j].location == Utf16Offset(s, i) {
        OffsetsDistinguishCharacters(s, offsets[j], i);
      }
    }
  }

  /** Distinct characters start at distinct UTF-16 offsets. */
  lemma OffsetsDistinguishCharacters(s: Text, i: nat, j: nat)
    requires i < |s| && j < |s| && Utf16Offset(s, i) == Utf16Offset(s, j)
    ensures i == j
  {
    if i < j {
      Utf16OffsetBounds(s, i, j);
    } else if j < i {
      Utf16OffsetBounds(s, j, i);
    }
  }

  /**
   * On the diff path the findings are the removals of a minimal diff: the
   * characters not reported form a subsequence of the converted text, no
   * common subsequence is longer, and each substitute is the lossy round
   * trip of that single character.
   */
  lemma ScanDiffPath(s: Text, t: Text, codec: Codec, cancelled: CancelOracle)
    requires !codec.canBeConverted(s) && codec.lossyRoundTrip(s) == Some(t)
    requires !UsesQuickFind(s, t)
    requires ScanIncompatibleCharacters(s, codec, cancelled).Ok?
    ensures var fs := ScanIncompatibleCharacters(s, codec, cancelled).findings;
            var removed := Removals(s, t);
            && |fs| == |removed|
            && (forall j | 0 <= j < |fs| ::
                  fs[j] == MakeFinding(s, removed[j], codec.lossyRoundTrip([s[removed[j]]])))
            && IsSubsequence(Kept(s, removed), t)
            && (forall c | IsSubsequence(c, s) && IsSubsequence(c, t) :: |fs| + |c| <= |s|)
  {
    forall c | IsSubsequence(c, s) && IsSubsequence(c, t) ensures |Removals(s, t)| + |c| <= |s| {
      RemovalsMinimal(s, t, c);
    }
  }

  /**
   * A round trip that changes nothing yields no finding, even on the quick
   * path: only check point 0 can cancel the scan.
   */
  lemma ScanRoundTripIdentity(s: Text, codec: Codec, cancelled: CancelOracle)
    requires codec.lossyRoundTrip(s) == Some(s)
    ensures var r := ScanIncompatibleCharacters(s, codec, cancelled);
            && (r.Ok? ==> r.findings == [])
            && (r.Cancelled? <==> !codec.canBeConverted(s) && cancelled(0))
  {
    RemovalsOfIdentical(s);
    MismatchOffsetsOfAgreeing(s, s);
  }

  /**
   * A conversion that keeps the length and alters exactly one character
   * makes the quick locator report that one character at its own offset.
   */
  lemma QuickSingleSubstitution(s: Text, t: Text, p: nat, cancelled: CancelOracle, k: nat)
    requires |s| == |t| && p < |s|
    requires s[p] != t[p]
    requires forall i | 0 <= i < |s| && i != p :: s[i] == t[i]
    requires !cancelled(k)
    ensures QuickIncompatibleFind(s, t, cancelled, k)
            == Ok([IncompatibleCharacter(s[p], Some([t[p]]), Utf16Offset(s, p),
                                         1 + CountNewlines(s[..p]))])
  {
    var offsets := MismatchOffsets(s, t);
    assert p in offsets;
    StrictlyIncreasingLength(offsets, p, p + 1);
    assert |offsets| == 1;
    assert NoCancellation(cancelled, k, 1);
  }

  /**
   * Past the round trip and check point 0, a text above the threshold whose
   * UTF-16 length the conversion keeps goes to the quick locator.
   */
  lemma ScanTakesQuickPath(s: Text, t: Text, codec: Codec, cancelled: CancelOracle)
    requires !codec.canBeConverted(s) && codec.lossyRoundTrip(s) == Some(t)
    requires UsesQuickFind(s, t) && !cancelled(0)
    ensures ScanIncompatibleCharacters(s, codec, cancelled) == QuickIncompatibleFind(s, t, cancelled, 1)
  {
  }

  /** Every other text that gets past check point 0 goes to the diff locator. */
  lemma ScanTakesDiffPath(s: Text, t: Text, codec: Codec, cancelled: CancelOracle)
    requires !codec.canBeConverted(s) && codec.lossyRoundTrip(s) == Some(t)
    requires !UsesQuickFind(s, t) && !cancelled(0)
    ensures ScanIncompatibleCharacters(s, codec, cancelled) == DiffFind(s, t, codec, cancelled, 1)
  {
  }

  /**
   * A large text whose conversion keeps its length and alters one character
   * yields, through the whole scan, exactly that one finding at its offset.
   */
  lemma ScanSingleSubstitution(s: Text, t: Text, p: nat, codec: Codec, cancelled: CancelOracle)
    requires !codec.canBeConverted(s) && codec.lossyRoundTrip(s) == Some(t)
    requires UsesQuickFind(s, t)
    requires |s| == |t| && p < |s| && s[p] != t[p]
    requires forall i | 0 <= i < |s| && i != p :: s[i] == t[i]
    requires !cancelled(0) && !cancelled(1)
    ensures ScanIncompatibleCharacters(s, codec, cancelled)
            == Ok([IncompatibleCharacter(s[p], Some([t[p]]), Utf16Offset(s, p),
                                         1 + CountNewlines(s[..p]))])
  {
    ScanTakesQuickPath(s, t, codec, cancelled);
    QuickSingleSubstitution(s, t, p, cancelled, 1);
  }
}
