# CotEditor incompatible-character scanner, in Dafny

Before CotEditor saves a document in a legacy text encoding, it warns the
user which characters the encoding cannot hold. `String.scanIncompatibleCharacters(for:)`
(`CotEditor/Sources/IncompatibleCharacter.swift`) finds them in three steps:

1. If the text converts to the encoding without loss, it returns no findings.
2. Otherwise it encodes the text lossily and decodes it back.
3. It locates the original characters that did not survive the round trip.
   Usually it takes the removals of a sequence diff from the original to the
   converted text. On texts longer than 10,000 UTF-16 units whose UTF-16
   length did not change, it compares the two texts position by position
   instead (`quickIncompatibleFind(with:)`).

Each finding is an `IncompatibleCharacter`. It holds the original character
and its lossy substitute. It also holds the character's UTF-16 offset and its
1-based line number, both in the original text. The scan checks for
cancellation once after the round trip and once before each finding. A
cancelled scan throws and returns no list at all.

The model is written as pure functions and lemmas, one module per concern:

- `Wrappers`: `Option`.
- `TextModel`: text as a sequence of characters. Each character is its
  non-empty run of UTF-16 code units. The module defines NSString `length`,
  `utf16Offset`, a line-number function and the inverse lookup `CharacterAt`
  from an offset back to a character.
- `SequenceDiff`: the removals of a minimal diff, computed by the
  longest-common-subsequence recursion. It proves that the removal offsets
  ascend, that what is left is a subsequence of the target, and that no
  common subsequence is longer.
- `IncompatibleCharacters`: the `IncompatibleCharacter` record and its
  `range`, the two locators and the scan. The codec is a `Codec` value and
  cancellation is an oracle.
- `ScanProperties`: properties of the whole scan. They cover cancellation,
  exactly what each path reports, and a round trip that changes nothing.
- `ScanExamples`: two concrete scans against a toy ASCII codec, "café" and
  "a\nb€\nc".

The codec is a parameter. `Codec.canBeConverted` stands for
`canBeConverted(to:)`. `Codec.lossyRoundTrip` stands for
`data(using:allowLossyConversion: true)` followed by `String(data:encoding:)`.
It is None when either of the two yields nothing. Cancellation is a parameter
`cancelled: nat -> bool`. Check point 0 is the check after the round trip
(line 77). Check points 1, 2, … are the checks before each finding
(line 87 on the diff path, line 112 on the quick path).

Three details of the code shape the model:

- The quick path is chosen by comparing NSString lengths, i.e. UTF-16 unit
  counts (line 79), not character counts. So the two texts may have different
  numbers of characters, and `zip` then stops at the shorter one.
- The quick path checks for cancellation only before each differing pair
  (line 112). Equal pairs are filtered out first, so they are not check
  points.
- A failed round trip returns an empty list (line 75). `assertionFailure()`
  only traps in debug builds.

## Model

| member | source | states |
|---|---|---|
| `TextModel.Utf16Length` | CotEditor/Sources/IncompatibleCharacter.swift:79 | `String.length` (NSString length) is the sum of the characters' UTF-16 widths, so it is at least the character count |
| `TextModel.Utf16LengthOfPrefix` | CotEditor/Sources/IncompatibleCharacter.swift:79 | a prefix of the text is never longer in UTF-16 units than the whole text |
| `TextModel.Utf16Offset` | CotEditor/Sources/IncompatibleCharacter.swift:92 | `index(startIndex, offsetBy: i).utf16Offset(in:)` (also line 110) is the UTF-16 length of the first i characters: at least i and at most the text's length |
| `TextModel.LineNumber` | CotEditor/Sources/IncompatibleCharacter.swift:97 | `lineNumber(at:)` (also line 117) is 1 plus the newline characters ending at or before the offset: between 1 and 1 plus all newlines of the text, and 1 before the text starts |
| `TextModel.Utf16OffsetStep` | CotEditor/Sources/IncompatibleCharacter.swift:92 | the UTF-16 offset of character i+1 is the offset of character i plus that character's width |
| `TextModel.Utf16OffsetMonotone` | CotEditor/Sources/IncompatibleCharacter.swift:92 | UTF-16 offsets never decrease as the character index grows |
| `TextModel.Utf16OffsetBounds` | CotEditor/Sources/IncompatibleCharacter.swift:92 | a character's code units end at or before the offset of any later character and within the text's NSString length |
| `TextModel.CharacterAtOffset` | CotEditor/Sources/IncompatibleCharacter.swift:92 | looking up the character that starts at the UTF-16 offset of index i gives back that character, so a location names the original character |
| `TextModel.LineNumberAtOffset` | CotEditor/Sources/IncompatibleCharacter.swift:97 | the line number at a character's offset is 1 plus the number of newline characters before it |
| `TextModel.LineNumberMonotone` | CotEditor/Sources/IncompatibleCharacter.swift:97 | line numbers never decrease as the offset grows |
| `SequenceDiff.RemovalsFrom` | CotEditor/Sources/IncompatibleCharacter.swift:83 | removal offsets are strictly ascending, lie inside the original, and there are at most as many as remaining elements |
| `SequenceDiff.RemovalsFromKeepCommon` | CotEditor/Sources/IncompatibleCharacter.swift:83 | deleting the removals from the original suffix leaves a subsequence of the converted suffix |
| `SequenceDiff.Removals` | CotEditor/Sources/IncompatibleCharacter.swift:83 | `difference(from:).removals`: strictly ascending offsets into the original whose deletion leaves a subsequence of the converted text |
| `SequenceDiff.RemovalsFromMinimal` | CotEditor/Sources/IncompatibleCharacter.swift:83 | no common subsequence of the two suffixes is longer than what the removals leave |
| `SequenceDiff.RemovalsMinimal` | CotEditor/Sources/IncompatibleCharacter.swift:83 | the diff is minimal: removals plus any common subsequence never exceed the original's length |
| `SequenceDiff.RemovalsOfIdentical` | CotEditor/Sources/IncompatibleCharacter.swift:83 | diffing a text against itself removes nothing |
| `IncompatibleCharacters.IncompatibleCharacter.Range` | CotEditor/Sources/IncompatibleCharacter.swift:46-49 | `range` starts at `location` and is as long as the character's UTF-16 count, which is at least 1 |
| `IncompatibleCharacters.MakeFinding` | CotEditor/Sources/IncompatibleCharacter.swift:92-97 | a finding for index i holds the original character and the given substitute; its location names that character, its range ends at the next character's offset inside the text, and its line is 1 plus the newlines before it |
| `IncompatibleCharacters.EmitChecked` | CotEditor/Sources/IncompatibleCharacter.swift:83-98 | the throwing map: it succeeds iff none of its check points sees a cancellation, and then it yields exactly one finding per offset, in order, never a truncated list |
| `IncompatibleCharacters.EmittedReportOrdered` | CotEditor/Sources/IncompatibleCharacter.swift:92-97 | findings at ascending offsets have strictly increasing, non-overlapping ranges and non-decreasing line numbers |
| `IncompatibleCharacters.MismatchOffsetsFrom` | CotEditor/Sources/IncompatibleCharacter.swift:107-108 | the indices kept by `zip(...).enumerated().filter` are ascending, lie below both lengths, and are exactly the positions where the texts differ |
| `IncompatibleCharacters.MismatchOffsets` | CotEditor/Sources/IncompatibleCharacter.swift:107-108 | same as above from index 0 |
| `IncompatibleCharacters.MismatchOffsetsFromOfAgreeing` | CotEditor/Sources/IncompatibleCharacter.swift:107-108 | if the texts agree on every compared position from the start index on, the filter keeps nothing there |
| `IncompatibleCharacters.MismatchOffsetsOfAgreeing` | CotEditor/Sources/IncompatibleCharacter.swift:107-108 | if the texts agree on every compared position, the filter keeps nothing |
| `IncompatibleCharacters.QuickIncompatibleFind` | CotEditor/Sources/IncompatibleCharacter.swift:105-119 | it succeeds iff no check point cancels; then it reports one finding per differing position, in order, with the converted character as substitute, as an ordered report |
| `IncompatibleCharacters.DiffFind` | CotEditor/Sources/IncompatibleCharacter.swift:83-98 | it succeeds iff no check point cancels; then it reports one finding per diff removal, in order, with the single character's lossy round trip as substitute, as an ordered report |
| `IncompatibleCharacters.UsesQuickFind` | CotEditor/Sources/IncompatibleCharacter.swift:79 | the path gate: the quick path needs equal UTF-16 lengths above 10,000 units, so a text of at most 10,000 units or a conversion that changes the UTF-16 length always takes the diff path |
| `IncompatibleCharacters.LocatedOffsets` | CotEditor/Sources/IncompatibleCharacter.swift:79-83 | the offsets reported by the chosen locator are strictly ascending indices into the original |
| `IncompatibleCharacters.ScanIncompatibleCharacters` | CotEditor/Sources/IncompatibleCharacter.swift:68-99 | a losslessly convertible text, or a failed round trip, gives an empty list; any successful result is an ordered report of the original text |
| `ScanProperties.ScanCancellation` | CotEditor/Sources/IncompatibleCharacter.swift:77-112 | the scan is cancelled iff the round trip succeeded and one of check points 0..n sees a cancellation; a success reports all n located characters |
| `ScanProperties.ScanCancelledByPersistentFlag` | CotEditor/Sources/IncompatibleCharacter.swift:77-112 | when the cancellation flag stays set once set, the scan is cancelled iff the flag is set at its last check point |
| `ScanProperties.ScanQuickPathComplete` | CotEditor/Sources/IncompatibleCharacter.swift:79-110 | on the quick path, a position below both lengths has a finding at its offset iff the two texts differ there |
| `ScanProperties.ScanQuickPathSound` | CotEditor/Sources/IncompatibleCharacter.swift:105-119 | on the quick path, every finding comes from a differing position and carries the converted character there as substitute |
| `ScanProperties.QuickFindReportsMismatches` | CotEditor/Sources/IncompatibleCharacter.swift:107-110 | findings located at the mismatch offsets mark exactly the differing positions |
| `ScanProperties.ScanDiffPath` | CotEditor/Sources/IncompatibleCharacter.swift:83-97 | on the diff path, the findings are the removals of a minimal diff with their single-character round trips as substitutes; the unreported characters form a subsequence of the converted text |
| `ScanProperties.ScanRoundTripIdentity` | CotEditor/Sources/IncompatibleCharacter.swift:72-98 | a round trip that changes nothing gives no finding on either path; only check point 0 can cancel the scan |
| `ScanProperties.ScanTakesQuickPath` | CotEditor/Sources/IncompatibleCharacter.swift:79-80 | once past check point 0, a text that passes the gate is scanned by the quick locator with check points from 1 |
| `ScanProperties.ScanTakesDiffPath` | CotEditor/Sources/IncompatibleCharacter.swift:79-98 | once past check point 0, a text that fails the gate is scanned by the diff locator with check points from 1 |
| `ScanProperties.ScanSingleSubstitution` | CotEditor/Sources/IncompatibleCharacter.swift:105-118 | through the gate at line 79, a large text whose conversion keeps its length and alters one character yields exactly one finding from the whole scan: that character, its converted character, its offset and its line |
| `ScanProperties.QuickSingleSubstitution` | CotEditor/Sources/IncompatibleCharacter.swift:107-118 | if the conversion keeps the length and alters one character, the quick locator reports just that character at its offset and line |
| `ScanExamples.CafeScenario` | CotEditor/Sources/IncompatibleCharacter.swift:68-99 | "café" against an ASCII codec gives one finding: "é" with substitute "?", at location 3 on line 1 |
| `ScanExamples.MultiLineScenario` | CotEditor/Sources/IncompatibleCharacter.swift:68-99 | "a\nb€\nc" against an ASCII codec gives one finding: "€" at location 3 on line 2 |

## Left out

- The Foundation codec: `canBeConverted(to:)`, `data(using:allowLossyConversion:)` and `String(data:encoding:)` are the two fields of a `Codec` parameter. No encoding table is modelled.
- Grapheme-cluster segmentation: a text is already a sequence of characters, each given by its UTF-16 code units. Texts are assumed to be split as Swift splits them: CR LF is one character, and a combining mark joins the character before it unless that character is a line break or another control character, so every line separator is a character of its own. On a split Swift never produces, `LineNumber` can differ from NSString's line counting. For example, a separate CR and LF would count as two line breaks.
- Swift compares `Character`s by canonical equivalence. The model compares them by their code units, so a precomposed and a decomposed form of the same letter count as different.
- `Task.checkCancellation()` and Swift concurrency: cancellation is an oracle consulted at each check point.
- SequenceDiff.Removals: Swift's `CollectionDifference` (Myers' algorithm) is not part of this model. The model's own LCS recursion removes as few characters as Swift's does. When several minimal diffs exist, it may pick different offsets.
- `String.length` (NSString `length`) is not part of this model. It is modelled as the sum of the characters' UTF-16 widths.
- `String.lineNumber(at:)` is not part of this model. It is modelled as 1 plus the number of line-separator characters (LF, CR, CR LF, NEL, U+2028, U+2029) that end at or before the offset.
- `assertionFailure()` (line 75) and the `preconditionFailure()` of the removal pattern match (line 85): debug traps and an unreachable case. The model takes the release behaviour of the first and omits the second.
- `debugDescription`, the `NSObject` base class and `@objc` exposure, which exist only for `NSArrayController`.
- `Int` offsets are unbounded integers. 64-bit overflow cannot occur for texts that fit in memory.
- `PrintPanelAccessoryController.swift`, `ServicesProvider.swift` and `CEKeyBindingSheetController.h` are user-interface and OS-services glue with no scanning logic. They are not part of this model.
