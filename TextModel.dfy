/**
 * Text as a sequence of user-perceived characters (Swift `Character`s), each
 * of which occupies one or more UTF-16 code units.  Positions handed to the
 * user interface are NSString offsets, i.e. counts of UTF-16 code units.
 */
module TextModel {

  import opened Wrappers

  newtype CodeUnit = x: int | 0 <= x < 0x1_0000

  /** A grapheme cluster, represented by its UTF-16 code units. */
  datatype Character = Character(units: seq<CodeUnit>)

  /** Every character occupies at least one code unit. */
  type Char = c: Character | |c.units| > 0 witness Character([0x20])

  type Text = seq<Char>

  /** Number of UTF-16 code units of one character (`String(c).utf16.count`). */
  function Width(c: Char): (w: nat)
    ensures w >= 1
  {
    |c.units|
  }

  /**
   * The line separators NSString recognises: LF, CR, CR LF (a single grapheme
   * in Swift), NEL, LINE SEPARATOR and PARAGRAPH SEPARATOR.
   */
  predicate IsNewline(c: Char) {
    c.units == [0x0A] || c.units == [0x0D] || c.units == [0x0D, 0x0A]
    || c.units == [0x85] || c.units == [0x2028] || c.units == [0x2029]
  }

  /** NSString `length`: the number of UTF-16 code units of the text. */
  function Utf16Length(s: Text): (n: nat)
    ensures n >= |s|
  {
    if s == [] then 0 else Width(s[0]) + Utf16Length(s[1..])
  }

  /** A prefix is never longer in code units than the whole text. */
  lemma {:induction false} Utf16LengthOfPrefix(s: Text, i: nat)
    requires i <= |s|
    ensures Utf16Length(s[..i]) <= Utf16Length(s)
  {
    if i > 0 {
      Utf16LengthOfPrefix(s[1..], i - 1);
      assert s[..i][1..] == s[1..][..i - 1];
    }
  }

  /**
   * `s.index(s.startIndex, offsetBy: i).utf16Offset(in: s)`: the code units
   * of the first i characters.
   */
  function Utf16Offset(s: Text, i: nat): (n: nat)
    requires i <= |s|
    ensures i <= n <= Utf16Length(s)
  {
    Utf16LengthOfPrefix(s, i);
    Utf16Length(s[..i])
  }

  function CountNewlines(s: Text): nat {
    if s == [] then 0 else (if IsNewline(s[0]) then 1 else 0) + CountNewlines(s[1..])
  }

  /** Number of newline characters that end at or before code-unit offset `loc`. */
  function NewlinesBefore(s: Text, loc: int): (n: nat)
    ensures n <= CountNewlines(s)
  {
    if s == [] || loc < Width(s[0]) then 0
    else (if IsNewline(s[0]) then 1 else 0) + NewlinesBefore(s[1..], loc - Width(s[0]))
  }

  /** 1-based line number of code-unit offset `loc` (`lineNumber(at:)`). */
  function LineNumber(s: Text, loc: int): (line: nat)
    ensures 1 <= line <= 1 + CountNewlines(s)
    ensures loc < 0 ==> line == 1
  {
    1 + NewlinesBefore(s, loc)
  }

  /**
   * The character that starts at code-unit offset `loc`, or None when `loc`
   * is outside the text or inside a multi-unit character.
   */
  function CharacterAt(s: Text, loc: int): Option<Char> {
    if s == [] || loc < 0 then None
    else if loc == 0 then Some(s[0])
    else if loc < Width(s[0]) then None
    else CharacterAt(s[1..], loc - Width(s[0]))
  }

  lemma {:induction false} Utf16OffsetStep(s: Text, i: nat)
    requires i < |s|
    ensures Utf16Offset(s, i + 1) == Utf16Offset(s, i) + Width(s[i])
  {
    if i == 0 {
      assert s[..1][1..] == [];
    } else {
      Utf16OffsetStep(s[1..], i - 1);
      assert s[..i + 1][1..] == s[1..][..i];
      assert s[..i][1..] == s[1..][..i - 1];
    }
  }

  /** Offsets grow with the character index. */
  lemma {:induction false} Utf16OffsetMonotone(s: Text, i: nat, j: nat)
    requires i <= j <= |s|
    ensures Utf16Offset(s, i) <= Utf16Offset(s, j)
  {
    if i < j {
      Utf16OffsetMonotone(s, i, j - 1);
      Utf16OffsetStep(s, j - 1);
    }
  }

  /** The character at index `i` occupies [Offset(i), Offset(i) + Width) and ends inside the text. */
  lemma Utf16OffsetBounds(s: Text, i: nat, j: nat)
    requires i < j <= |s|
    ensures Utf16Offset(s, i) + Width(s[i]) <= Utf16Offset(s, j) <= Utf16Length(s)
  {
    Utf16OffsetStep(s, i);
    Utf16OffsetMonotone(s, i + 1, j);
    Utf16OffsetMonotone(s, j, |s|);
    assert s[..|s|] == s;
  }

  /** Resolving the offset of character `i` gives back that character. */
  lemma {:induction false} CharacterAtOffset(s: Text, i: nat)
    requires i < |s|
    ensures CharacterAt(s, Utf16Offset(s, i)) == Some(s[i])
  {
    if i > 0 {
      CharacterAtOffset(s[1..], i - 1);
      assert s[..i][1..] == s[1..][..i - 1];
    }
  }

  /** The line number of a character's offset counts the newlines preceding it. */
  lemma {:induction false} LineNumberAtOffset(s: Text, i: nat)
    requires i <= |s|
    ensures LineNumber(s, Utf16Offset(s, i)) == 1 + CountNewlines(s[..i])
  {
    if i > 0 {
      LineNumberAtOffset(s[1..], i - 1);
      assert s[..i][1..] == s[1..][..i - 1];
    } else {
      assert s[..0] == [];
    }
  }

  /** Line numbers never decrease as the offset grows. */
  lemma {:induction false} LineNumberMonotone(s: Text, loc1: int, loc2: int)
    requires loc1 <= loc2
    ensures LineNumber(s, loc1) <= LineNumber(s, loc2)
  {
    if s != [] && loc1 >= Width(s[0]) {
      LineNumberMonotone(s[1..], loc1 - Width(s[0]), loc2 - Width(s[0]));
    }
  }
}
