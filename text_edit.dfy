/**
 * The text-entry logic of the hex colour field: the length guard that the
 * text field's delegate applies to every proposed edit, and the `#`-prefix
 * normalisation applied to the typed text before it is parsed.
 *
 * Text is a sequence of UTF-16 code units, because `NSString.length` and
 * `NSRange` count code units.
 */
module TextEdit {

  /** One UTF-16 code unit. */
  newtype CodeUnit = x: int | 0 <= x < 0x1_0000

  type Text = seq<CodeUnit>

  /** The code unit of `#` (U+0023). */
  const Hash: CodeUnit := 0x23

  /** An `NSRange` into the current text: a start offset and a length, in code units. */
  datatype NSRange = NSRange(location: nat, length: nat)

  /** The range lies within the text (otherwise `replacingCharacters(in:with:)` traps). */
  predicate InRange(range: NSRange, text: Text)
  {
    range.location + range.length <= |text|
  }

  /** The text starts with `#`. */
  predicate HasHashPrefix(text: Text)
  {
    |text| > 0 && text[0] == Hash
  }

  /** The longest text the guard admits: 9 code units after `#`, 8 otherwise. */
  function MaxLength(text: Text): nat
  {
    if HasHashPrefix(text) then 9 else 8
  }

  /**
   * The text obtained by replacing `range` of `text` with `replacement`:
   * the part before the range is kept, then comes the replacement, then the
   * part after the range.
   */
  function ReplaceRange(text: Text, range: NSRange, replacement: Text): (r: Text)
    requires InRange(range, text)
    ensures |r| == |text| - range.length + |replacement|
    ensures r[..range.location] == text[..range.location]
    ensures r[range.location..range.location + |replacement|] == replacement
    ensures r[range.location + |replacement|..] == text[range.location + range.length..]
  {
    text[..range.location] + replacement + text[range.location + range.length..]
  }

  /** Each code unit of an edited text comes from the old text or from the replacement. */
  lemma ReplaceRangeAt(text: Text, range: NSRange, replacement: Text, i: nat)
    requires InRange(range, text)
    requires i < |text| - range.length + |replacement|
    ensures ReplaceRange(text, range, replacement)[i] ==
      if i < range.location then text[i]
      else if i < range.location + |replacement| then replacement[i - range.location]
      else text[i - |replacement| + range.length]
  {
  }

  /**
   * An edit can be undone: replacing the inserted text again by the code
   * units the edit removed gives back the original text.
   */
  lemma ReplaceRangeUndo(text: Text, range: NSRange, replacement: Text)
    requires InRange(range, text)
    ensures InRange(NSRange(range.location, |replacement|), ReplaceRange(text, range, replacement))
    ensures ReplaceRange(ReplaceRange(text, range, replacement),
                         NSRange(range.location, |replacement|),
                         text[range.location..range.location + range.length]) == text
  {
  }

  /**
   * The delegate's decision on a proposed edit: accept it exactly when the
   * edited text is no longer than the limit, which the CURRENT text's
   * prefix selects (9 after `#`, 8 otherwise).
   */
  function Accepts(text: Text, range: NSRange, replacement: Text): (ok: bool)
    requires InRange(range, text)
    ensures ok <==> |text| - range.length + |replacement| <= (if HasHashPrefix(text) then 9 else 8)
  {
    |ReplaceRange(text, range, replacement)| <= MaxLength(text)
  }

  /** Whatever the current text, an accepted edit leaves at most 9 code units. */
  lemma AcceptedAtMostNine(text: Text, range: NSRange, replacement: Text)
    requires InRange(range, text)
    requires Accepts(text, range, replacement)
    ensures |ReplaceRange(text, range, replacement)| <= 9
  {
  }

  /** Deleting (an empty replacement) is accepted whenever the text is within its limit. */
  lemma DeletionAccepted(text: Text, range: NSRange)
    requires InRange(range, text)
    requires |text| <= MaxLength(text)
    ensures Accepts(text, range, [])
  {
  }

  /**
   * A text already at (or over) its limit rejects every edit that makes it
   * longer, e.g. one more character typed after `#12345678`.
   */
  lemma GrowingFullTextRejected(text: Text, range: NSRange, replacement: Text)
    requires InRange(range, text)
    requires |text| >= MaxLength(text)
    requires |replacement| > range.length
    ensures !Accepts(text, range, replacement)
  {
  }

  /**
   * The limit follows the current text, not the edited one: typing `#` in
   * front of 8 code units without `#` is rejected, although the edited text
   * starts with `#` and would be within the limit of 9 that `#` selects.
   */
  lemma HashInFrontOfEightRejected(text: Text)
    requires |text| == 8 && !HasHashPrefix(text)
    ensures !Accepts(text, NSRange(0, 0), [Hash])
    ensures HasHashPrefix(ReplaceRange(text, NSRange(0, 0), [Hash]))
    ensures |ReplaceRange(text, NSRange(0, 0), [Hash])| <= MaxLength(ReplaceRange(text, NSRange(0, 0), [Hash]))
  {
  }

  /**
   * For the same reason, overwriting the leading `#` of a 9-unit text with
   * another code unit is accepted and leaves 9 code units without `#`, one
   * more than a text without `#` may otherwise reach.
   */
  lemma HashOverwrittenKeepsNine(text: Text, c: CodeUnit)
    requires |text| == 9 && HasHashPrefix(text)
    requires c != Hash
    ensures Accepts(text, NSRange(0, 1), [c])
    ensures !HasHashPrefix(ReplaceRange(text, NSRange(0, 1), [c]))
    ensures |ReplaceRange(text, NSRange(0, 1), [c])| == 9 > MaxLength(ReplaceRange(text, NSRange(0, 1), [c]))
  {
  }

  /** One edit proposed to the text field: the range to replace and the replacement string. */
  datatype Edit = Edit(range: NSRange, replacement: Text)

  /** The text after the text field asks the guard about an edit and applies it only if accepted. */
  function ApplyIfAccepted(text: Text, e: Edit): (r: Text)
    requires InRange(e.range, text)
    ensures Accepts(text, e.range, e.replacement) ==> r == ReplaceRange(text, e.range, e.replacement)
    ensures !Accepts(text, e.range, e.replacement) ==> r == text
  {
    if Accepts(text, e.range, e.replacement) then ReplaceRange(text, e.range, e.replacement) else text
  }

  /** Every edit of the sequence lies within the text it is proposed against. */
  predicate EditsInRange(text: Text, edits: seq<Edit>)
    decreases |edits|
  {
    edits == [] ||
    (InRange(edits[0].range, text) && EditsInRange(ApplyIfAccepted(text, edits[0]), edits[1..]))
  }

  /** The text after a sequence of proposed edits, each filtered by the guard. */
  function Session(text: Text, edits: seq<Edit>): Text
    requires EditsInRange(text, edits)
    decreases |edits|
  {
    if edits == [] then text else Session(ApplyIfAccepted(text, edits[0]), edits[1..])
  }

  /** Starting from at most 9 code units, no sequence of edits gets past the guard to a longer text. */
  lemma {:induction false} SessionAtMostNine(text: Text, edits: seq<Edit>)
    requires EditsInRange(text, edits)
    requires |text| <= 9
    ensures |Session(text, edits)| <= 9
    decreases |edits|
  {
    if edits != [] {
      var next := ApplyIfAccepted(text, edits[0]);
      if Accepts(text, edits[0].range, edits[0].replacement) {
        AcceptedAtMostNine(text, edits[0].range, edits[0].replacement);
      }
      SessionAtMostNine(next, edits[1..]);
    }
  }

  /**
   * The text handed to the hex parser: the typed text with `#` put in front
   * unless it already starts with `#`.
   */
  function Normalize(text: Text): (r: Text)
    ensures HasHashPrefix(r)
    ensures r == text <==> HasHashPrefix(text)
    ensures r != text ==> r == [Hash] + text
  {
    if HasHashPrefix(text) then text else [Hash] + text
  }

  /** Normalising twice is normalising once. */
  lemma NormalizeIdempotent(text: Text)
    ensures Normalize(Normalize(text)) == Normalize(text)
  {
  }

  /** After the `#`, the parser sees the typed text without its own leading `#`, if any. */
  lemma NormalizeDigits(text: Text)
    ensures Normalize(text)[1..] == if HasHashPrefix(text) then text[1..] else text
  {
  }

  /**
   * Typing text that does not start with `#`, with or without one `#` in
   * front, hands the parser the same text.
   */
  lemma NormalizeAbsorbsHash(text: Text)
    requires !HasHashPrefix(text)
    ensures Normalize([Hash] + text) == Normalize(text)
  {
  }
}
