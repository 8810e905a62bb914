# EFHEXView text entry, modelled in Dafny

`EFHEXView` is the hex-code tab of the EFColorPicker colour picker: a colour
swatch, a label showing the current colour as a hex string, and a text field
in which the user types a hex code. This project models the part of the view
that has behaviour of its own:

- the text field delegate's **length guard**, which accepts a proposed edit
  only if the edited text has at most 9 UTF-16 code units when the *current*
  text starts with `#`, and at most 8 otherwise (`text_edit.dfy`);
- the **`#` normalisation** of the typed text before it is parsed
  (`text_edit.dfy`);
- the view's state and its handlers (`hex_view.dfy`): the stored HSB
  components, the editing-changed handler that parses the text and either
  stores the parsed colour or keeps the old one, the brightness handler
  (`ef_brightnessDidChangeValue`, EFColorPicker/Classes/EFHEXView.swift:187,
  which this file never registers as a target of any control), the colour
  setter and `reloadData`. Delegate notifications and display refreshes
  are recorded, in order, in an event log, so "the delegate is told exactly
  once, then the display is refreshed" is a statement about that log.

Text is a sequence of UTF-16 code units (`TextEdit.CodeUnit`), because
`NSString.length` and `NSRange` count code units. The hex parser
(`EFColorFromHexString`), the RGB-to-HSB conversion (`EFRGB2HSB` of
`EFRGBColorComponents`) and the hex formatter (`EFHexStringFromColor` of the
`color` getter) are not part of this model: a view is created with three
opaque functions standing for them, and the colour type is a type parameter.

The editing-changed handler notifies the delegate on every event, also when
the text does not parse (EFColorPicker/Classes/EFHEXView.swift:183). Because
the colour setter itself calls `reloadData` (:43), a successful parse refreshes the display twice: once
inside the setter, once at :184.

Two consequences of the guard choosing its limit from the current text are
proved: typing `#` in front of 8 code units is rejected although the result
would start with `#` (`HashInFrontOfEightRejected`), and overwriting the `#`
of a 9-unit text with another character is accepted and leaves 9 units
without `#` (`HashOverwrittenKeepsNine`). So the guard keeps every text at 9
code units or fewer (`SessionAtMostNine`), but not at 8 for texts without `#`.

## Model

| member | source | states |
|---|---|---|
| `TextEdit.ReplaceRange` | EFColorPicker/Classes/EFHEXView.swift:196 | the edited text has length current − range length + replacement length; the code units before the range and after it are preserved and the replacement sits in between |
| `TextEdit.ReplaceRangeAt` | EFColorPicker/Classes/EFHEXView.swift:196 | every code unit of the edited text, by position, is the old text's unit before the range, the replacement's inside it, or the old text's unit shifted by the length difference after it |
| `TextEdit.ReplaceRangeUndo` | EFColorPicker/Classes/EFHEXView.swift:196 | replacing the inserted replacement by the removed code units restores the original text |
| `TextEdit.Accepts` | EFColorPicker/Classes/EFHEXView.swift:193-198 | an edit is accepted iff the resulting length is at most 9 when the current text starts with `#` and at most 8 otherwise |
| `TextEdit.AcceptedAtMostNine` | EFColorPicker/Classes/EFHEXView.swift:195-197 | whatever the current text, an accepted edit leaves at most 9 code units |
| `TextEdit.DeletionAccepted` | EFColorPicker/Classes/EFHEXView.swift:195-197 | any deletion (empty replacement) is accepted when the current text is within its limit |
| `TextEdit.GrowingFullTextRejected` | EFColorPicker/Classes/EFHEXView.swift:195-197 | a text at or over its limit rejects every edit that lengthens it (e.g. typing after `#12345678`) |
| `TextEdit.HashInFrontOfEightRejected` | EFColorPicker/Classes/EFHEXView.swift:195-197 | the limit follows the current text: `#` typed before 8 units without `#` is rejected, though the result starts with `#` and is within the limit `#` would select |
| `TextEdit.HashOverwrittenKeepsNine` | EFColorPicker/Classes/EFHEXView.swift:195-197 | overwriting the leading `#` of a 9-unit text with another unit is accepted and leaves 9 units without `#`, over the 8 such a text otherwise gets |
| `TextEdit.ApplyIfAccepted` | EFColorPicker/Classes/EFHEXView.swift:193-198 | after the guard, the text is exactly the edited text when the guard accepts the edit, and unchanged when it rejects it |
| `TextEdit.SessionAtMostNine` | EFColorPicker/Classes/EFHEXView.swift:193-198 | from a text of at most 9 units, any sequence of edits filtered by the guard ends at most 9 units long |
| `TextEdit.Normalize` | EFColorPicker/Classes/EFHEXView.swift:179 | the text handed to the parser always starts with `#`; it equals the typed text iff that already starts with `#`, and is otherwise exactly `#` followed by the typed text |
| `TextEdit.NormalizeIdempotent` | EFColorPicker/Classes/EFHEXView.swift:179 | normalising twice equals normalising once |
| `TextEdit.NormalizeDigits` | EFColorPicker/Classes/EFHEXView.swift:179 | after its `#`, the parser sees the typed text minus its own leading `#`, if any |
| `TextEdit.NormalizeAbsorbsHash` | EFColorPicker/Classes/EFHEXView.swift:179 | a text without `#` typed with or without one leading `#` reaches the parser as the same string |
| `HexView.HandlerEvents` | EFColorPicker/Classes/EFHEXView.swift:179-184 | one run of a change handler logs exactly one delegate notification when a delegate is attached (none otherwise) and ends with a display refresh of the current colour |
| `HexView.EFHEXView.constructor` | EFColorPicker/Classes/EFHEXView.swift:19-22 | a new view stores HSB(1, 1, 1, 1), has an empty text field, no delegate and has displayed nothing |
| `HexView.EFHEXView.SetDelegate` | EFColorPicker/Classes/EFHEXView.swift:22 | attaching or detaching the delegate changes nothing else |
| `HexView.EFHEXView.ReloadData` | EFColorPicker/Classes/EFHEXView.swift:57-62 | the label shows the formatted stored colour and one refresh of that colour is logged; the stored colour is unchanged |
| `HexView.EFHEXView.SetColor` | EFColorPicker/Classes/EFHEXView.swift:41-44 | the stored components become the conversion of the assigned colour, which is then displayed |
| `HexView.EFHEXView.ColorDidChangeValue` | EFColorPicker/Classes/EFHEXView.swift:178-185 | a normalised text the parser rejects leaves the stored colour unchanged; one it accepts stores the parsed colour's components; either way the delegate (if any) is notified exactly once and the display is refreshed after that |
| `HexView.EFHEXView.BrightnessDidChangeValue` | EFColorPicker/Classes/EFHEXView.swift:187-191 | only the brightness changes (hue, saturation and alpha are kept); then one notification and a refresh |
| `HexView.EFHEXView.ShouldChangeCharactersIn` | EFColorPicker/Classes/EFHEXView.swift:193-198 | the delegate answer is yes iff the edited text is at most 9 units long when the current text starts with `#`, 8 otherwise |
| `HexView.EFHEXView.UserEdit` | EFColorPicker/Classes/EFHEXView.swift:88-94 | an edit typed into the field changes the text and runs the editing-changed handler only when the guard accepts it (so the label then shows the stored colour); a rejected edit changes neither text, colour, label nor log; the field's text stays at most 9 units |

## Left out

- Auto Layout (`updateConstraints`, `ef_updateConstraints` and the two size-class constraint builders) and view setup in `ef_baseInit` apart from its two wirings: UIKit layout with no behaviour to state.
- Accessibility labels and values, the `isTouched` property and the weak delegate's lifetime: UIKit state and memory management; the delegate is modelled as present or absent.
- The `color` getter and the HSB/RGB conversions: floating-point `CGFloat` arithmetic in code that is not part of this model. Colour is a type parameter; the delegate notification is logged with the stored HSB components from which the getter builds the colour it passes.
- Which hex strings parse, and to which colour: `EFColorFromHexString` is not part of this model, so the parser is an opaque function. The round trip between assigning a colour and reading it back is not stated for the same reason.
- CGFloat components are modelled as unbounded reals; the brightness handler's sender is reduced to the value it carries.
- `hasPrefix("#")` is modelled as "the first UTF-16 code unit is U+0023". `NSString.hasPrefix` (:195) compares code units, but Swift's `String.hasPrefix` (:179) compares whole characters, so a `#` followed by a combining mark counts as a prefix in the model at :179 where Swift would not count it.
- `textField.text` is modelled as never nil: the `if let` at :179 skips the parse when the text is nil (the handler still notifies and refreshes), but UITextField never reports nil text, so the model has no nil case; the force-unwrap at :194 relies on the same. An NSRange outside the text is excluded by a precondition, since `replacingCharacters(in:with:)` traps on it.
- HexView.EFHEXView.UserEdit: models how UIKit uses the guard, which is outside this file; it assumes every accepted edit raises the editing-changed event, also one that leaves the text as it was.
