/**
 * The hex colour view: the stored HSB colour components, the text typed in
 * its text field, the hex label it displays, and the handlers that update
 * them when the text is edited or the brightness changes.
 *
 * The hex parser, the RGB-to-HSB conversion and the hex formatter are not
 * part of this model; a view is given them as opaque functions when it is
 * created. The colour type is a type parameter for the same reason.
 */
module HexView {
  import opened Wrappers
  import opened TextEdit

  /** Hue, saturation, brightness and alpha, as the view stores them. */
  datatype HSB = HSB(hue: real, saturation: real, brightness: real, alpha: real)

  /** The components a new view starts with. */
  const InitialComponents: HSB := HSB(1.0, 1.0, 1.0, 1.0)

  /**
   * What the view does that is visible outside it, in order: a delegate
   * notification carrying the current colour, or a refresh of the swatch
   * and hex label from the current colour.
   */
  datatype Event = DidChangeColor(components: HSB) | Reloaded(components: HSB)

  /** The number of delegate notifications in a log. */
  function Notifications(log: seq<Event>): (n: nat)
    ensures n <= |log|
  {
    if log == [] then 0
    else Notifications(log[..|log| - 1]) + (if log[|log| - 1].DidChangeColor? then 1 else 0)
  }

  /** Counting notifications over two logs one after the other adds up. */
  lemma {:induction false} NotificationsAppend(a: seq<Event>, b: seq<Event>)
    ensures Notifications(a + b) == Notifications(a) + Notifications(b)
    decreases |b|
  {
    if b == [] {
      assert a + b == a;
    } else {
      assert (a + b)[..|a + b| - 1] == a + b[..|b| - 1];
      NotificationsAppend(a, b[..|b| - 1]);
    }
  }

  /**
   * The events one run of a change handler produces: a refresh by the colour
   * setter when the handler assigned a colour, the delegate notification when
   * a delegate is attached, and the final refresh.
   */
  function HandlerEvents(reloadedBySetter: bool, hasDelegate: bool, c: HSB): (log: seq<Event>)
    ensures Notifications(log) == if hasDelegate then 1 else 0
    ensures |log| > 0 && log[|log| - 1] == Reloaded(c)
  {
    var reload := if reloadedBySetter then [Reloaded(c)] else [];
    var notify := if hasDelegate then [DidChangeColor(c)] else [];
    assert Notifications(reload) == 0;
    assert Notifications(reload + notify) == Notifications(notify) by {
      NotificationsAppend(reload, notify);
    }
    NotificationsAppend(reload + notify, [Reloaded(c)]);
    reload + notify + [Reloaded(c)]
  }

  class EFHEXView<Color> {
    /** Parses a hex colour string; `None` when the string is not a colour. */
    const parse: Text -> Option<Color>
    /** Converts a colour to the HSB components the view stores. */
    const toHSB: Color -> HSB
    /** Formats the colour the components describe as a hex string. */
    const format: HSB -> Text

    /** Whether a delegate is attached (it is held weakly and may be absent). */
    var hasDelegate: bool
    /** The text currently in the text field. */
    var text: Text
    /** The stored colour. */
    var colorComponents: HSB
    /** The text of the hex label. */
    var hexLabel: Text
    /** Notifications sent and refreshes done, oldest first. */
    var events: seq<Event>

    /** The text field never holds more than 9 code units: the edit guard sees to it. */
    ghost predicate Valid()
      reads this
    {
      |text| <= 9
    }

    /** A new view: white, empty text field, no delegate, nothing displayed yet. */
    constructor (parse: Text -> Option<Color>, toHSB: Color -> HSB, format: HSB -> Text)
      ensures Valid()
      ensures this.parse == parse && this.toHSB == toHSB && this.format == format
      ensures !hasDelegate && text == [] && colorComponents == InitialComponents
      ensures hexLabel == [] && events == []
    {
      this.parse := parse;
      this.toHSB := toHSB;
      this.format := format;
      hasDelegate := false;
      text := [];
      colorComponents := InitialComponents;
      hexLabel := [];
      events := [];
    }

    /** Attaches or detaches the delegate. */
    method SetDelegate(present: bool)
      modifies this`hasDelegate
      ensures hasDelegate == present
    {
      hasDelegate := present;
    }

    /** Shows the stored colour: the swatch and the hex label are refreshed from it. */
    method ReloadData()
      modifies this`hexLabel, this`events
      ensures hexLabel == format(colorComponents)
      ensures events == old(events) + [Reloaded(colorComponents)]
    {
      hexLabel := format(colorComponents);
      events := events + [Reloaded(colorComponents)];
    }

    /** Assigns a colour: its HSB components are stored and then shown. */
    method SetColor(c: Color)
      modifies this`colorComponents, this`hexLabel, this`events
      ensures colorComponents == toHSB(c)
      ensures hexLabel == format(toHSB(c))
      ensures events == old(events) + [Reloaded(toHSB(c))]
    {
      colorComponents := toHSB(c);
      ReloadData();
    }

    /**
     * The editing-changed handler: the typed text, with `#` in front unless
     * it has one, is parsed; a colour that parses is assigned, otherwise the
     * stored colour stays. Either way the delegate (if any) is notified once
     * and the display is refreshed after that.
     */
    method ColorDidChangeValue()
      modifies this`colorComponents, this`hexLabel, this`events
      ensures parse(Normalize(text)).None? ==> colorComponents == old(colorComponents)
      ensures parse(Normalize(text)).Some? ==> colorComponents == toHSB(parse(Normalize(text)).value)
      ensures hexLabel == format(colorComponents)
      ensures events == old(events) + HandlerEvents(parse(Normalize(text)).Some?, hasDelegate, colorComponents)
      ensures Notifications(events) == Notifications(old(events)) + (if hasDelegate then 1 else 0)
    {
      var parsed := parse(Normalize(text));
      if parsed.Some? {
        SetColor(parsed.value);
      }
      if hasDelegate {
        events := events + [DidChangeColor(colorComponents)];
      }
      ReloadData();
      NotificationsAppend(old(events), HandlerEvents(parsed.Some?, hasDelegate, colorComponents));
    }

    /**
     * The brightness handler: only the brightness component takes the new
     * value; then the delegate (if any) is notified and the display refreshed.
     */
    method BrightnessDidChangeValue(value: real)
      modifies this`colorComponents, this`hexLabel, this`events
      ensures colorComponents.brightness == value
      ensures colorComponents.hue == old(colorComponents.hue)
      ensures colorComponents.saturation == old(colorComponents.saturation)
      ensures colorComponents.alpha == old(colorComponents.alpha)
      ensures hexLabel == format(colorComponents)
      ensures events == old(events) + HandlerEvents(false, hasDelegate, colorComponents)
    {
      colorComponents := colorComponents.(brightness := value);
      if hasDelegate {
        events := events + [DidChangeColor(colorComponents)];
      }
      ReloadData();
    }

    /**
     * The text field's question to its delegate: may `range` of the current
     * text be replaced by `replacement`? Yes exactly when the result is at
     * most 9 code units long if the current text starts with `#`, 8 if not.
     */
    method ShouldChangeCharactersIn(range: NSRange, replacement: Text) returns (accept: bool)
      requires InRange(range, text)
      ensures accept <==> |text| - range.length + |replacement| <= (if HasHashPrefix(text) then 9 else 8)
      ensures accept == Accepts(text, range, replacement)
    {
      var maxLength := if HasHashPrefix(text) then 9 else 8;
      var newString := ReplaceRange(text, range, replacement);
      accept := |newString| <= maxLength;
    }

    /**
     * One edit typed into the text field: the delegate is asked, and only an
     * accepted edit changes the text and raises the editing-changed event.
     */
    method UserEdit(range: NSRange, replacement: Text) returns (accepted: bool)
      requires Valid()
      requires InRange(range, text)
      modifies this`text, this`colorComponents, this`hexLabel, this`events
      ensures Valid()
      ensures accepted == Accepts(old(text), range, replacement)
      ensures text == ApplyIfAccepted(old(text), Edit(range, replacement))
      ensures !accepted ==> colorComponents == old(colorComponents) && events == old(events) && hexLabel == old(hexLabel)
      ensures accepted ==> hexLabel == format(colorComponents)
      ensures accepted && parse(Normalize(text)).None? ==> colorComponents == old(colorComponents)
      ensures accepted && parse(Normalize(text)).Some? ==> colorComponents == toHSB(parse(Normalize(text)).value)
      ensures accepted ==> events == old(events) + HandlerEvents(parse(Normalize(text)).Some?, hasDelegate, colorComponents)
    {
      accepted := ShouldChangeCharactersIn(range, replacement);
      if accepted {
        AcceptedAtMostNine(text, range, replacement);
        text := ReplaceRange(text, range, replacement);
        ColorDidChangeValue();
      }
    }
  }
}
