/**
 * The command tokens both producers publish on the `server/to/esp32` topic:
 * a one-letter kind code followed by decimal digits of the fingerprint id.
 * `Reading` is how a receiver makes sense of such a token; it is the
 * reference both encoders are proved against.
 */
module Command {
  import opened Common
  import opened Text

  datatype Kind = Capture | Delete

  /** 'C' for capture (enrol a fingerprint), 'D' for delete. */
  function KindCode(k: Kind): (c: char) {
    match k
    case Capture => 'C'
    case Delete => 'D'
  }

  /** The command a token denotes: its kind and the number its digits spell. */
  function Reading(token: string): (r: Option<(Kind, nat)>)
    ensures r.Some? ==> |token| >= 2 && token[0] == KindCode(r.value.0)
  {
    if |token| >= 2 && (token[0] == 'C' || token[0] == 'D') && IsDigits(token[1..]) then
      Some((if token[0] == 'C' then Capture else Delete, DigitsValue(token[1..])))
    else None
  }

  /** A kind code followed by any digit string is read back as that kind and that number. */
  lemma ReadingOf(k: Kind, digits: string)
    requires IsDigits(digits)
    ensures Reading([KindCode(k)] + digits) == Some((k, DigitsValue(digits)))
  {
    assert ([KindCode(k)] + digits)[1..] == digits;
  }
}
