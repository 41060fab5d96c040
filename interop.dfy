/**
 * How the two producers of command tokens relate. The web server pads the id
 * to three digits; the command-line publisher sends it unpadded and only
 * for ids in 1..127. Both tokens name the same command, yet they are not the
 * same text below 100, and the web server sends ids the publisher refuses.
 */
module Interop {
  import opened Common
  import opened Text
  import opened Command
  import opened WebApp
  import opened Publisher

  /** For an id the publisher accepts, both producers' tokens read back as
      the same command; the texts coincide exactly from 100 upwards. */
  lemma ProducersAgreeOnMeaning(k: Kind, n: nat)
    requires 1 <= n <= 127
    ensures Reading(Message(k, Decimal(n))) == Some((k, n))
    ensures CommandToken(k, Some(Decimal(n))).Some?
    ensures Reading(CommandToken(k, Some(Decimal(n))).value) == Some((k, n))
    ensures CommandToken(k, Some(Decimal(n))).value == Message(k, Decimal(n)) <==> n >= 100
  {
    var d := Decimal(n);
    CommandTokenSpec(k, d);
    ReadingOf(k, d);
    DecimalLength(n);
    if n < 100 {
      assert |CommandToken(k, Some(d)).value| == 4 != |Message(k, d)|;
    }
  }

  /** The web server publishes a token for 0 and for every number above 127,
      which the publisher's id prompt refuses. */
  lemma WebAcceptsOutOfRange(k: Kind, n: nat)
    requires n == 0 || n > 127
    ensures CommandToken(k, Some(Decimal(n))).Some?
    ensures ValidateId(Decimal(n)).None?
  {
    ParseDecimal([], n, []);
    assert [] + Decimal(n) + [] == Decimal(n);
  }
}
