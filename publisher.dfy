/**
 * The command-line publisher (Raspberry/mqtt_client_pub.py): it reads an
 * option and an id, publishes the command token, and correlates the
 * device's "ACK: <token>" reply and the final instruction that follows,
 * through four module globals.
 */
module Publisher {
  import opened Common
  import opened Text
  import opened Command

  const AckPrefix := "ACK: "

  /** What the message handler makes of a payload (the verdict it prints). */
  datatype Reception = ValidAck | InvalidAck | Instruction

  // ---------------------------------------------------------------- replies

  predicate IsAck(payload: string) {
    StartsWith(payload, AckPrefix)
  }

  /** `payload[5:]`: what follows the acknowledgement prefix. */
  function AckContent(payload: string): (c: string)
    requires IsAck(payload)
    ensures AckPrefix + c == payload
  {
    payload[|AckPrefix|..]
  }

  /** A payload is an acknowledgement of `c` exactly when it is the prefix followed by `c`. */
  lemma AckOf(payload: string, c: string)
    ensures (IsAck(payload) && AckContent(payload) == c) <==> payload == AckPrefix + c
  {
    if payload == AckPrefix + c {
      assert payload[..|AckPrefix|] == AckPrefix;
      assert payload[|AckPrefix|..] == c;
    }
  }

  /** The handler's verdict on `payload` given the token last sent (none before the first send). */
  function Judge(payload: string, lastSent: Option<string>): (r: Reception)
    ensures r == Instruction <==> !IsAck(payload)
    ensures lastSent.None? ==> r != ValidAck
  {
    if IsAck(payload) then
      if Some(AckContent(payload)) == lastSent then ValidAck else InvalidAck
    else Instruction
  }

  /** An acknowledgement is valid exactly when it is "ACK: " followed by the
      token last sent, character for character. */
  lemma AckValidIff(payload: string, token: string)
    ensures Judge(payload, Some(token)) == ValidAck <==> payload == AckPrefix + token
  {
    AckOf(payload, token);
  }

  // ---------------------------------------------------------------- user input

  /** The option typed by the user, matched after stripping and lower-casing. */
  function OptionKind(line: string): (r: Option<Kind>)
    ensures r == Some(Capture) <==> Lower(Strip(line)) == "capture"
    ensures r == Some(Delete) <==> Lower(Strip(line)) == "delete"
  {
    var option := Lower(Strip(line));
    if option == "capture" then Some(Capture)
    else if option == "delete" then Some(Delete)
    else None
  }

  /** The word the user types for each kind. */
  function KindWord(k: Kind): (w: string)
    ensures w != [] && Trimmed(w)
  {
    match k
    case Capture => "capture"
    case Delete => "delete"
  }

  /** A kind is chosen exactly when the line spells its word, in any letter
      case, with any whitespace around it. */
  lemma OptionKindSpelled(line: string, k: Kind)
    ensures OptionKind(line) == Some(k) <==>
      exists a, w, b :: Padded(line, a, w, b) && SpellsIgnoringCase(w, KindWord(k))
  {
    LowerStripIs(line, KindWord(k));
  }

  /** Surrounding whitespace never changes the option chosen. */
  lemma OptionKindIgnoresSpace(a: string, word: string, b: string)
    requires AllSpace(a) && AllSpace(b) && Trimmed(word)
    ensures OptionKind(a + word + b) == OptionKind(word)
  {
    StripOf(a, word, b);
    assert [] + word + [] == word;
    StripOf([], word, []);
  }

  /** One answer to the id prompt: an integer in 1..127, rendered back as its
      plain decimal; anything else is refused and the prompt repeats. */
  function ValidateId(line: string): (r: Option<string>)
    ensures r.Some? <==> ParseInt(line).Some? && 1 <= ParseInt(line).value <= 127
  {
    match ParseInt(line)
    case Some(n) => if 1 <= n <= 127 then Some(Decimal(n)) else None
    case None => None
  }

  /** An accepted id is the canonical decimal of a number in 1..127: digits
      only, no leading zero, at most three characters, and accepted again
      unchanged. */
  lemma ValidIdShape(line: string)
    requires ValidateId(line).Some?
    ensures var t := ValidateId(line).value;
      && IsDigits(t) && 1 <= DigitsValue(t) <= 127
      && t[0] != '0' && |t| <= 3
      && ValidateId(t) == Some(t)
  {
    var n := ParseInt(line).value;
    var t := Decimal(n);
    DecimalLength(n);
    ParseDecimal([], n, []);
    assert [] + t + [] == t;
  }

  /** The accepted text denotes the very number `int()` read from the answer. */
  lemma ValidateIdValue(line: string)
    requires ValidateId(line).Some?
    ensures IsDigits(ValidateId(line).value)
    ensures DigitsValue(ValidateId(line).value) == ParseInt(line).value
  {
  }

  /** Every number in 1..127 is accepted, written with any surrounding whitespace. */
  lemma ValidateIdAccepts(a: string, n: nat, b: string)
    requires AllIntSpace(a) && AllIntSpace(b) && 1 <= n <= 127
    ensures ValidateId(a + Decimal(n) + b) == Some(Decimal(n))
  {
    DecimalLength(n);
    ParseDecimal(a, n, b);
  }

  /** Leading zeros are accepted and dropped, but they count towards the
      digit limit of `int()`: "0...07" is accepted as "7" up to
      `MaxStrDigits` digits in all, and refused beyond. */
  lemma LeadingZerosLimit(k: nat)
    ensures ValidateId(Zeros(k) + "7") == if k < MaxStrDigits then Some("7") else None
  {
    var d := Zeros(k) + "7";
    LeadingZeros(k, "7");
    assert |d| == k + 1 && IsDigits(d) && DigitsValue(d) == 7;
    ParseDigits(d);
    assert Decimal(7) == "7";
  }

  /** `pedir_id`: prompt until an answer is accepted. The answers are given
      as `lines`; `read` counts those consumed. When they run out without an
      accepted one the result is None; the script would instead stop with an
      uncaught end-of-input error from `input()`. */
  method AskId(lines: seq<string>) returns (id: Option<string>, read: nat)
    ensures read <= |lines|
    ensures id.None? ==> read == |lines| && forall i | 0 <= i < |lines| :: ValidateId(lines[i]).None?
    ensures id.Some? ==> 0 < read && id == ValidateId(lines[read - 1])
    ensures id.Some? ==> forall i | 0 <= i < read - 1 :: ValidateId(lines[i]).None?
    ensures id.Some? ==> IsDigits(id.value) && 1 <= DigitsValue(id.value) <= 127
  {
    read := 0;
    while read < |lines|
      invariant read <= |lines|
      invariant forall i | 0 <= i < read :: ValidateId(lines[i]).None?
    {
      var answer := ValidateId(lines[read]);
      if answer.Some? {
        id, read := answer, read + 1;
        ValidateIdValue(lines[read - 1]);
        return;
      }
      read := read + 1;
    }
    id := None;
  }

  /** The message for a kind: "C" or "D" followed by the id as given. It
      names a command exactly when the id is digits, and then the command of
      that kind and that number. */
  function Message(k: Kind, id: string): (m: string)
    ensures Reading(m) == if IsDigits(id) then Some((k, DigitsValue(id))) else None
  {
    var m := [KindCode(k)] + id;
    assert m[1..] == id;
    m
  }

  /** The message for an accepted id is unpadded: among all tokens naming the
      same command, it is the one whose digits have no leading zero. */
  lemma MessageCanonical(k: Kind, n: nat, token: string)
    requires n >= 1
    requires Reading(token) == Some((k, n)) && token[1] != '0'
    ensures Reading(Message(k, Decimal(n))) == Some((k, n))
    ensures Message(k, Decimal(n))[1] != '0'
    ensures token == Message(k, Decimal(n))
  {
    var m := Message(k, Decimal(n));
    assert m[1..] == Decimal(n);
    var d := token[1..];
    assert d[0] == token[1];
    CanonicalDecimal(d);
    assert token == [token[0]] + d;
  }

  /** One pass of the main loop up to the publish: choose the kind from the
      option line, then prompt for the id. An unknown option yields no
      message (the loop starts over). */
  method ComposeCommand(optionLine: string, idLines: seq<string>) returns (message: Option<string>)
    ensures message.Some? <==>
      OptionKind(optionLine).Some? && exists i | 0 <= i < |idLines| :: ValidateId(idLines[i]).Some?
    ensures message.Some? ==> exists i | 0 <= i < |idLines| ::
      && (forall j | 0 <= j < i :: ValidateId(idLines[j]).None?)
      && ValidateId(idLines[i]).Some?
      && message.value == [KindCode(OptionKind(optionLine).value)] + ValidateId(idLines[i]).value
    ensures message.Some? ==>
      && Reading(message.value).Some?
      && Reading(message.value).value.0 == OptionKind(optionLine).value
      && 1 <= Reading(message.value).value.1 <= 127
  {
    var kind := OptionKind(optionLine);
    if kind.None? {
      return None;
    }
    var id, read := AskId(idLines);
    if id.None? {
      return None;
    }
    message := Some(Message(kind.value, id.value));
    assert ValidateId(idLines[read - 1]).Some?;
  }

  // ---------------------------------------------------------------- correlation state

  /** The script's control globals: the token last published, the two
      events (modelled as flags) and the last final instruction. */
  class Correlator {
    var lastMessageSent: Option<string>
    var ackReceived: bool
    var instructionReceived: bool
    var lastInstruction: Option<string>

    constructor ()
      ensures lastMessageSent.None? && lastInstruction.None?
      ensures !ackReceived && !instructionReceived
    {
      lastMessageSent := None;
      ackReceived := false;
      instructionReceived := false;
      lastInstruction := None;
    }

    /** Before publishing: remember the token and clear both events. */
    method Send(message: string)
      modifies this
      ensures lastMessageSent == Some(message)
      ensures !ackReceived && !instructionReceived
      ensures lastInstruction == old(lastInstruction)
    {
      lastMessageSent := Some(message);
      ackReceived := false;
      instructionReceived := false;
    }

    /** `on_message`: an "ACK: " payload is judged against the token sent and
        sets the ACK event whatever the verdict; any other payload becomes
        the final instruction, whether or not an ACK came first. */
    method OnMessage(payload: string) returns (r: Reception)
      modifies this
      ensures r == Judge(payload, old(lastMessageSent))
      ensures lastMessageSent == old(lastMessageSent)
      ensures IsAck(payload) ==> ackReceived
      ensures IsAck(payload) ==> instructionReceived == old(instructionReceived) && lastInstruction == old(lastInstruction)
      ensures !IsAck(payload) ==> lastInstruction == Some(payload) && instructionReceived
      ensures !IsAck(payload) ==> ackReceived == old(ackReceived)
    {
      if StartsWith(payload, AckPrefix) {
        var ackContent := payload[5..];
        if Some(ackContent) == lastMessageSent {
          r := ValidAck;
        } else {
          r := InvalidAck;
        }
        ackReceived := true;
      } else {
        lastInstruction := Some(payload);
        instructionReceived := true;
        r := Instruction;
      }
    }
  }

  /** The send-and-wait step of the main loop when the device answers in
      order: the echo of the token is a valid ACK, and the next message is
      taken as the final instruction. */
  method Exchange(c: Correlator, message: string, instruction: string) returns (ack: Reception, final: Reception)
    requires !IsAck(instruction)
    modifies c
    ensures ack == ValidAck && final == Instruction
    ensures c.lastMessageSent == Some(message) && c.lastInstruction == Some(instruction)
    ensures c.ackReceived && c.instructionReceived
  {
    c.Send(message);
    AckValidIff(AckPrefix + message, message);
    ack := c.OnMessage(AckPrefix + message);
    final := c.OnMessage(instruction);
  }
}
