# FingerPrintMQTT: command tokens, ACK correlation and status fan-out in Dafny

FingerPrintMQTT drives a fingerprint sensor through an MQTT broker. Two
scripts make up its protocol logic, and this project models both:

- **The Flask web server** (`flask_mqtt_web/app.py`):
  - It keeps one shared status record with a state, an id and a confidence.
  - It rewrites that record whenever the device reports a detection ("ID detectado: <id>") or anything else.
  - It pushes the record into every open server-sent-events queue.
  - It publishes `C`/`D` command tokens, zero-padded to at least three digits, from the register and delete endpoints.
- **The command-line publisher** (`Raspberry/mqtt_client_pub.py`):
  - It reads an option and an id between 1 and 127.
  - It publishes the command `C<id>` or `D<id>`, with no padding.
  - It matches the device's `ACK: <token>` reply against the token it sent.
  - It takes the next non-ACK message as the final instruction.

## Layout

The project has seven modules:

- **Common**: `Option` and `Result`.
- **Text**: the Python `str` operations the scripts use, on ASCII. These are `in`, `split(':')`, `strip()`, `lower()`, `startswith`, `isdigit()`, `zfill(3)`, `int()` and `str(n)`.
  - `in`, `split`, `strip`, `lower`, `zfill`, `int()` and `str(n)` each have lemmas that characterise them independently of their definitions. For example, `strip` is the unique trimmed text inside whitespace padding, and `str(n)` is the only digit string for `n` without a leading zero.
  - `isdigit()` and `startswith` are plain definitions that the other contracts are stated in.
  - `int()` skips only the ASCII whitespace `\t \n \v \f \r` and space. It accepts single underscores between digits. It refuses numerals of more than 4300 digits (`sys.int_info.default_max_str_digits`), counting leading zeros.
- **Lists**: `list.remove`, and the first-occurrence search that `list.remove` and `str.split` share.
- **Command**: the two command kinds. It also defines `Reading`, which says which command a token names. Both producers' encoders are proved against `Reading`.
- **WebApp**: the code in app.py.
  - `NextStatus` is the classifier. It is a pure function.
  - The `Hub` class holds the module globals `current_status` and `clients`. Its method `OnMessage` updates the status in place and broadcasts it.
  - `SendEvent` loops over the registered queues.
  - `Subscribe` and `Unsubscribe` are the two ends of the event stream.
  - `EventQueue` is `queue.Queue(maxsize=5)`. It is a class because `clients.remove(q)` finds a queue by identity.
  - `CommandToken` gives the token that register and delete publish.
- **Publisher**: the code in mqtt_client_pub.py.
  - The `Correlator` class holds the four control globals. Its methods are `Send` (the reset before a publish) and `OnMessage` (the receive handler).
  - The pure helpers are the ACK check `Judge`, the option matcher `OptionKind`, and the id check `ValidateId`.
  - `AskId` is the prompt loop of `pedir_id`.
  - `ComposeCommand` builds the message.
- **Interop**: how the two producers' tokens relate.

## Behaviour worth noting

- **Non-numeric ids.** A detection whose id is not numeric still sets the state to `approved` and stores the raw id text. Only the database write checks `isdigit()`. See `NonNumericDetectionExample`.
- **Reports with no `':'`.** A marker with no `':'` raises IndexError at `parts[1]`, before the status changes or anything is broadcast. See `NextStatus` and `Hub.OnMessage`.
- **Ids too long for `int()`.** An all-digit id of more than 4300 digits is approved and written to the status. Then `int(fid)` raises ValueError while the detection is recorded, so the handler stops before `send_event` and no observer receives the new status. See `LongIdRaises` and `Hub.OnMessage`.
- **No timeouts, no guard, no dropping.** There are no timeouts, no guard against overlapping commands, and no dropping of queued events. A full queue blocks `put`.
- **Padding and range.** The two producers do not agree on padding. The web server also sends ids that the publisher refuses. See `ProducersAgreeOnMeaning` and `WebAcceptsOutOfRange`.

## Model

| member | source | states |
|---|---|---|
| `Text.StripOf` | FingerPrintMQTT/flask_mqtt_web/app.py:52 | `strip()` removes exactly the surrounding whitespace: for any whitespace `a`, `b` and any `r` with no whitespace at either end, it maps `a + r + b` to `r` |
| `Text.StripSpec` | FingerPrintMQTT/flask_mqtt_web/app.py:52 | the stripped text is no longer than the input, has no whitespace at either end, and holds only characters of the input |
| `Text.TrimLeftSpec` | FingerPrintMQTT/flask_mqtt_web/app.py:52 | the result is a suffix of the input, every character dropped is whitespace, and the result does not start with whitespace |
| `Text.TrimRightSpec` | FingerPrintMQTT/flask_mqtt_web/app.py:52 | the result is a prefix of the input, every character dropped is whitespace, and the result does not end with whitespace |
| `Text.TrimLeftOf` | FingerPrintMQTT/flask_mqtt_web/app.py:52 | removing leading whitespace from whitespace followed by `r` gives `r`, when `r` does not start with whitespace |
| `Text.TrimRightOf` | FingerPrintMQTT/flask_mqtt_web/app.py:52 | removing trailing whitespace from `r` followed by whitespace gives `r`, when `r` does not end with whitespace |
| `Text.Lower` | FingerPrintMQTT/Raspberry/mqtt_client_pub.py:67 | `lower()` keeps the length and lower-cases each character by itself |
| `Text.LowerChar` | FingerPrintMQTT/Raspberry/mqtt_client_pub.py:67 | the result is never an upper-case letter; an upper-case letter becomes the same letter in lower case; every other character is kept |
| `Text.StripPadding` | FingerPrintMQTT/Raspberry/mqtt_client_pub.py:67 | every line is its stripped text with whitespace in front and behind |
| `Text.LowerStripIs` | FingerPrintMQTT/Raspberry/mqtt_client_pub.py:67-69 | `line.strip().lower()` equals a trimmed word exactly when the line is that word, spelled in any letter case, with any whitespace around it |
| `Text.ContainsIff` | FingerPrintMQTT/flask_mqtt_web/app.py:50 | `sub in s` holds exactly when `sub` occurs at some position of `s` |
| `Text.ContainsInfix` | FingerPrintMQTT/flask_mqtt_web/app.py:50 | text placed anywhere inside a payload is found by `in` |
| `Text.Split` | FingerPrintMQTT/flask_mqtt_web/app.py:51 | `split(':')` always gives at least one part |
| `Text.SplitPartsFree` | FingerPrintMQTT/flask_mqtt_web/app.py:51 | no part that `split(':')` gives contains the separator |
| `Text.SplitJoin` | FingerPrintMQTT/flask_mqtt_web/app.py:51 | joining the parts with the separator gives back the original payload |
| `Text.SplitHasSecond` | FingerPrintMQTT/flask_mqtt_web/app.py:51-52 | field 1 exists exactly when the payload contains `':'` |
| `Text.FirstSeparator` | FingerPrintMQTT/flask_mqtt_web/app.py:51 | the first separator is the one right after a prefix that has none |
| `Text.FirstPart` | FingerPrintMQTT/flask_mqtt_web/app.py:51 | field 0 is the text before the first separator |
| `Text.SecondPart` | FingerPrintMQTT/flask_mqtt_web/app.py:51-52 | field 1 is the text between the first and the second `':'`, or runs to the end when there is no second one |
| `Text.DigitValue` | FingerPrintMQTT/Raspberry/mqtt_client_pub.py:46 | a digit character stands for a number below 10 |
| `Text.DigitChar` | FingerPrintMQTT/Raspberry/mqtt_client_pub.py:48 | the character written for a number below 10 is a digit that reads back as that number |
| `Text.Decimal` | FingerPrintMQTT/Raspberry/mqtt_client_pub.py:48 | `str(n)` is all digits, reads back as `n`, starts with `'0'` only for 0, and is one character long exactly when `n < 10` |
| `Text.PositiveValue` | FingerPrintMQTT/Raspberry/mqtt_client_pub.py:46-48 | a digit string that does not start with `'0'` denotes a positive number |
| `Text.CanonicalDecimal` | FingerPrintMQTT/Raspberry/mqtt_client_pub.py:48 | `str(n)` is the only way to write `n` without a leading zero: every digit string without one, or the single digit `"0"`, is the `str` of its own value |
| `Text.DecimalLength` | FingerPrintMQTT/Raspberry/mqtt_client_pub.py:48 | `str(n)` has at most two digits exactly when `n < 100`, and at most three exactly when `n < 1000` |
| `Text.Zeros` | FingerPrintMQTT/flask_mqtt_web/app.py:131 | the padding has the requested length and is all `'0'` |
| `Text.ZFill` | FingerPrintMQTT/flask_mqtt_web/app.py:131 | on a digit string, `zfill(w)` has length `max(w, len)`, ends with the original text, and everything before it is `'0'` |
| `Text.ZerosValue` | FingerPrintMQTT/flask_mqtt_web/app.py:131 | a string of zeros is all digits and denotes 0 |
| `Text.LeadingZeros` | FingerPrintMQTT/flask_mqtt_web/app.py:131 | leading zeros do not change the number a digit string stands for |
| `Text.ZFillValue` | FingerPrintMQTT/flask_mqtt_web/app.py:131 | zero-padding keeps the text all digits and keeps its number |
| `Text.IntTrimOf` | FingerPrintMQTT/Raspberry/mqtt_client_pub.py:46 | the whitespace `int()` skips is removed exactly: for such whitespace `a`, `b` and a text `r` with none at its ends, `a + r + b` is read as `r` |
| `Text.DigitsNumeral` | FingerPrintMQTT/Raspberry/mqtt_client_pub.py:46 | a plain digit string is a numeral for `int()`, and it denotes its usual value |
| `Text.DigitsOfAppend` | FingerPrintMQTT/Raspberry/mqtt_client_pub.py:46 | the digits of a concatenation are the digits of each part, in order |
| `Text.UnderscoreIgnored` | FingerPrintMQTT/Raspberry/mqtt_client_pub.py:46 | an underscore between two numerals is accepted and ignored: `int("1_000") == int("1000")` |
| `Text.ParseIntOf` | FingerPrintMQTT/Raspberry/mqtt_client_pub.py:46 | `int()` of whitespace, an optional `+` or `-`, a numeral and whitespace is the numeral's value, negated after `-`, when the numeral has at most 4300 digits; so `int("007") == 7`, `int("+7") == 7` and `int(" 12") == 12`. A longer numeral is refused |
| `Text.ParseUnsigned` | FingerPrintMQTT/Raspberry/mqtt_client_pub.py:46 | `int()` of an unsigned numeral with whitespace around it is the numeral's value, up to 4300 digits; a longer one is refused |
| `Text.ParseSigned` | FingerPrintMQTT/Raspberry/mqtt_client_pub.py:46 | the same with a leading `+` or `-`, and the value is negated after `-` |
| `Text.ParseDigits` | FingerPrintMQTT/Raspberry/mqtt_client_pub.py:46 | `int()` of a plain digit string is its value, up to 4300 digits; a longer one is refused |
| `Text.ParseIntShape` | FingerPrintMQTT/Raspberry/mqtt_client_pub.py:46 | `int()` succeeds only when the text left after its whitespace is skipped is a numeral, or a sign followed by a numeral, with at most 4300 digits; a negative value needs a leading `-` |
| `Text.SeparatorNotSkipped` | FingerPrintMQTT/Raspberry/mqtt_client_pub.py:46-52 | `int()` refuses `"\x1c5"` even though `strip()` would remove the separator: `int()` skips less whitespace than `strip()` |
| `Text.ParseDecimal` | FingerPrintMQTT/Raspberry/mqtt_client_pub.py:46-48 | `int(str(n)) == n` whenever `str(n)` has at most 4300 digits, whatever whitespace `int()` skips surrounds the text; longer ones are refused |
| `Lists.FirstIndex` | FingerPrintMQTT/flask_mqtt_web/app.py:51 | the index returned holds the element, and no earlier index does; `split(':')` cuts there, and `clients.remove(q)` (app.py:123) removes there |
| `Lists.RemoveFirst` | FingerPrintMQTT/flask_mqtt_web/app.py:123 | `remove(x)` leaves the list unchanged when `x` is absent; otherwise it is one element shorter and loses exactly one copy of `x` |
| `Lists.RemoveFirstKeepsOrder` | FingerPrintMQTT/flask_mqtt_web/app.py:123 | the elements before and after the removed one keep their order |
| `Lists.RemoveFirstDistinct` | FingerPrintMQTT/flask_mqtt_web/app.py:123 | removing from a list of distinct queues leaves no copy of the queue, and the rest stay distinct |
| `Lists.AppendThenRemove` | FingerPrintMQTT/flask_mqtt_web/app.py:116-123 | appending a new queue and then removing it gives back the registry as it was |
| `Command.ReadingOf` | FingerPrintMQTT/Raspberry/mqtt_client_pub.py:71-74 | `C`/`D` followed by digits reads back as that kind and that number |
| `WebApp.NextStatus` | FingerPrintMQTT/flask_mqtt_web/app.py:46-80 | the classification raises IndexError exactly when the marker is present and `':'` is absent; the confidence is never changed; the state is approved exactly when the marker is present; a payload without the marker gives rejected with id and confidence as before; an approved id is stripped and contains no `':'` |
| `WebApp.DetectionSetsId` | FingerPrintMQTT/flask_mqtt_web/app.py:50-54 | a marker payload sets the state to approved and the id to the stripped text between the first and second `':'`, whatever that text is |
| `WebApp.MarkerReport` | FingerPrintMQTT/flask_mqtt_web/app.py:50-54 | "ID detectado: " followed by a trimmed id with no `':'` approves exactly that id |
| `WebApp.NumericDetectionExample` | FingerPrintMQTT/flask_mqtt_web/app.py:50-54 | "ID detectado: 42" gives approved with id "42" |
| `WebApp.RecordError` | FingerPrintMQTT/flask_mqtt_web/app.py:59-61 | recording a detection raises ValueError exactly when the id is all digits and longer than the 4300-digit limit of `int()` |
| `WebApp.Raised` | FingerPrintMQTT/flask_mqtt_web/app.py:46-80 | the handler raises IndexError whenever the classification does, and raises nothing on a payload without the marker |
| `WebApp.LongIdRaises` | FingerPrintMQTT/flask_mqtt_web/app.py:50-61 | "ID detectado: " followed by an all-digit id of more than 4300 digits approves that id and then raises ValueError |
| `WebApp.ShortIdRecorded` | FingerPrintMQTT/flask_mqtt_web/app.py:50-75 | "ID detectado: 42" and "ID detectado: abc" are handled without raising |
| `WebApp.NonNumericDetectionExample` | FingerPrintMQTT/flask_mqtt_web/app.py:50-75 | "ID detectado: abc" still gives approved with id "abc"; only the database branch depends on `isdigit()` |
| `WebApp.BroadcastAllAppends` | FingerPrintMQTT/flask_mqtt_web/app.py:91-93 | after a series of broadcasts, each queue holds its old contents followed by exactly that series, in order; no queue is added or lost |
| `WebApp.EventQueue.constructor` | FingerPrintMQTT/flask_mqtt_web/app.py:116 | a new queue is empty and has the given capacity |
| `WebApp.EventQueue.Put` | FingerPrintMQTT/flask_mqtt_web/app.py:93 | `put` adds the item at the end |
| `WebApp.EventQueue.Get` | FingerPrintMQTT/flask_mqtt_web/app.py:120 | `get` returns the oldest item and removes it |
| `WebApp.Hub.constructor` | FingerPrintMQTT/flask_mqtt_web/app.py:35-39 | the server starts in state waiting, with no id, no confidence and no queues |
| `WebApp.Hub.SendEvent` | FingerPrintMQTT/flask_mqtt_web/app.py:91-93 | every registered queue gets the same snapshot at its end and keeps what it held before, in order; the registry is unchanged |
| `WebApp.Hub.OnMessage` | FingerPrintMQTT/flask_mqtt_web/app.py:46-80 | the handler raises exactly `Raised` of the old status and the payload; the status becomes `NextStatus` of the old status whenever the classification succeeds; on IndexError the status is unchanged; the new status is broadcast to every queue exactly when nothing is raised, and on any error no queue changes |
| `WebApp.Hub.Subscribe` | FingerPrintMQTT/flask_mqtt_web/app.py:116-117 | one fresh, empty queue of capacity 5 is added at the end of the registry; the other queues and the status are unchanged |
| `WebApp.Hub.Unsubscribe` | FingerPrintMQTT/flask_mqtt_web/app.py:123 | exactly that queue is removed and the order of the rest is kept; it reports whether the queue was registered |
| `WebApp.CommandToken` | FingerPrintMQTT/flask_mqtt_web/app.py:129-131 | a token is published exactly when the id is present, non-empty and all digits |
| `WebApp.CommandTokenSpec` | FingerPrintMQTT/flask_mqtt_web/app.py:129-147 | the token is the kind code followed by the id zero-padded to at least 3 characters, and it reads back as the same kind and the same number |
| `Publisher.AckContent` | FingerPrintMQTT/Raspberry/mqtt_client_pub.py:24 | the ACK content is what follows `"ACK: "` in the payload |
| `Publisher.AckOf` | FingerPrintMQTT/Raspberry/mqtt_client_pub.py:23-24 | a payload is an ACK with content `c` exactly when it equals `"ACK: " + c` |
| `Publisher.Judge` | FingerPrintMQTT/Raspberry/mqtt_client_pub.py:22-34 | a payload is taken as the final instruction exactly when it lacks the ACK prefix; before anything has been sent, no ACK is valid |
| `Publisher.AckValidIff` | FingerPrintMQTT/Raspberry/mqtt_client_pub.py:25-28 | an ACK is valid exactly when the payload is `"ACK: "` followed by the token last sent |
| `Publisher.OptionKindSpelled` | FingerPrintMQTT/Raspberry/mqtt_client_pub.py:67-77 | a kind is chosen exactly when the line is its word (`capture` or `delete`), spelled in any letter case, with any whitespace around it |
| `Publisher.OptionKindIgnoresSpace` | FingerPrintMQTT/Raspberry/mqtt_client_pub.py:67 | whitespace around the option does not change the choice |
| `Publisher.ValidateId` | FingerPrintMQTT/Raspberry/mqtt_client_pub.py:44-52 | an answer is accepted exactly when `int()` reads it as a number in 1..127 |
| `Publisher.ValidIdShape` | FingerPrintMQTT/Raspberry/mqtt_client_pub.py:46-48 | an accepted id is the plain decimal of a number in 1..127: digits only, no leading zero, at most 3 characters, and accepted again unchanged |
| `Publisher.ValidateIdValue` | FingerPrintMQTT/Raspberry/mqtt_client_pub.py:46-48 | an accepted answer is sent as digits that denote exactly the number `int()` read from it |
| `Publisher.LeadingZerosLimit` | FingerPrintMQTT/Raspberry/mqtt_client_pub.py:46-52 | an answer of zeros followed by `7` is accepted as `"7"` while it has at most 4300 digits, and refused beyond that |
| `Publisher.ValidateIdAccepts` | FingerPrintMQTT/Raspberry/mqtt_client_pub.py:46-48 | every number in 1..127 is accepted, with any whitespace that `int()` skips around it |
| `Publisher.AskId` | FingerPrintMQTT/Raspberry/mqtt_client_pub.py:42-52 | the prompt returns the first accepted answer after refusing all the ones before it, or nothing when no answer is accepted; an accepted id is digits naming 1..127 |
| `Publisher.Message` | FingerPrintMQTT/Raspberry/mqtt_client_pub.py:71-74 | the message names a command exactly when the id is digits, and then it names that kind and the id's number |
| `Publisher.MessageCanonical` | FingerPrintMQTT/Raspberry/mqtt_client_pub.py:71-74 | the message for an id `str(n)` is unpadded: of all tokens that name the same command, it is the only one whose digits do not start with `'0'` |
| `Publisher.ComposeCommand` | FingerPrintMQTT/Raspberry/mqtt_client_pub.py:67-77 | a message is produced exactly when the option is known and some answer is accepted; it is the kind code followed by the first accepted answer, after every earlier answer was refused; it reads back as the chosen kind with an id in 1..127 |
| `Publisher.Correlator.constructor` | FingerPrintMQTT/Raspberry/mqtt_client_pub.py:9-13 | nothing has been sent or received, and both events are clear |
| `Publisher.Correlator.Send` | FingerPrintMQTT/Raspberry/mqtt_client_pub.py:80-82 | the expected token is the message, both events are cleared, and the last instruction is kept |
| `Publisher.Correlator.OnMessage` | FingerPrintMQTT/Raspberry/mqtt_client_pub.py:16-34 | the verdict is `Judge` against the token sent; an ACK payload sets the ACK event whatever the verdict and leaves the instruction alone; any other payload becomes the last instruction, sets the instruction event, and leaves the ACK event and the sent token alone |
| `Publisher.Exchange` | FingerPrintMQTT/Raspberry/mqtt_client_pub.py:80-92 | round trip: after sending a token, the echo `"ACK: " + token` is judged valid and the next non-ACK message is kept as the final instruction, with both events set |
| `Interop.ProducersAgreeOnMeaning` | FingerPrintMQTT/flask_mqtt_web/app.py:131 | for ids 1..127, the web server's padded token and the publisher's unpadded one read back as the same command; the two texts are equal exactly from 100 upwards |
| `Interop.WebAcceptsOutOfRange` | FingerPrintMQTT/flask_mqtt_web/app.py:129 | the web server publishes a token for 0 and for ids above 127, which the publisher's prompt refuses |

## Left out

- Broker I/O is not modelled: connecting, subscribing, `publish`, `loop_forever` and `loop_start`. A published payload is the value a function returns. A received payload is a method argument.
- The MQTT thread, the daemon thread and the waits on `threading.Event` are concurrency and are not modelled. The events are booleans. The model does not capture a reply that arrives on the network thread while the main loop is between setting `last_message_sent` and clearing the events.
- Database work and `datetime.now()` are not modelled (SQLAlchemy queries, inserts and deletes). The one failure modelled in that branch is the ValueError of `int(fid)` at app.py:61. Any other exception there (a failed query or commit, app.py:57-73) would likewise propagate after the status was written at app.py:53-54 and before `send_event` at app.py:80. The schema file models.py is not part of this model.
- Flask routing, templates, `/status`, and the JSON and SSE rendering of the stream are not modelled.
- `input()` and `print` are not modelled. The lines the user types become parameters. The verdict that `on_message` prints becomes the returned `Reception`.
- `msg.payload.decode()` is not modelled: payloads are already text, and a decoding error is not represented.
- Python's Unicode rules for `isspace`, `isdigit`, `int()` and `lower()` are left out, because the protocol is ASCII. On non-ASCII input, `int()` would also accept Unicode whitespace and digits.
- Raspberry/mqtt_client.py and Raspberry/mqtt_client_sub.py only print and echo a constant. They are not part of this model.
- WebApp.EventQueue.Put: requires a free slot. The real `put` blocks on a full queue, and blocking is not modelled. `WebApp.Hub.SendEvent` and `WebApp.Hub.OnMessage` carry the same requirement.
- WebApp.EventQueue.Get: requires a queued item. The real `get` blocks on an empty queue.
- WebApp.Hub.SendEvent: puts a copy of the status into each queue. `send_event` puts the shared `current_status` dictionary itself, so a consumer that reads later sees whatever the dictionary holds at that moment. This aliasing is not modelled.
- WebApp.Hub.OnMessage: returns the error that would propagate out of the callback. It covers IndexError and the ValueError of `int(fid)`, but not database exceptions. On those the model broadcasts, where the program would raise after writing the status and broadcast nothing. What the MQTT library then does with the exception is not modelled.
- Publisher.AskId: reads a finite list of answers and returns None when they run out. The script keeps prompting until an answer is accepted, and stops with an uncaught EOFError from `input()` when its input ends.
- Publisher.ComposeCommand: models one pass of the main loop. The loop's repetition, and its restart after an unknown option, are not modelled.
