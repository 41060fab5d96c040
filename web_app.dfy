/**
 * The web server's side of the protocol (flask_mqtt_web/app.py): the shared
 * `current_status` record that device reports update, the list of
 * per-observer event queues every update is broadcast to, and the command
 * tokens the register and delete endpoints publish.
 */
module WebApp {
  import opened Common
  import opened Text
  import opened Lists
  import opened Command

  datatype State = Waiting | Approved | Rejected

  /** The `current_status` dictionary: exactly the keys state, id and confidence.
      The id is the text the device sent, not a number. */
  datatype Status = Status(state: State, id: Option<string>, confidence: Option<string>)

  const InitialStatus := Status(Waiting, None, None)

  /** The substring that marks a detection report from the device. */
  const DetectionMarker := "ID detectado"

  /** Capacity of each observer's queue. */
  const QueueMaxSize := 5

  /** What the message handler can raise: a report with the marker but no
      ':' has no field 1 (IndexError); an all-digit id too long for `int()`
      fails when the detection is recorded (ValueError). */
  datatype HandlerError = IndexError | ValueError

  // ---------------------------------------------------------------- classification

  /** The status after the message handler has processed `payload`, or the
      error it raises before touching the status. */
  function NextStatus(st: Status, payload: string): (r: Result<Status, HandlerError>)
    ensures r.Failure? <==> Contains(payload, DetectionMarker) && ':' !in payload
    ensures r.Success? ==> r.value.confidence == st.confidence
    ensures r.Success? ==> (r.value.state == Approved <==> Contains(payload, DetectionMarker))
    ensures !Contains(payload, DetectionMarker) ==> r == Success(Status(Rejected, st.id, st.confidence))
    ensures r.Success? && Contains(payload, DetectionMarker) ==>
              r.value.id.Some? && Trimmed(r.value.id.value) && ':' !in r.value.id.value
  {
    if Contains(payload, DetectionMarker) then
      var parts := Split(payload, ':');
      SplitHasSecond(payload, ':');
      if |parts| < 2 then Failure(IndexError)
      else
        var fid := Strip(parts[1]);
        SplitPartsFree(payload, ':');
        StripSpec(parts[1]);
        Success(st.(state := Approved, id := Some(fid)))
    else Success(st.(state := Rejected))
  }

  /** A detection report sets the state to approved and the id to the
      stripped text between the first and the second ':'; the confidence is
      kept. Whether that text is numeric plays no part. */
  lemma DetectionSetsId(st: Status, a: string, b: string, rest: string)
    requires ':' !in a && ':' !in b
    requires rest == [] || rest[0] == ':'
    requires Contains(a + [':'] + b + rest, DetectionMarker)
    ensures NextStatus(st, a + [':'] + b + rest) == Success(Status(Approved, Some(Strip(b)), st.confidence))
  {
    SecondPart(a, ':', b, rest);
  }

  /** The usual report shape: marker, ':', a space, then the id. */
  lemma MarkerReport(st: Status, id: string)
    requires ':' !in id && Trimmed(id)
    ensures NextStatus(st, DetectionMarker + ": " + id) == Success(Status(Approved, Some(id), st.confidence))
  {
    var p := DetectionMarker + ": " + id;
    ContainsInfix([], DetectionMarker, ": " + id);
    assert [] + DetectionMarker + (": " + id) == p;
    assert p == DetectionMarker + [':'] + (" " + id) + [];
    DetectionSetsId(st, DetectionMarker, " " + id, []);
    StripOf(" ", id, []);
    assert " " + id + [] == " " + id;
  }

  /** "ID detectado: 42" approves id "42". */
  lemma NumericDetectionExample(st: Status)
    ensures NextStatus(st, DetectionMarker + ": " + "42") == Success(Status(Approved, Some("42"), st.confidence))
  {
    MarkerReport(st, "42");
  }

  /** "ID detectado: abc" approves the non-numeric id "abc" all the same:
      only the database record depends on the id being numeric. */
  lemma NonNumericDetectionExample(st: Status)
    ensures !IsDigits("abc")
    ensures NextStatus(st, DetectionMarker + ": " + "abc") == Success(Status(Approved, Some("abc"), st.confidence))
  {
    assert !IsDigit("abc"[0]);
    MarkerReport(st, "abc");
  }

  /** The error recording a detection raises for id `fid`: `int(fid)` is
      reached only for an all-digit id, and fails only beyond the digit
      limit. The database itself is not modelled. */
  function RecordError(fid: string): (r: Option<HandlerError>)
    ensures r.Some? <==> IsDigits(fid) && |fid| > MaxStrDigits
    ensures r.Some? ==> r.value == ValueError
  {
    if IsDigits(fid) then
      ParseDigits(fid);
      if ParseInt(fid).None? then Some(ValueError) else None
    else None
  }

  /** What the handler raises on `payload`: the IndexError of the
      classification, or else the error of recording an approved id. */
  function Raised(st: Status, payload: string): (r: Option<HandlerError>)
    ensures NextStatus(st, payload).Failure? ==> r == Some(IndexError)
    ensures !Contains(payload, DetectionMarker) ==> r.None?
  {
    match NextStatus(st, payload)
    case Failure(e) => Some(e)
    case Success(next) => if next.state == Approved then RecordError(next.id.value) else None
  }

  /** A detection of an all-digit id longer than `int()` accepts approves it
      and then raises: the status is written, and the handler stops before
      the broadcast. */
  lemma LongIdRaises(st: Status, id: string)
    requires IsDigits(id) && |id| > MaxStrDigits
    ensures NextStatus(st, DetectionMarker + ": " + id) == Success(Status(Approved, Some(id), st.confidence))
    ensures Raised(st, DetectionMarker + ": " + id) == Some(ValueError)
  {
    assert ':' !in id by {
      forall i | 0 <= i < |id| ensures id[i] != ':' {
        assert IsDigit(id[i]);
      }
    }
    MarkerReport(st, id);
  }

  /** "ID detectado: 42" is recorded without error, and so is "ID detectado: abc"
      (it is not all digits, so `int()` is never called). */
  lemma ShortIdRecorded(st: Status)
    ensures Raised(st, DetectionMarker + ": " + "42").None?
    ensures Raised(st, DetectionMarker + ": " + "abc").None?
  {
    NumericDetectionExample(st);
    NonNumericDetectionExample(st);
  }

  // ---------------------------------------------------------------- fan-out

  /** Every queue receives `x` at its end. */
  function Broadcast(qs: seq<seq<Status>>, x: Status): (r: seq<seq<Status>>) {
    seq(|qs|, i requires 0 <= i < |qs| => qs[i] + [x])
  }

  /** Successive broadcasts of `es`. */
  function BroadcastAll(qs: seq<seq<Status>>, es: seq<Status>): (r: seq<seq<Status>>)
    decreases |es|
  {
    if es == [] then qs else BroadcastAll(Broadcast(qs, es[0]), es[1..])
  }

  /** After broadcasting a series of snapshots, every queue holds what it
      held before followed by exactly that series, in order; no queue is
      added or lost. */
  lemma {:induction false} BroadcastAllAppends(qs: seq<seq<Status>>, es: seq<Status>)
    ensures |BroadcastAll(qs, es)| == |qs|
    ensures forall k | 0 <= k < |qs| :: BroadcastAll(qs, es)[k] == qs[k] + es
    decreases |es|
  {
    if es == [] {
      forall k | 0 <= k < |qs| ensures qs[k] + es == qs[k] { }
    } else {
      var next := Broadcast(qs, es[0]);
      BroadcastAllAppends(next, es[1..]);
      forall k | 0 <= k < |qs| ensures BroadcastAll(qs, es)[k] == qs[k] + es {
        assert next[k] + es[1..] == qs[k] + ([es[0]] + es[1..]);
        assert [es[0]] + es[1..] == es;
      }
    }
  }

  /** One observer's `queue.Queue(maxsize=5)`. Blocking on a full or an
      empty queue is not modelled: `Put` and `Get` require room and an item. */
  class EventQueue {
    const maxSize: nat
    var items: seq<Status>

    constructor (maxSize: nat)
      ensures this.maxSize == maxSize && items == []
    {
      this.maxSize := maxSize;
      items := [];
    }

    method Put(x: Status)
      requires |items| < maxSize
      modifies this
      ensures items == old(items) + [x]
    {
      items := items + [x];
    }

    method Get() returns (x: Status)
      requires items != []
      modifies this
      ensures x == old(items)[0] && items == old(items)[1..]
    {
      x := items[0];
      items := items[1..];
    }
  }

  /** The module state of the web server: the current status and the list
      of observer queues. */
  class Hub {
    var currentStatus: Status
    var clients: seq<EventQueue>

    /** Each queue is registered once, and every queue has the fixed capacity. */
    ghost predicate Valid()
      reads this
    {
      Distinct(clients) && forall q | q in clients :: q.maxSize == QueueMaxSize
    }

    /** No registered queue is full, so a broadcast does not block. */
    predicate HasRoom()
      reads this, clients
    {
      forall q | q in clients :: |q.items| < q.maxSize
    }

    /** The contents of the registered queues, in registry order. */
    ghost function Queued(): (r: seq<seq<Status>>)
      reads this, clients
    {
      seq(|clients|, i requires 0 <= i < |clients| reads this, clients => clients[i].items)
    }

    constructor ()
      ensures Valid()
      ensures currentStatus == InitialStatus && clients == []
    {
      currentStatus := InitialStatus;
      clients := [];
    }

    /** `send_event`: put the same snapshot at the end of every registered
        queue, in registry order; the registry itself is unchanged. */
    method SendEvent(data: Status)
      requires Valid() && HasRoom()
      modifies clients
      ensures forall k | 0 <= k < |clients| :: clients[k].items == old(clients[k].items) + [data]
      ensures Queued() == Broadcast(old(Queued()), data)
    {
      var i := 0;
      while i < |clients|
        invariant 0 <= i <= |clients|
        invariant forall k | 0 <= k < i :: clients[k].items == old(clients[k].items) + [data]
        invariant forall k | i <= k < |clients| :: clients[k].items == old(clients[k].items)
      {
        clients[i].Put(data);
        i := i + 1;
      }
    }

    /** `on_message`: classify the report and update the status in place,
        record an approved id, then broadcast the status. A marker without
        ':' raises before anything changes; an id that `int()` refuses
        raises after the status was written and before the broadcast. */
    method OnMessage(payload: string) returns (raised: Option<HandlerError>)
      requires Valid()
      requires NextStatus(currentStatus, payload).Success? ==> HasRoom()
      modifies this, clients
      ensures Valid() && clients == old(clients)
      ensures raised == Raised(old(currentStatus), payload)
      ensures NextStatus(old(currentStatus), payload).Success? ==>
                currentStatus == NextStatus(old(currentStatus), payload).value
      ensures NextStatus(old(currentStatus), payload).Failure? ==> currentStatus == old(currentStatus)
      ensures raised.None? ==> Queued() == Broadcast(old(Queued()), currentStatus)
      ensures raised.Some? ==> Queued() == old(Queued())
    {
      if Contains(payload, DetectionMarker) {
        var parts := Split(payload, ':');
        if |parts| < 2 {
          return Some(IndexError);
        }
        var fid := Strip(parts[1]);
        currentStatus := currentStatus.(state := Approved, id := Some(fid));
        var recordError := RecordError(fid);
        if recordError.Some? {
          return recordError;
        }
      } else {
        currentStatus := currentStatus.(state := Rejected);
      }
      SendEvent(currentStatus);
      raised := None;
    }

    /** Opening the event stream: a fresh empty queue of capacity 5 is appended. */
    method Subscribe() returns (q: EventQueue)
      requires Valid()
      modifies this
      ensures Valid() && fresh(q)
      ensures q.maxSize == QueueMaxSize && q.items == []
      ensures clients == old(clients) + [q]
      ensures Queued() == old(Queued()) + [[]]
      ensures currentStatus == old(currentStatus)
    {
      q := new EventQueue(QueueMaxSize);
      clients := clients + [q];
    }

    /** Leaving the event stream: `clients.remove(q)` drops exactly that queue
        (Python raises when it is absent, and nothing changes). */
    method Unsubscribe(q: EventQueue) returns (found: bool)
      requires Valid()
      modifies this
      ensures Valid()
      ensures found <==> q in old(clients)
      ensures clients == RemoveFirst(old(clients), q) && q !in clients
      ensures currentStatus == old(currentStatus)
    {
      found := q in clients;
      RemoveFirstDistinct(clients, q);
      clients := RemoveFirst(clients, q);
    }
  }

  // ---------------------------------------------------------------- commands

  /** The payload the register (capture) and delete endpoints publish for the
      form field `id`: nothing unless it is present and all digits. */
  function CommandToken(k: Kind, fid: Option<string>): (r: Option<string>)
    ensures r.Some? <==> fid.Some? && IsDigits(fid.value)
  {
    if fid.Some? && IsDigits(fid.value) then Some([KindCode(k)] + ZFill(fid.value, 3)) else None
  }

  /** An accepted id is sent as the kind code followed by the id left-padded
      with '0' to at least 3 characters; the token reads back as the same
      kind and the same number. */
  lemma CommandTokenSpec(k: Kind, fid: string)
    requires IsDigits(fid)
    ensures CommandToken(k, Some(fid)) == Some([KindCode(k)] + ZFill(fid, 3))
    ensures |ZFill(fid, 3)| == if |fid| < 3 then 3 else |fid|
    ensures Reading([KindCode(k)] + ZFill(fid, 3)) == Some((k, DigitsValue(fid)))
  {
    var z := ZFill(fid, 3);
    ZFillValue(fid, 3);
    assert IsDigits(z);
    ReadingOf(k, z);
  }
}
