/**
 * A WhatsApp webhook body after JSON decoding, and the field checks both parsers apply to it.
 * Characters of a string stand for its bytes.
 */
module WebhookEnvelope {
  import opened Prelude
  import opened Digits
  import Uuids

  const MAX_WEBHOOK_BYTES := 256 * 1024
  const MAX_EVENTS := 100
  const INT64_LIMIT := 0x8000_0000_0000_0000

  datatype Error = Invalid | Unsupported

  datatype Result<+T> = Ok(value: T) | Err(error: Error)

  datatype Contact = Contact(waId: string, name: string)

  datatype Message = Message(from: string, id: string, timestamp: string, kind: string, body: string)

  /** The callback datum of a status: missing, JSON other than a string, or a string (null reads as ""). */
  datatype Opaque = Missing | NotText | Text(text: string)

  datatype Status = Status(id: string, recipientId: string, status: string, timestamp: string, opaqueData: Opaque)

  datatype Change = Change(field: string, product: string, phoneId: string, contacts: seq<Contact>,
                           messages: seq<Message>, statuses: seq<Status>, errors: nat)

  datatype Entry = Entry(id: string, changes: seq<Change>)

  /**
   * One body. The three readers decode it into three shapes, and each flag says whether that succeeds;
   * the router's shape leaves the statuses undecoded, so it accepts whatever the status shape accepts.
   */
  datatype Envelope = Envelope(length: nat, object_: string, entries: seq<Entry>,
                               messageShape: bool, statusShape: bool, routerShape: bool)
  {
    ghost predicate Valid() {
      statusShape ==> routerShape
    }
  }

  // ---------- field checks ----------

  predicate NumericId(s: string) {
    1 <= |s| <= 100 && AllDigits(s)
  }

  /** Decimal text of an int64, with an optional sign. */
  function ParseInt64(s: string): Option<int> {
    var signed := s != "" && (s[0] == '+' || s[0] == '-');
    var digits := if signed then s[1..] else s;
    if digits == "" || !AllDigits(digits) then None
    else
      var n: int := DecVal(digits);
      if signed && s[0] == '-' then (if n <= INT64_LIMIT then Some(-n) else None)
      else if n < INT64_LIMIT then Some(n) else None
  }

  predicate PositiveTimestamp(s: string) {
    ParseInt64(s).Some? && ParseInt64(s).value > 0
  }

  predicate ValidMessageId(id: string) {
    && "wamid." < id
    && |id| <= 255
    && forall c | c in id :: '!' <= c <= '~'
  }

  /** A UUID other than the nil one, in the only spelling its String method prints. */
  predicate ValidAttemptId(id: string) {
    Uuids.Canonical(id) && id != Uuids.NIL
  }

  function NormalizeTextStatus(provider: string, status: string): Option<string> {
    if status in {"accepted", "queued", "sending"} then
      if provider == "twilio" then Some("provider_accepted") else None
    else if status in {"sent", "delivered"} then
      if provider == "twilio" || provider == "whatsapp" then Some(status) else None
    else if status == "read" then
      if provider == "whatsapp" then Some(status) else None
    else if status == "failed" then
      if provider == "twilio" || provider == "whatsapp" then Some("failed") else None
    else if status == "undelivered" then
      if provider == "twilio" then Some("failed") else None
    else None
  }

  // ---------- collecting ----------

  /** What a parser makes of one place in the document: an event or a reason to reject the whole batch. */
  datatype Item<+E> = Good(event: E) | Bad(error: Error)

  /** Reads items in order; the first bad one and the first event beyond the limit end the batch. */
  function Collect<E>(events: seq<E>, items: seq<Item<E>>): Result<seq<E>>
    decreases |items|
  {
    if items == [] then Ok(events)
    else match items[0]
      case Bad(error) => Err(error)
      case Good(e) =>
        if |events| + 1 > MAX_EVENTS then Err(Invalid) else Collect(events + [e], items[1..])
  }

  ghost predicate AllEvents<E(!new)>(items: seq<Item<E>>, events: seq<E>) {
    |items| == |events| && forall i | 0 <= i < |items| :: items[i] == Good(events[i])
  }

  /** A batch succeeds exactly when every item is an event and there are at most a hundred; it returns all of them. */
  lemma {:induction false} CollectSucceeds<E(!new)>(before: seq<E>, items: seq<Item<E>>, events: seq<E>)
    requires |before| <= MAX_EVENTS
    ensures Collect(before, items) == Ok(before + events)
       <==> AllEvents(items, events) && |before| + |items| <= MAX_EVENTS
    decreases |items|
  {
    if items == [] {
      if before + events == before {
        assert |before + events| == |before|;
      }
    } else if items[0].Good? && |before| + 1 <= MAX_EVENTS {
      var e := items[0].event;
      if events != [] && events[0] == e {
        CollectSucceeds(before + [e], items[1..], events[1..]);
        assert before + [e] + events[1..] == before + events;
        assert AllEvents(items, events) ==> AllEvents(items[1..], events[1..]);
        if AllEvents(items[1..], events[1..]) {
          forall i | 0 <= i < |items|
            ensures items[i] == Good(events[i])
          {
            if i > 0 {
              assert items[1..][i - 1] == Good(events[1..][i - 1]);
            }
          }
        }
      } else {
        CollectExtends(before + [e], items[1..]);
        PrefixNames(before, e, events);
      }
    }
  }

  lemma PrefixNames<E>(before: seq<E>, e: E, events: seq<E>)
    ensures before + [e] <= before + events ==> events != [] && events[0] == e
  {
    assert before + [e] <= before + events ==> (before + [e])[|before|] == (before + events)[|before|];
  }

  lemma {:induction false} CollectExtends<E>(before: seq<E>, items: seq<Item<E>>)
    ensures Collect(before, items).Ok? ==> before <= Collect(before, items).value
    decreases |items|
  {
    if items != [] && items[0].Good? {
      CollectExtends(before + [items[0].event], items[1..]);
    }
  }

  /** The place that decides a rejection: the first bad item, or the first event beyond the limit. */
  ghost predicate DecidedAt<E(!new)>(items: seq<Item<E>>, k: nat, used: nat, error: Error) {
    && k < |items|
    && used + k <= MAX_EVENTS
    && (forall i | 0 <= i < k :: items[i].Good?)
    && (items[k] == Bad(error) || (used + k == MAX_EVENTS && items[k].Good? && error == Invalid))
  }

  /** A rejection reports what is wrong at the first offending place in document order. */
  lemma {:induction false} CollectFails<E(!new)>(before: seq<E>, items: seq<Item<E>>, error: Error)
    requires |before| <= MAX_EVENTS
    ensures Collect(before, items) == Err(error) <==> exists k: nat :: DecidedAt(items, k, |before|, error)
    decreases |items|
  {
    if items != [] {
      if items[0].Bad? || |before| == MAX_EVENTS {
        if Collect(before, items) == Err(error) {
          assert DecidedAt(items, 0, |before|, error);
        }
      } else {
        var next, tail := before + [items[0].event], items[1..];
        CollectFails(next, tail, error);
        if k: nat :| DecidedAt(tail, k, |next|, error) {
          assert forall i | 0 < i < k + 1 :: items[i] == tail[i - 1];
          assert DecidedAt(items, k + 1, |before|, error);
        }
        if k: nat :| DecidedAt(items, k, |before|, error) {
          assert k > 0;
          assert DecidedAt(tail, k - 1, |next|, error);
        }
      }
    }
  }
}
