/** What each of the two WhatsApp parsers makes of an envelope, place by place. */
module WhatsAppItems {
  import opened WebhookEnvelope

  /** The message parser or the status parser. */
  datatype Reader = Messages | Statuses

  datatype Event =
    | TextEvent(account: string, recipient: string, id: string, from: string, name: string, text: string)
    | StatusEvent(attempt: string, account: string, sender: string, recipient: string, id: string, status: string)

  // ---------- one row ----------

  /** The name of the first contact that has the given number and a name; otherwise the number. */
  function ContactName(contacts: seq<Contact>, from: string): (name: string) {
    if contacts == [] then from
    else if contacts[0].waId == from && contacts[0].name != "" then contacts[0].name
    else ContactName(contacts[1..], from)
  }

  function DisplayName(contacts: seq<Contact>, from: string): string {
    var name := ContactName(contacts, from);
    if |name| > 255 then from else name
  }

  predicate MessageFieldsValid(m: Message) {
    && PositiveTimestamp(m.timestamp)
    && NumericId(m.from)
    && 1 <= |m.id| <= 255
    && 1 <= |m.body| <= 16000
  }

  function MessageEvent(entry: Entry, c: Change, m: Message): Event {
    TextEvent(entry.id, c.phoneId, m.id, m.from, DisplayName(c.contacts, m.from), m.body)
  }

  function MessageItem(entry: Entry, c: Change, m: Message): Item<Event> {
    if m.kind != "text" then Bad(Unsupported)
    else if !MessageFieldsValid(m) then Bad(Invalid)
    else Good(MessageEvent(entry, c, m))
  }

  predicate OpaqueValid(o: Opaque) {
    o.Missing? || (o.Text? && ValidAttemptId(o.text))
  }

  predicate StatusFieldsValid(s: Status) {
    && OpaqueValid(s.opaqueData)
    && PositiveTimestamp(s.timestamp)
    && NumericId(s.timestamp)
    && NumericId(s.recipientId)
    && ValidMessageId(s.id)
  }

  function AttemptOf(o: Opaque): string {
    if o.Text? then o.text else ""
  }

  function StatusEventOf(entry: Entry, c: Change, s: Status): Event {
    var status := NormalizeTextStatus("whatsapp", s.status);
    StatusEvent(AttemptOf(s.opaqueData), entry.id, c.phoneId, s.recipientId, s.id,
                if status.Some? then status.value else "")
  }

  function StatusItem(entry: Entry, c: Change, s: Status): Item<Event> {
    if !StatusFieldsValid(s) then Bad(Invalid)
    else if NormalizeTextStatus("whatsapp", s.status).None? then Bad(Unsupported)
    else Good(StatusEventOf(entry, c, s))
  }

  // ---------- the document ----------

  function MessageItems(entry: Entry, c: Change, ms: seq<Message>): (items: seq<Item<Event>>)
    ensures |items| == |ms|
    ensures forall i | 0 <= i < |ms| :: items[i] == MessageItem(entry, c, ms[i])
  {
    seq(|ms|, i requires 0 <= i < |ms| => MessageItem(entry, c, ms[i]))
  }

  function StatusItems(entry: Entry, c: Change, ss: seq<Status>): (items: seq<Item<Event>>)
    ensures |items| == |ss|
    ensures forall i | 0 <= i < |ss| :: items[i] == StatusItem(entry, c, ss[i])
  {
    seq(|ss|, i requires 0 <= i < |ss| => StatusItem(entry, c, ss[i]))
  }

  /** A change of the reader's kind: rows of that kind only, and no errors. */
  predicate ChangeFits(reader: Reader, c: Change) {
    && c.field == "messages" && c.product == "whatsapp" && c.errors == 0
    && match reader
       case Messages => c.statuses == [] && c.messages != []
       case Statuses => c.messages == [] && c.statuses != []
  }

  function RowItems(reader: Reader, entry: Entry, c: Change): seq<Item<Event>> {
    match reader
    case Messages => MessageItems(entry, c, c.messages)
    case Statuses => StatusItems(entry, c, c.statuses)
  }

  function ChangeItems(reader: Reader, entry: Entry, c: Change): seq<Item<Event>> {
    if !ChangeFits(reader, c) then [Bad(Unsupported)]
    else if !NumericId(c.phoneId) then [Bad(Invalid)]
    else RowItems(reader, entry, c)
  }

  function ChangesItems(reader: Reader, entry: Entry, cs: seq<Change>): seq<Item<Event>>
    decreases |cs|
  {
    if cs == [] then [] else ChangeItems(reader, entry, cs[0]) + ChangesItems(reader, entry, cs[1..])
  }

  function EntryItems(reader: Reader, entry: Entry): seq<Item<Event>> {
    if !NumericId(entry.id) || entry.changes == [] then [Bad(Invalid)]
    else ChangesItems(reader, entry, entry.changes)
  }

  function EntriesItems(reader: Reader, entries: seq<Entry>): seq<Item<Event>>
    decreases |entries|
  {
    if entries == [] then [] else EntryItems(reader, entries[0]) + EntriesItems(reader, entries[1..])
  }

  /** The envelope as the reader decodes it; only the status parser limits its size. */
  predicate Opens(reader: Reader, e: Envelope) {
    && (match reader
        case Messages => e.messageShape
        case Statuses => 0 < e.length <= MAX_WEBHOOK_BYTES && e.statusShape)
    && e.object_ == "whatsapp_business_account"
    && e.entries != []
  }

  function EnvelopeItems(reader: Reader, e: Envelope): seq<Item<Event>> {
    if !Opens(reader, e) then [Bad(Invalid)] else EntriesItems(reader, e.entries)
  }

  function Parsed(reader: Reader, e: Envelope): Result<seq<Event>> {
    Collect([], EnvelopeItems(reader, e))
  }

  // ---------- the meaning of success ----------

  predicate MessageValid(m: Message) {
    m.kind == "text" && MessageFieldsValid(m)
  }

  predicate StatusValid(s: Status) {
    StatusFieldsValid(s) && NormalizeTextStatus("whatsapp", s.status).Some?
  }

  predicate RowsValid(reader: Reader, c: Change) {
    match reader
    case Messages => forall m | m in c.messages :: MessageValid(m)
    case Statuses => forall s | s in c.statuses :: StatusValid(s)
  }

  predicate ChangeValid(reader: Reader, c: Change) {
    ChangeFits(reader, c) && NumericId(c.phoneId) && RowsValid(reader, c)
  }

  predicate EntryValid(reader: Reader, entry: Entry) {
    NumericId(entry.id) && entry.changes != [] && forall c | c in entry.changes :: ChangeValid(reader, c)
  }

  /** Nothing anywhere in the envelope is out of place for the reader. */
  predicate EnvelopeValid(reader: Reader, e: Envelope) {
    Opens(reader, e) && forall entry | entry in e.entries :: EntryValid(reader, entry)
  }

  function MessageEvents(entry: Entry, c: Change, ms: seq<Message>): (es: seq<Event>)
    ensures |es| == |ms|
    ensures forall i | 0 <= i < |ms| :: es[i] == MessageEvent(entry, c, ms[i])
  {
    seq(|ms|, i requires 0 <= i < |ms| => MessageEvent(entry, c, ms[i]))
  }

  function StatusEvents(entry: Entry, c: Change, ss: seq<Status>): (es: seq<Event>)
    ensures |es| == |ss|
    ensures forall i | 0 <= i < |ss| :: es[i] == StatusEventOf(entry, c, ss[i])
  {
    seq(|ss|, i requires 0 <= i < |ss| => StatusEventOf(entry, c, ss[i]))
  }

  function ChangeEvents(reader: Reader, entry: Entry, c: Change): seq<Event> {
    match reader
    case Messages => MessageEvents(entry, c, c.messages)
    case Statuses => StatusEvents(entry, c, c.statuses)
  }

  function ChangesEvents(reader: Reader, entry: Entry, cs: seq<Change>): seq<Event>
    decreases |cs|
  {
    if cs == [] then [] else ChangeEvents(reader, entry, cs[0]) + ChangesEvents(reader, entry, cs[1..])
  }

  /** Every row of the envelope in document order, checked or not. */
  function DocumentEvents(reader: Reader, entries: seq<Entry>): seq<Event>
    decreases |entries|
  {
    if entries == [] then []
    else ChangesEvents(reader, entries[0], entries[0].changes) + DocumentEvents(reader, entries[1..])
  }

  // ---------- items against events ----------

  /** A stretch of the document reads cleanly as these events exactly when the condition holds. */
  ghost predicate ReadsAs(items: seq<Item<Event>>, events: seq<Event>, valid: bool) {
    && (valid ==> AllEvents(items, events))
    && (!valid ==> exists i | 0 <= i < |items| :: items[i].Bad?)
  }

  lemma ReadsAsJoin(items: seq<Item<Event>>, events: seq<Event>, valid: bool,
                    items': seq<Item<Event>>, events': seq<Event>, valid': bool)
    requires ReadsAs(items, events, valid) && ReadsAs(items', events', valid')
    ensures ReadsAs(items + items', events + events', valid && valid')
  {
    if !valid {
      var i :| 0 <= i < |items| && items[i].Bad?;
      assert (items + items')[i].Bad?;
    } else if !valid' {
      var i :| 0 <= i < |items'| && items'[i].Bad?;
      assert (items + items')[|items| + i].Bad?;
    }
  }

  lemma BadReads(items: seq<Item<Event>>, events: seq<Event>)
    requires items != [] && items[0].Bad?
    ensures ReadsAs(items, events, false)
  {
  }

  lemma RowsRead(reader: Reader, entry: Entry, c: Change)
    ensures ReadsAs(RowItems(reader, entry, c), ChangeEvents(reader, entry, c), RowsValid(reader, c))
  {
    hide MessageFieldsValid, MessageEvent, StatusFieldsValid, StatusEventOf, NormalizeTextStatus;
    if !RowsValid(reader, c) {
      match reader
      case Messages =>
        var i :| 0 <= i < |c.messages| && !MessageValid(c.messages[i]);
        assert RowItems(reader, entry, c)[i] == MessageItem(entry, c, c.messages[i]);
      case Statuses =>
        var i :| 0 <= i < |c.statuses| && !StatusValid(c.statuses[i]);
        assert RowItems(reader, entry, c)[i] == StatusItem(entry, c, c.statuses[i]);
    } else {
      forall i | 0 <= i < |RowItems(reader, entry, c)|
        ensures RowItems(reader, entry, c)[i] == Good(ChangeEvents(reader, entry, c)[i])
      {
        match reader
        case Messages => assert MessageValid(c.messages[i]);
        case Statuses => assert StatusValid(c.statuses[i]);
      }
    }
  }

  lemma ChangeReads(reader: Reader, entry: Entry, c: Change)
    ensures ReadsAs(ChangeItems(reader, entry, c), ChangeEvents(reader, entry, c), ChangeValid(reader, c))
  {
    hide RowItems, ChangeEvents, RowsValid, ReadsAs, NumericId;
    if ChangeFits(reader, c) && NumericId(c.phoneId) {
      RowsRead(reader, entry, c);
    } else {
      BadReads(ChangeItems(reader, entry, c), ChangeEvents(reader, entry, c));
    }
  }

  lemma {:induction false} ChangesRead(reader: Reader, entry: Entry, cs: seq<Change>)
    ensures ReadsAs(ChangesItems(reader, entry, cs), ChangesEvents(reader, entry, cs),
                    forall c | c in cs :: ChangeValid(reader, c))
    decreases |cs|
  {
    hide ChangeItems, ChangeEvents, ChangeValid;
    if cs != [] {
      ChangeReads(reader, entry, cs[0]);
      ChangesRead(reader, entry, cs[1..]);
      ReadsAsJoin(ChangeItems(reader, entry, cs[0]), ChangeEvents(reader, entry, cs[0]), ChangeValid(reader, cs[0]),
                  ChangesItems(reader, entry, cs[1..]), ChangesEvents(reader, entry, cs[1..]),
                  forall c | c in cs[1..] :: ChangeValid(reader, c));
      assert cs == [cs[0]] + cs[1..];
    }
  }

  lemma EntryReads(reader: Reader, entry: Entry)
    ensures ReadsAs(EntryItems(reader, entry), ChangesEvents(reader, entry, entry.changes), EntryValid(reader, entry))
  {
    hide ChangesItems, ChangesEvents, ChangeValid, ReadsAs, NumericId;
    if NumericId(entry.id) && entry.changes != [] {
      ChangesRead(reader, entry, entry.changes);
    } else {
      BadReads(EntryItems(reader, entry), ChangesEvents(reader, entry, entry.changes));
    }
  }

  lemma {:induction false} EntriesRead(reader: Reader, entries: seq<Entry>)
    ensures ReadsAs(EntriesItems(reader, entries), DocumentEvents(reader, entries),
                    forall entry | entry in entries :: EntryValid(reader, entry))
    decreases |entries|
  {
    hide EntryItems, ChangesEvents, EntryValid;
    if entries != [] {
      var first, rest := entries[0], entries[1..];
      EntryReads(reader, first);
      EntriesRead(reader, rest);
      ReadsAsJoin(EntryItems(reader, first), ChangesEvents(reader, first, first.changes), EntryValid(reader, first),
                  EntriesItems(reader, rest), DocumentEvents(reader, rest),
                  forall entry | entry in rest :: EntryValid(reader, entry));
      assert entries == [first] + rest;
    }
  }

  // ---------- the main results ----------

  /**
   * All or nothing: a parser succeeds exactly when nothing in the envelope is out of place and there are at
   * most a hundred rows, and then it returns every row of the document, in order.
   */
  lemma ParsingIsAllOrNothing(reader: Reader, e: Envelope, events: seq<Event>)
    ensures Parsed(reader, e) == Ok(events)
       <==> EnvelopeValid(reader, e)
            && |DocumentEvents(reader, e.entries)| <= MAX_EVENTS
            && events == DocumentEvents(reader, e.entries)
  {
    hide Opens, EntriesItems, DocumentEvents, EntryValid, Collect;
    var items, all := EnvelopeItems(reader, e), DocumentEvents(reader, e.entries);
    CollectSucceeds([], items, events);
    assert [] + events == events;
    if !Opens(reader, e) {
      assert items[0].Bad?;
    } else {
      EntriesRead(reader, e.entries);
      SameReading(items, events, all);
    }
  }

  lemma SameReading(items: seq<Item<Event>>, events: seq<Event>, all: seq<Event>)
    ensures AllEvents(items, events) && AllEvents(items, all) ==> events == all
  {
    if AllEvents(items, events) && AllEvents(items, all) {
      forall i | 0 <= i < |items|
        ensures events[i] == all[i]
      {
        assert items[i] == Good(events[i]);
      }
    }
  }

  /** A rejected envelope is rejected for what is wrong at its first offending place. */
  lemma RejectionNamesTheFirstFault(reader: Reader, e: Envelope, error: Error)
    ensures Parsed(reader, e) == Err(error)
       <==> exists k: nat :: DecidedAt(EnvelopeItems(reader, e), k, 0, error)
  {
    hide EnvelopeItems, Collect;
    CollectFails([], EnvelopeItems(reader, e), error);
  }

  /** The router's test: some change anywhere carries a status. */
  predicate HasStatuses(e: Envelope) {
    e.routerShape && exists entry, c | entry in e.entries && c in entry.changes :: c.statuses != []
  }

  lemma SuccessIsValid(reader: Reader, e: Envelope)
    ensures Parsed(reader, e).Ok? ==> EnvelopeValid(reader, e)
  {
    hide EnvelopeValid, Parsed, DocumentEvents;
    if Parsed(reader, e).Ok? {
      ParsingIsAllOrNothing(reader, e, Parsed(reader, e).value);
    }
  }

  /** The parsers never both accept an envelope, and the router sends each to the one that may. */
  lemma ParsersAndRouterAgree(e: Envelope)
    requires e.Valid()
    ensures !(Parsed(Messages, e).Ok? && Parsed(Statuses, e).Ok?)
    ensures Parsed(Statuses, e).Ok? ==> HasStatuses(e)
    ensures Parsed(Messages, e).Ok? ==> !HasStatuses(e)
  {
    hide Parsed, NumericId, RowsValid;
    SuccessIsValid(Messages, e);
    SuccessIsValid(Statuses, e);
    if Parsed(Statuses, e).Ok? {
      var entry := e.entries[0];
      assert EntryValid(Statuses, entry);
      var c := entry.changes[0];
      assert ChangeValid(Statuses, c);
    }
    if Parsed(Messages, e).Ok? {
      forall entry, c | entry in e.entries && c in entry.changes
        ensures c.statuses == []
      {
        assert EntryValid(Messages, entry);
        assert ChangeValid(Messages, c);
      }
    }
  }

  /** What the webhook handler does with an envelope. */
  function Routed(e: Envelope): Result<seq<Event>> {
    if HasStatuses(e) then Parsed(Statuses, e) else Parsed(Messages, e)
  }

  /** Routing first loses nothing: the handler accepts what either parser accepts, with the same events. */
  lemma RoutingLosesNothing(e: Envelope, events: seq<Event>)
    requires e.Valid()
    ensures Routed(e) == Ok(events) <==> Parsed(Messages, e) == Ok(events) || Parsed(Statuses, e) == Ok(events)
  {
    hide Parsed, HasStatuses;
    ParsersAndRouterAgree(e);
  }
}
