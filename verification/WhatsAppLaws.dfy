/** What the two parsers accept and return, row by row and field by field. */
module WhatsAppLaws {
  import opened Prelude
  import opened Digits
  import opened WebhookEnvelope
  import opened WhatsAppItems
  import Uuids

  // ---------- where a row's event stands ----------

  function RowCount(reader: Reader, c: Change): nat {
    match reader case Messages => |c.messages| case Statuses => |c.statuses|
  }

  function ChangesCount(reader: Reader, cs: seq<Change>): nat {
    if cs == [] then 0 else ChangesCount(reader, cs[..|cs| - 1]) + RowCount(reader, cs[|cs| - 1])
  }

  function EntriesCount(reader: Reader, entries: seq<Entry>): nat {
    if entries == [] then 0
    else EntriesCount(reader, entries[..|entries| - 1]) + ChangesCount(reader, entries[|entries| - 1].changes)
  }

  /** How many rows the document has before row k of change j of entry i. */
  function RowsBefore(reader: Reader, entries: seq<Entry>, i: nat, j: nat, k: nat): nat
    requires i < |entries| && j < |entries[i].changes|
  {
    EntriesCount(reader, entries[..i]) + ChangesCount(reader, entries[i].changes[..j]) + k
  }

  lemma {:induction false} ChangesSplit(reader: Reader, entry: Entry, a: seq<Change>, b: seq<Change>)
    ensures ChangesEvents(reader, entry, a + b) == ChangesEvents(reader, entry, a) + ChangesEvents(reader, entry, b)
  {
    hide ChangeEvents;
    if a == [] {
      assert a + b == b;
    } else {
      ChangesSplit(reader, entry, a[1..], b);
      assert (a + b)[1..] == a[1..] + b;
    }
  }

  lemma {:induction false} EntriesSplit(reader: Reader, a: seq<Entry>, b: seq<Entry>)
    ensures DocumentEvents(reader, a + b) == DocumentEvents(reader, a) + DocumentEvents(reader, b)
  {
    hide ChangesEvents;
    if a == [] {
      assert a + b == b;
    } else {
      EntriesSplit(reader, a[1..], b);
      assert (a + b)[1..] == a[1..] + b;
    }
  }

  lemma {:induction false} ChangesLength(reader: Reader, entry: Entry, cs: seq<Change>)
    ensures |ChangesEvents(reader, entry, cs)| == ChangesCount(reader, cs)
  {
    if cs != [] {
      var n := |cs| - 1;
      ChangesLength(reader, entry, cs[..n]);
      ChangesSplit(reader, entry, cs[..n], [cs[n]]);
      assert cs == cs[..n] + [cs[n]];
      OneChange(reader, entry, cs[n]);
    }
  }

  lemma OneChange(reader: Reader, entry: Entry, c: Change)
    ensures ChangesEvents(reader, entry, [c]) == ChangeEvents(reader, entry, c)
    ensures |ChangeEvents(reader, entry, c)| == RowCount(reader, c)
  {
    assert [c][1..] == [];
  }

  lemma OneEntry(reader: Reader, entry: Entry)
    ensures DocumentEvents(reader, [entry]) == ChangesEvents(reader, entry, entry.changes)
  {
    assert [entry][1..] == [];
  }

  lemma {:induction false} EntriesLength(reader: Reader, entries: seq<Entry>)
    ensures |DocumentEvents(reader, entries)| == EntriesCount(reader, entries)
  {
    hide ChangesEvents, ChangesCount;
    if entries != [] {
      var n := |entries| - 1;
      EntriesLength(reader, entries[..n]);
      EntriesSplit(reader, entries[..n], [entries[n]]);
      assert entries == entries[..n] + [entries[n]];
      OneEntry(reader, entries[n]);
      ChangesLength(reader, entries[n], entries[n].changes);
    }
  }

  /** The event at a row's place in the document is that row's own event. */
  lemma EventStands(reader: Reader, entries: seq<Entry>, i: nat, j: nat, k: nat)
    requires i < |entries| && j < |entries[i].changes| && k < RowCount(reader, entries[i].changes[j])
    ensures RowsBefore(reader, entries, i, j, k) < |DocumentEvents(reader, entries)|
    ensures |ChangeEvents(reader, entries[i], entries[i].changes[j])| == RowCount(reader, entries[i].changes[j])
    ensures DocumentEvents(reader, entries)[RowsBefore(reader, entries, i, j, k)]
         == ChangeEvents(reader, entries[i], entries[i].changes[j])[k]
  {
    hide DocumentEvents, ChangesEvents, ChangeEvents, EntriesCount, ChangesCount, RowCount;
    var entry := entries[i];
    var cs := entry.changes;
    EntriesLength(reader, entries[..i]);
    ChangesLength(reader, entry, cs[..j]);
    OneChange(reader, entry, cs[j]);
    OneEntry(reader, entry);
    EntriesSplit(reader, entries[..i], entries[i..]);
    EntriesSplit(reader, [entry], entries[i + 1..]);
    ChangesSplit(reader, entry, cs[..j], cs[j..]);
    ChangesSplit(reader, entry, [cs[j]], cs[j + 1..]);
    assert entries == entries[..i] + entries[i..] && entries[i..] == [entry] + entries[i + 1..];
    assert cs == cs[..j] + cs[j..] && cs[j..] == [cs[j]] + cs[j + 1..];
    var before, own, rest := DocumentEvents(reader, entries[..i]), ChangesEvents(reader, entry, cs),
                             DocumentEvents(reader, entries[i + 1..]);
    var b, c, r := ChangesEvents(reader, entry, cs[..j]), ChangeEvents(reader, entry, cs[j]),
                   ChangesEvents(reader, entry, cs[j + 1..]);
    assert DocumentEvents(reader, entries) == before + (own + rest) && own == b + (c + r);
    assert own[|b| + k] == c[k];
    assert (before + (own + rest))[|before| + (|b| + k)] == own[|b| + k];
  }

  // ---------- the fields ----------

  /** A contact that gives the number a name. */
  predicate Names(c: Contact, from: string) {
    c.waId == from && c.name != ""
  }

  lemma {:induction false} FirstNamed(contacts: seq<Contact>, from: string, n: nat)
    requires n < |contacts| && Names(contacts[n], from) && forall i | 0 <= i < n :: !Names(contacts[i], from)
    ensures ContactName(contacts, from) == contacts[n].name
  {
    if n > 0 {
      FirstNamed(contacts[1..], from, n - 1);
    }
  }

  lemma {:induction false} NoneNamed(contacts: seq<Contact>, from: string)
    requires forall i | 0 <= i < |contacts| :: !Names(contacts[i], from)
    ensures ContactName(contacts, from) == from
  {
    if contacts != [] {
      NoneNamed(contacts[1..], from);
    }
  }

  /**
   Messages, row by row: the event at the message's place in the document carries the entry's id as account, the
   change's phone number as recipient, and the message's own id, sender and text.
   */
  lemma MessageFields(e: Envelope, events: seq<Event>, i: nat, j: nat, k: nat)
    requires Parsed(Messages, e) == Ok(events)
    requires i < |e.entries| && j < |e.entries[i].changes| && k < |e.entries[i].changes[j].messages|
    ensures |events| == EntriesCount(Messages, e.entries)
    ensures var n := RowsBefore(Messages, e.entries, i, j, k); var m := e.entries[i].changes[j].messages[k];
      && n < |events| && events[n].TextEvent?
      && events[n].account == e.entries[i].id && events[n].recipient == e.entries[i].changes[j].phoneId
      && events[n].id == m.id && events[n].from == m.from && events[n].text == m.body
  {
    hide Parsed, DocumentEvents, DisplayName, EnvelopeValid;
    ParsingIsAllOrNothing(Messages, e, events);
    EntriesLength(Messages, e.entries);
    EventStands(Messages, e.entries, i, j, k);
  }

  /** The name is that of the first contact who names the sender, if it is at most 255 bytes long; else the number. */
  lemma MessageName(e: Envelope, events: seq<Event>, i: nat, j: nat, k: nat)
    requires Parsed(Messages, e) == Ok(events)
    requires i < |e.entries| && j < |e.entries[i].changes| && k < |e.entries[i].changes[j].messages|
    ensures var n := RowsBefore(Messages, e.entries, i, j, k);
      var contacts, from := e.entries[i].changes[j].contacts, e.entries[i].changes[j].messages[k].from;
      && n < |events| && events[n].TextEvent?
      && (forall h: nat |
            h < |contacts| && Names(contacts[h], from) && (forall g | 0 <= g < h :: !Names(contacts[g], from)) ::
            events[n].name == if |contacts[h].name| <= 255 then contacts[h].name else from)
      && ((forall h | 0 <= h < |contacts| :: !Names(contacts[h], from)) ==> events[n].name == from)
  {
    hide Parsed, DocumentEvents, EnvelopeValid, ContactName;
    ParsingIsAllOrNothing(Messages, e, events);
    EventStands(Messages, e.entries, i, j, k);
    var contacts, from := e.entries[i].changes[j].contacts, e.entries[i].changes[j].messages[k].from;
    forall h: nat | h < |contacts| && Names(contacts[h], from) && (forall g | 0 <= g < h :: !Names(contacts[g], from))
      ensures ContactName(contacts, from) == contacts[h].name
    {
      FirstNamed(contacts, from, h);
    }
    if forall h | 0 <= h < |contacts| :: !Names(contacts[h], from) {
      NoneNamed(contacts, from);
    }
  }

  /**
   Statuses, row by row: the event at the status's place carries the entry's id as account, the change's phone number
   as sender, the status's own recipient, id and state, and the attempt it was sent with, if any.
   */
  lemma StatusFields(e: Envelope, events: seq<Event>, i: nat, j: nat, k: nat)
    requires Parsed(Statuses, e) == Ok(events)
    requires i < |e.entries| && j < |e.entries[i].changes| && k < |e.entries[i].changes[j].statuses|
    ensures |events| == EntriesCount(Statuses, e.entries)
    ensures var n := RowsBefore(Statuses, e.entries, i, j, k); var s := e.entries[i].changes[j].statuses[k];
      && n < |events| && events[n].StatusEvent?
      && events[n].account == e.entries[i].id && events[n].sender == e.entries[i].changes[j].phoneId
      && events[n].recipient == s.recipientId && events[n].id == s.id && events[n].status == s.status
      && (s.opaqueData == Missing ==> events[n].attempt == "")
      && (s.opaqueData != Missing ==> s.opaqueData == Text(events[n].attempt) && ValidAttemptId(events[n].attempt))
  {
    hide Parsed, DocumentEvents, NumericId, PositiveTimestamp, ValidMessageId, ValidAttemptId;
    ParsingIsAllOrNothing(Statuses, e, events);
    EntriesLength(Statuses, e.entries);
    EventStands(Statuses, e.entries, i, j, k);
    assert EntryValid(Statuses, e.entries[i]);
    assert ChangeValid(Statuses, e.entries[i].changes[j]);
    assert StatusValid(e.entries[i].changes[j].statuses[k]);
    TextStates(e.entries[i].changes[j].statuses[k].status);
  }

  // ---------- the checks ----------

  /** Of the states a channel may report, this one's are sent, delivered, read and failed, passed on unchanged. */
  lemma TextStates(status: string)
    ensures NormalizeTextStatus("whatsapp", status)
         == if status in {"sent", "delivered", "read", "failed"} then Some(status) else None
    ensures NormalizeTextStatus("twilio", status) ==
      if status in {"accepted", "queued", "sending"} then Some("provider_accepted")
      else if status in {"sent", "delivered"} then Some(status)
      else if status in {"failed", "undelivered"} then Some("failed") else None
  {
  }

  lemma IdsAreDigits(s: string)
    ensures NumericId(s) <==> 1 <= |s| <= 100 && forall c | c in s :: '0' <= c <= '9'
  {
    assert forall i | 0 <= i < |s| :: s[i] in s;
  }

  /** A timestamp is a positive number below 2^63, in digits, with or without a plus sign. */
  lemma TimestampMeans(s: string)
    ensures PositiveTimestamp(s) <==>
      exists d: string :: (s == d || s == "+" + d) && d != "" && AllDigits(d) && 1 <= DecVal(d) <= 9223372036854775807
  {
    hide DecVal;
    if s != "" && s[0] == '+' {
      assert s == "+" + s[1..];
    }
    forall d: string | (s == d || s == "+" + d) && d != "" && AllDigits(d) && 1 <= DecVal(d) <= 9223372036854775807
      ensures PositiveTimestamp(s)
    {
      if s == "+" + d {
        assert s[1..] == d;
      } else {
        assert IsDigit(d[0]);
      }
    }
  }

  lemma MessageIdMeans(id: string)
    ensures ValidMessageId(id) <==>
      && 7 <= |id| <= 255 && id[..6] == "wamid." && forall c | c in id :: 33 <= c as int <= 126
  {
    assert "wamid." <= id <==> |id| >= 6 && id[..6] == "wamid.";
  }

  /** What a well-formed batch of messages is. */
  lemma MessageBatches(e: Envelope)
    ensures EnvelopeValid(Messages, e) <==>
      && e.messageShape && e.object_ == "whatsapp_business_account" && |e.entries| > 0
      && forall entry | entry in e.entries ::
           && NumericId(entry.id) && |entry.changes| > 0
           && forall c | c in entry.changes ::
                && c.field == "messages" && c.product == "whatsapp" && NumericId(c.phoneId)
                && |c.statuses| == 0 && c.errors == 0 && |c.messages| > 0
                && forall m | m in c.messages ::
                     && m.kind == "text" && PositiveTimestamp(m.timestamp) && NumericId(m.from)
                     && 1 <= |m.id| <= 255 && 1 <= |m.body| <= 16000
  {
    hide NumericId, PositiveTimestamp;
  }

  /** What a well-formed batch of statuses is. */
  lemma StatusBatches(e: Envelope)
    ensures EnvelopeValid(Statuses, e) <==>
      && 1 <= e.length <= 262144 && e.statusShape && e.object_ == "whatsapp_business_account" && |e.entries| > 0
      && forall entry | entry in e.entries ::
           && NumericId(entry.id) && |entry.changes| > 0
           && forall c | c in entry.changes ::
                && c.field == "messages" && c.product == "whatsapp" && NumericId(c.phoneId)
                && |c.messages| == 0 && c.errors == 0 && |c.statuses| > 0
                && forall s | s in c.statuses ::
                     && PositiveTimestamp(s.timestamp) && NumericId(s.timestamp) && NumericId(s.recipientId)
                     && ValidMessageId(s.id) && s.status in {"sent", "delivered", "read", "failed"}
                     && (s.opaqueData == Missing ||
                         (s.opaqueData.Text? && Uuids.Canonical(s.opaqueData.text)
                          && s.opaqueData.text != "00000000-0000-0000-0000-000000000000"))
  {
    hide NumericId, PositiveTimestamp, ValidMessageId, NormalizeTextStatus, Uuids.Canonical;
    forall status: string
      ensures NormalizeTextStatus("whatsapp", status).Some? <==> status in {"sent", "delivered", "read", "failed"}
    {
      TextStates(status);
    }
  }

  /** A well-formed batch is accepted up to a hundred rows, and refused beyond. */
  lemma AHundredRows(reader: Reader, e: Envelope)
    requires EnvelopeValid(reader, e)
    ensures Parsed(reader, e).Ok? <==> EntriesCount(reader, e.entries) <= 100
  {
    hide Parsed, EnvelopeValid, DocumentEvents;
    EntriesLength(reader, e.entries);
    ParsingIsAllOrNothing(reader, e, DocumentEvents(reader, e.entries));
    if Parsed(reader, e).Ok? {
      ParsingIsAllOrNothing(reader, e, Parsed(reader, e).value);
    }
  }

  /** What the two readers object to in one row: the type of a message first, the state of a status last. */
  lemma RowErrors(entry: Entry, c: Change, m: Message, s: Status)
    ensures m.kind != "text" ==> MessageItem(entry, c, m) == Bad(Unsupported)
    ensures m.kind == "text" && !MessageFieldsValid(m) ==> MessageItem(entry, c, m) == Bad(Invalid)
    ensures !StatusFieldsValid(s) ==> StatusItem(entry, c, s) == Bad(Invalid)
    ensures StatusFieldsValid(s) && s.status !in {"sent", "delivered", "read", "failed"} ==>
      StatusItem(entry, c, s) == Bad(Unsupported)
  {
    hide MessageFieldsValid, StatusFieldsValid, NormalizeTextStatus;
    TextStates(s.status);
  }

  /** Above the rows, a faulty envelope or entry is invalid, and a change of another kind unsupported. */
  lemma StructureErrors(reader: Reader, e: Envelope, entry: Entry, c: Change)
    ensures !Opens(reader, e) ==> EnvelopeItems(reader, e) == [Bad(Invalid)]
    ensures !NumericId(entry.id) || entry.changes == [] ==> EntryItems(reader, entry) == [Bad(Invalid)]
    ensures !ChangeFits(reader, c) ==> ChangeItems(reader, entry, c) == [Bad(Unsupported)]
    ensures ChangeFits(reader, c) && !NumericId(c.phoneId) ==> ChangeItems(reader, entry, c) == [Bad(Invalid)]
  {
  }
}
