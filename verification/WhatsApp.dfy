/** The two batch parsers and the router test as loops over a decoded envelope. */
module WhatsApp {
  import opened WebhookEnvelope
  import opened WhatsAppItems

  lemma StopsAtBad(events: seq<Event>, error: Error, rest: seq<Item<Event>>)
    ensures Collect(events, [Bad(error)] + rest) == Err(error)
  {
  }

  lemma TakesGood(events: seq<Event>, event: Event, rest: seq<Item<Event>>)
    ensures Collect(events, [Good(event)] + rest)
         == if |events| + 1 > MAX_EVENTS then Err(Invalid) else Collect(events + [event], rest)
  {
    assert ([Good(event)] + rest)[1..] == rest;
  }

  /** What is left to read after entry i, after change j of an entry, and after row k of a change. */
  function AfterEntry(reader: Reader, e: Envelope, i: nat): seq<Item<Event>>
    requires i <= |e.entries|
  {
    EntriesItems(reader, e.entries[i..])
  }

  function AfterChange(reader: Reader, e: Envelope, i: nat, j: nat): seq<Item<Event>>
    requires i < |e.entries| && j <= |e.entries[i].changes|
  {
    ChangesItems(reader, e.entries[i], e.entries[i].changes[j..]) + AfterEntry(reader, e, i + 1)
  }

  lemma EnterEntry(reader: Reader, e: Envelope, i: nat)
    requires i < |e.entries|
    ensures AfterEntry(reader, e, i) == EntryItems(reader, e.entries[i]) + AfterEntry(reader, e, i + 1)
    ensures NumericId(e.entries[i].id) && e.entries[i].changes != []
        ==> AfterEntry(reader, e, i) == AfterChange(reader, e, i, 0)
  {
    hide ChangesItems, NumericId;
    assert e.entries[i..][1..] == e.entries[i + 1..];
    assert e.entries[i].changes[0..] == e.entries[i].changes;
  }

  lemma EnterChange(reader: Reader, e: Envelope, i: nat, j: nat)
    requires i < |e.entries| && j < |e.entries[i].changes|
    ensures AfterChange(reader, e, i, j)
         == ChangeItems(reader, e.entries[i], e.entries[i].changes[j]) + AfterChange(reader, e, i, j + 1)
  {
    hide ChangeItems, EntriesItems;
    var cs := e.entries[i].changes;
    assert cs[j..][1..] == cs[j + 1..];
  }

  lemma LeaveEntry(reader: Reader, e: Envelope, i: nat)
    requires i < |e.entries|
    ensures AfterChange(reader, e, i, |e.entries[i].changes|) == AfterEntry(reader, e, i + 1)
  {
    hide EntriesItems;
  }

  method NameOf(contacts: seq<Contact>, from: string) returns (name: string)
    ensures name == DisplayName(contacts, from)
  {
    name := from;
    assert contacts[0..] == contacts;
    for i := 0 to |contacts|
      invariant name == from
      invariant ContactName(contacts[i..], from) == ContactName(contacts, from)
    {
      assert contacts[i..][1..] == contacts[i + 1..];
      if contacts[i].waId == from && contacts[i].name != "" {
        name := contacts[i].name;
        break;
      }
    }
    if |name| > 255 {
      name := from;
    }
  }

  method ParseWhatsApp(e: Envelope) returns (r: Result<seq<Event>>)
    ensures r == Parsed(Messages, e)
  {
    hide EntriesItems, ChangesItems, NumericId, PositiveTimestamp, DisplayName, AfterChange, AfterEntry, Collect;
    ghost var goal := Parsed(Messages, e);
    if !e.messageShape || e.object_ != "whatsapp_business_account" || |e.entries| == 0 {
      NotOpened(Messages, e);
      return Err(Invalid);
    }
    var events: seq<Event> := [];
    StartsAtFirst(Messages, e);
    for i := 0 to |e.entries|
      invariant Collect(events, AfterEntry(Messages, e, i)) == goal
    {
      var entry := e.entries[i];
      EnterEntry(Messages, e, i);
      if !NumericId(entry.id) || |entry.changes| == 0 {
        StopsAtBad(events, Invalid, AfterEntry(Messages, e, i + 1));
        return Err(Invalid);
      }
      for j := 0 to |entry.changes|
        invariant Collect(events, AfterChange(Messages, e, i, j)) == goal
      {
        var v := entry.changes[j];
        ghost var rest := AfterChange(Messages, e, i, j + 1);
        EnterChange(Messages, e, i, j);
        if v.field != "messages" || v.product != "whatsapp" || |v.statuses| > 0 || v.errors > 0 || |v.messages| == 0 {
          StopsAtBad(events, Unsupported, rest);
          return Err(Unsupported);
        }
        if !NumericId(v.phoneId) {
          StopsAtBad(events, Invalid, rest);
          return Err(Invalid);
        }
        assert v.messages[0..] == v.messages;
        for k := 0 to |v.messages|
          invariant Collect(events, MessageItems(entry, v, v.messages[k..]) + rest) == goal
        {
          var m := v.messages[k];
          NextMessage(entry, v, k, rest);
          ghost var next := MessageItems(entry, v, v.messages[k + 1..]) + rest;
          if m.kind != "text" {
            StopsAtBad(events, Unsupported, next);
            return Err(Unsupported);
          }
          if !PositiveTimestamp(m.timestamp) || !NumericId(m.from) || m.id == "" || |m.id| > 255
            || |m.body| == 0 || |m.body| > 16000 {
            StopsAtBad(events, Invalid, next);
            return Err(Invalid);
          }
          var name := NameOf(v.contacts, m.from);
          var event := TextEvent(entry.id, v.phoneId, m.id, m.from, name, m.body);
          TakesGood(events, event, next);
          events := events + [event];
          if |events| > MAX_EVENTS {
            return Err(Invalid);
          }
        }
        assert MessageItems(entry, v, v.messages[|v.messages|..]) + rest == rest;
      }
      LeaveEntry(Messages, e, i);
    }
    EndsAfterLast(Messages, e, events);
    return Ok(events);
  }

  lemma NotOpened(reader: Reader, e: Envelope)
    requires !Opens(reader, e)
    ensures Parsed(reader, e) == Err(Invalid)
  {
  }

  lemma StartsAtFirst(reader: Reader, e: Envelope)
    requires Opens(reader, e)
    ensures Collect([], AfterEntry(reader, e, 0)) == Parsed(reader, e)
  {
    hide EntriesItems, Collect;
    assert e.entries[0..] == e.entries;
  }

  lemma EndsAfterLast(reader: Reader, e: Envelope, events: seq<Event>)
    ensures Collect(events, AfterEntry(reader, e, |e.entries|)) == Ok(events)
  {
  }

  lemma NextMessage(entry: Entry, v: Change, k: nat, rest: seq<Item<Event>>)
    requires k < |v.messages|
    ensures MessageItems(entry, v, v.messages[k..]) + rest
         == [MessageItem(entry, v, v.messages[k])] + (MessageItems(entry, v, v.messages[k + 1..]) + rest)
  {
    hide MessageItem;
    assert MessageItems(entry, v, v.messages[k..])
        == [MessageItem(entry, v, v.messages[k])] + MessageItems(entry, v, v.messages[k + 1..]);
  }

  lemma NextStatus(entry: Entry, v: Change, k: nat, rest: seq<Item<Event>>)
    requires k < |v.statuses|
    ensures StatusItems(entry, v, v.statuses[k..]) + rest
         == [StatusItem(entry, v, v.statuses[k])] + (StatusItems(entry, v, v.statuses[k + 1..]) + rest)
  {
    hide StatusItem;
    assert StatusItems(entry, v, v.statuses[k..])
        == [StatusItem(entry, v, v.statuses[k])] + StatusItems(entry, v, v.statuses[k + 1..]);
  }

  method ParseWhatsAppStatuses(e: Envelope) returns (r: Result<seq<Event>>)
    ensures r == Parsed(Statuses, e)
  {
    hide EntriesItems, ChangesItems, NumericId, PositiveTimestamp, ValidMessageId, ValidAttemptId, AfterChange,
         AfterEntry, Collect, NormalizeTextStatus;
    ghost var goal := Parsed(Statuses, e);
    if e.length == 0 || e.length > MAX_WEBHOOK_BYTES {
      NotOpened(Statuses, e);
      return Err(Invalid);
    }
    if !e.statusShape || e.object_ != "whatsapp_business_account" || |e.entries| == 0 {
      NotOpened(Statuses, e);
      return Err(Invalid);
    }
    var events: seq<Event> := [];
    StartsAtFirst(Statuses, e);
    for i := 0 to |e.entries|
      invariant Collect(events, AfterEntry(Statuses, e, i)) == goal
    {
      var entry := e.entries[i];
      EnterEntry(Statuses, e, i);
      if !NumericId(entry.id) || |entry.changes| == 0 {
        StopsAtBad(events, Invalid, AfterEntry(Statuses, e, i + 1));
        return Err(Invalid);
      }
      for j := 0 to |entry.changes|
        invariant Collect(events, AfterChange(Statuses, e, i, j)) == goal
      {
        var v := entry.changes[j];
        ghost var rest := AfterChange(Statuses, e, i, j + 1);
        EnterChange(Statuses, e, i, j);
        if v.field != "messages" || v.product != "whatsapp" || |v.messages| > 0 || v.errors > 0 || |v.statuses| == 0 {
          StopsAtBad(events, Unsupported, rest);
          return Err(Unsupported);
        }
        if !NumericId(v.phoneId) {
          StopsAtBad(events, Invalid, rest);
          return Err(Invalid);
        }
        assert v.statuses[0..] == v.statuses;
        for k := 0 to |v.statuses|
          invariant Collect(events, StatusItems(entry, v, v.statuses[k..]) + rest) == goal
        {
          var s := v.statuses[k];
          NextStatus(entry, v, k, rest);
          ghost var next := StatusItems(entry, v, v.statuses[k + 1..]) + rest;
          var attempt := "";
          if !s.opaqueData.Missing? {
            if s.opaqueData.NotText? || !ValidAttemptId(s.opaqueData.text) {
              StopsAtBad(events, Invalid, next);
              return Err(Invalid);
            }
            attempt := s.opaqueData.text;
          }
          if !PositiveTimestamp(s.timestamp) || !NumericId(s.timestamp) || !NumericId(s.recipientId)
            || !ValidMessageId(s.id) {
            StopsAtBad(events, Invalid, next);
            return Err(Invalid);
          }
          var status := NormalizeTextStatus("whatsapp", s.status);
          if status.None? {
            StopsAtBad(events, Unsupported, next);
            return Err(Unsupported);
          }
          var event := StatusEvent(attempt, entry.id, v.phoneId, s.recipientId, s.id, status.value);
          TakesGood(events, event, next);
          events := events + [event];
          if |events| > MAX_EVENTS {
            return Err(Invalid);
          }
        }
        assert StatusItems(entry, v, v.statuses[|v.statuses|..]) + rest == rest;
      }
      LeaveEntry(Statuses, e, i);
    }
    EndsAfterLast(Statuses, e, events);
    return Ok(events);
  }

  method HasWhatsAppStatuses(e: Envelope) returns (found: bool)
    ensures found <==> HasStatuses(e)
  {
    if !e.routerShape {
      return false;
    }
    for i := 0 to |e.entries|
      invariant forall entry, c | entry in e.entries[..i] && c in entry.changes :: c.statuses == []
    {
      var entry := e.entries[i];
      for j := 0 to |entry.changes|
        invariant forall c | c in entry.changes[..j] :: c.statuses == []
      {
        if |entry.changes[j].statuses| > 0 {
          assert entry in e.entries && entry.changes[j] in entry.changes;
          return true;
        }
      }
      assert entry.changes[..|entry.changes|] == entry.changes;
    }
    assert e.entries[..|e.entries|] == e.entries;
    return false;
  }
}
