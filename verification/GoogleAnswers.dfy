/** What a caller is answered, over every run, told from the log of refreshes alone. */
module GoogleAnswers {
  import opened Prelude
  import opened GoogleKeys

  /** The last refresh that ended, if any. */
  function LastEnd(log: seq<Event>): Option<Event> {
    if log == [] then None
    else
      var e := log[|log| - 1];
      if e.Failed? || e.Installed? then Some(e) else LastEnd(log[..|log| - 1])
  }

  /** The last fetch that was installed, if any. */
  function LastFetch(log: seq<Event>): Option<Fetch> {
    if log == [] then None
    else
      var e := log[|log| - 1];
      if e.Installed? then Some(e.fetch) else LastFetch(log[..|log| - 1])
  }

  /** The stored fields are told by the log. */
  ghost predicate FieldsFromLog(s: System) {
    && (match LastFetch(s.log)
        case None => s.fields.keys == map[] && s.fields.expires == 0
        case Some(fetch) => s.fields.keys == fetch.keys && s.fields.expires == fetch.expires)
    && s.fields.retryAfter == match LastEnd(s.log) case Some(Failed(at)) => at + 5_000_000_000 case _ => 0
  }

  lemma LogGrows(log: seq<Event>, e: Event)
    ensures LastEnd(log + [e]) == if e.Failed? || e.Installed? then Some(e) else LastEnd(log)
    ensures LastFetch(log + [e]) == if e.Installed? then Some(e.fetch) else LastFetch(log)
  {
    assert (log + [e])[..|log|] == log;
  }

  lemma StepKeepsFields(s: System, step: Step)
    requires FieldsFromLog(s) && Enabled(s, step)
    ensures FieldsFromLog(Apply(s, step))
  {
    hide LastEnd, LastFetch, CompleteFetch;
    var events := Added(s, step);
    if events == [] {
      assert s.log + events == s.log;
    } else {
      assert events == [events[0]];
      LogGrows(s.log, events[0]);
    }
  }

  lemma {:induction false} RunKeepsFields(s: System, steps: seq<Step>)
    requires FieldsFromLog(s) && Runs(s, steps)
    ensures FieldsFromLog(After(s, steps))
    decreases |steps|
  {
    if steps != [] {
      StepKeepsFields(s, steps[0]);
      RunKeepsFields(Apply(s, steps[0]), steps[1..]);
    }
  }

  /** The last installed fetch is one of the log's, so it is complete. */
  lemma {:induction false} LastFetchIsComplete(log: seq<Event>)
    requires InstalledAreComplete(log) && LastFetch(log).Some?
    ensures CompleteFetch(LastFetch(log).value)
  {
    hide CompleteFetch;
    var n := |log| - 1;
    if !log[n].Installed? {
      assert forall i | 0 <= i < n :: log[..n][i] == log[i];
      LastFetchIsComplete(log[..n]);
    }
  }

  lemma CompleteHolds(f: Fetch, kid: string)
    requires CompleteFetch(f)
    ensures kid in f.keys <==> kid in f.certs
    ensures kid in f.certs ==> f.certs[kid].Certificate? && f.keys[kid] == f.certs[kid].key
  {
    if kid in f.certs {
      assert Covers(f.certs[kid], kid, f);
    }
  }

  /**
   Over every run, a caller that looks while the last installed fetch has not expired is granted the key
   of its certificate, or refused for good if there is none of that name. After that it is told to come
   back if the last refresh failed less than five seconds ago; otherwise it waits for the one current refresh.
   */
  lemma AnswersFollowTheLog(steps: seq<Step>, c: int, first: int, second: int, unused: Channel)
    requires Reached(steps) && Enabled(After(INITIAL, steps), LookStep(c, first, second, unused))
    ensures var s := After(INITIAL, steps); var t := Apply(s, LookStep(c, first, second, unused));
      var kid, fetch := s.callers[c].kid, LastFetch(s.log);
      var current := fetch.Some? && first < fetch.value.expires;
      var failed := LastEnd(s.log).Some? && LastEnd(s.log).value.Failed?;
      var held := failed && second < LastEnd(s.log).value.at + 5_000_000_000;
      && (current && kid in fetch.value.certs ==>
            fetch.value.certs[kid].Certificate? && t.callers[c] == Done(kid, Granted(fetch.value.certs[kid].key)))
      && (current && kid !in fetch.value.certs ==> t.callers[c] == Done(kid, InvalidToken))
      && (!current && held ==> t.callers[c] == Done(kid, TemporarilyUnavailable))
      && (!current && !held ==>
            && t.callers[c].Waiting? && t.callers[c].kid == kid
            && t.fields.refreshing == Some(t.callers[c].channel)
            && t.callers[c].channel in t.refreshers && !t.refreshers[t.callers[c].channel].Ended?)
  {
    EveryRunKeepsInvariant(steps);
    RunKeepsFields(INITIAL, steps);
    var s := After(INITIAL, steps);
    StepKeepsSingleFlight(s, LookStep(c, first, second, unused));
    if LastFetch(s.log).Some? {
      LastFetchIsComplete(s.log);
      CompleteHolds(LastFetch(s.log).value, s.callers[c].kid);
    }
  }

  /** A caller's key name is the one it entered with, and its reply is final. */
  lemma CallersKeepTheirQuestion(s: System, step: Step, c: int)
    requires Enabled(s, step)
    ensures var t := Apply(s, step);
      && (c in t.callers && c !in s.callers ==> step == EnterStep(c, t.callers[c].kid) && t.callers[c].Entering?)
      && (c in s.callers ==> c in t.callers && t.callers[c].kid == s.callers[c].kid)
      && (c in s.callers && s.callers[c].Done? ==> t.callers[c] == s.callers[c])
  {
  }

  /** A caller is told that it was cancelled exactly when it was; every other reply is given under the lock. */
  lemma RepliesHaveTheirCause(s: System, step: Step, c: int)
    requires Enabled(s, step) && c in s.callers && !s.callers[c].Done? && Apply(s, step).callers[c].Done?
    ensures Apply(s, step).callers[c].reply == Cancelled <==> step == CancelStep(c)
    ensures Apply(s, step).callers[c].reply != Cancelled ==> step.LookStep? && step.caller == c
  {
  }

  /** The log misses nothing: each grant, each started refresh and each ended one adds exactly its event. */
  lemma NothingGoesUnlogged(s: System, step: Step)
    requires Enabled(s, step)
    ensures var t := Apply(s, step);
      match step
      case LookStep(c, first, second, unused) =>
        var kid := s.callers[c].kid;
        && (forall key :: t.callers[c] == Done(kid, Granted(key)) <==> t.log == s.log + [Served(first, kid, key)])
        && (unused in t.refreshers <==> t.log == s.log + [Started(second)])
        && (unused in t.refreshers ==> t.refreshers[unused] == Fetching(second))
      case FinishStep(ch, at) => |t.log| == |s.log| + 1 && t.log[..|s.log|] == s.log && t.log[|s.log|].at == at
      case _ => t.log == s.log
  {
    hide CompleteFetch;
    if step.LookStep? {
      var kid := s.callers[step.caller].kid;
      var events := Logged(kid, Look(s.fields, kid, step.first, step.second, step.unused).1, step.first, step.second);
      assert Apply(s, step).log == s.log + events;
      forall e
        ensures s.log + events == s.log + [e] <==> events == [e]
      {
        if s.log + events == s.log + [e] {
          assert (s.log + events)[|s.log|..] == events && (s.log + [e])[|s.log|..] == [e];
        }
      }
    }
  }

  /** What a refresh fetched stays as it is until the refresh ends. */
  lemma FetchedStays(s: System, step: Step, ch: Channel)
    requires Enabled(s, step) && ch in s.refreshers && s.refreshers[ch].Fetched?
    requires !(step.FinishStep? && step.channel == ch)
    ensures ch in Apply(s, step).refreshers && Apply(s, step).refreshers[ch] == s.refreshers[ch]
  {
  }

  /** A fetch is reported as it ended: its result is the one installed or logged as failed, and nothing else. */
  lemma FetchedIsInstalled(s: System, ch: Channel, result: Option<Fetch>, at: int, later: int)
    requires Enabled(s, FetchStep(ch, result, at)) && at <= later
    ensures var t := Apply(s, FetchStep(ch, result, at));
      && Enabled(t, FinishStep(ch, later))
      && t.fields == s.fields && t.log == s.log
      && Apply(t, FinishStep(ch, later)).log
         == s.log + [match result case None => Failed(later) case Some(fetch) => Installed(later, fetch)]
      && Apply(t, FinishStep(ch, later)).fields.refreshing.None?
  {
    hide CompleteFetch;
  }
}
