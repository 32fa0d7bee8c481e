/** What routed mail, outbound messages, notes and pins leave in an event. */
module EventMail {
  import opened PyText
  import opened Events
  import opened EventLaws

  // ---------------------------------------------------------------------------
  // Routed mail

  /** Addressed to the event, or to any, and stored. */
  predicate MeantFor(accept: Option<string>, m: Mail, rawIds: map<string, int>)
  {
    (accept.None? || accept.value == m.toBase) && m.messageId in rawIds
  }

  /** Meant for the event, which does not have it, and the first of the batch to be the same stored message. */
  predicate New(ev: Event, accept: Option<string>, mail: seq<Mail>, rawIds: map<string, int>, i: nat)
    requires i < |mail|
  {
    && MeantFor(accept, mail[i], rawIds)
    && (forall j :: 0 <= j < |ev.messages| ==> ev.messages[j].rawId != Some(rawIds[mail[i].messageId]))
    && forall k :: 0 <= k < i && MeantFor(accept, mail[k], rawIds) ==>
         rawIds[mail[k].messageId] != rawIds[mail[i].messageId]
  }

  /** The message says which mail it is and whom it comes from, and is linked to the participant of that callsign
      when there is one. */
  ghost predicate Carries(db: Db, e: int, x: Message, m: Mail, rawIds: map<string, int>)
  {
    && m.messageId in rawIds && x.rawId == Some(rawIds[m.messageId]) && x.fromCallsign == m.fromBase
    && forall p :: x.participantId == Some(p) <==> IsParticipant(db, e, m.fromBase, p)
  }

  /** The entry tells of mail from that callsign. */
  predicate TellsOf(x: LogEntry, m: Mail, now: int)
  {
    x == LogEntry(x.seqNo, System, Some(m.fromBase), None, false, now)
  }

  /** The event gained a message, and an entry, for each of the mails chosen, in order, and nothing else. */
  ghost predicate Gained(db: Db, e: int, ev': Event, mail: seq<Mail>, rawIds: map<string, int>, chosen: seq<nat>,
                         now: int)
    requires e in db.events && forall j :: 0 <= j < |chosen| ==> chosen[j] < |mail|
  {
    var ev := db.events[e];
    && ev' == ev.(log := ev'.log, logSeq := ev'.logSeq, messages := ev'.messages, msgSeq := ev'.msgSeq)
    && ev.messages <= ev'.messages && |ev'.messages| == |ev.messages| + |chosen|
    && ev.log <= ev'.log && |ev'.log| == |ev.log| + |chosen|
    && forall j :: 0 <= j < |chosen| ==>
      && Carries(db, e, ev'.messages[|ev.messages| + j], mail[chosen[j]], rawIds)
      && TellsOf(ev'.log[|ev.log| + j], mail[chosen[j]], now)
  }

  predicate Rising(chosen: seq<nat>) { forall j, k :: 0 <= j < k < |chosen| ==> chosen[j] < chosen[k] }

  ghost predicate EachNew(ev: Event, accept: Option<string>, mail: seq<Mail>, rawIds: map<string, int>,
                          chosen: seq<nat>, n: nat)
    requires n <= |mail|
  {
    forall j :: 0 <= j < |chosen| ==> chosen[j] < n && New(ev, accept, mail, rawIds, chosen[j])
  }

  ghost predicate NoneMissed(ev: Event, accept: Option<string>, mail: seq<Mail>, rawIds: map<string, int>,
                             chosen: seq<nat>, n: nat)
    requires n <= |mail|
  {
    forall i :: 0 <= i < n && New(ev, accept, mail, rawIds, i) ==> i in chosen
  }

  /** The places, in order, of the mails new to the event among the first n. */
  ghost predicate AllNew(ev: Event, accept: Option<string>, mail: seq<Mail>, rawIds: map<string, int>,
                         chosen: seq<nat>, n: nat)
    requires n <= |mail|
  {
    Rising(chosen) && EachNew(ev, accept, mail, rawIds, chosen, n) && NoneMissed(ev, accept, mail, rawIds, chosen, n)
  }

  /** The event has the stored message, once it has the chosen ones. */
  ghost predicate HasRaw(ev: Event, accept: Option<string>, mail: seq<Mail>, rawIds: map<string, int>, n: nat, raw: int)
    requires n <= |mail|
  {
    || AlreadyRouted(ev, raw)
    || exists k :: 0 <= k < n && MeantFor(accept, mail[k], rawIds) && rawIds[mail[k].messageId] == raw
  }

  lemma RoutedCarries(db: Db, e: int, ev: Event, m: Mail, rawIds: map<string, int>, now: int)
    requires Consistent(db) && e in db.events && m.messageId in rawIds
    ensures var ev' := Routed(ev, m, rawIds[m.messageId], Find(db, e, m.fromBase), now);
      && ev' == ev.(log := ev'.log, logSeq := ev'.logSeq, messages := ev'.messages, msgSeq := ev'.msgSeq)
      && ev.messages <= ev'.messages && |ev'.messages| == |ev.messages| + 1
      && ev.log <= ev'.log && |ev'.log| == |ev.log| + 1
      && Carries(db, e, ev'.messages[|ev.messages|], m, rawIds) && TellsOf(ev'.log[|ev.log|], m, now)
    ensures var ev' := Routed(ev, m, rawIds[m.messageId], Find(db, e, m.fromBase), now);
      forall raw :: AlreadyRouted(ev', raw) <==> AlreadyRouted(ev, raw) || raw == rawIds[m.messageId]
  {
    hide Consistent;
    var found := Find(db, e, m.fromBase);
    if found.Some? {
      OnlyOne(db, found.value);
    }
    var ev' := Routed(ev, m, rawIds[m.messageId], found, now);
    forall raw
      ensures AlreadyRouted(ev', raw) <==> AlreadyRouted(ev, raw) || raw == rawIds[m.messageId]
    {
      if AlreadyRouted(ev, raw) {
        var i :| 0 <= i < |ev.messages| && ev.messages[i].rawId == Some(raw);
        assert ev'.messages[i].rawId == Some(raw);
      }
      assert ev'.messages[|ev.messages|].rawId == Some(rawIds[m.messageId]);
    }
  }

  lemma GainedOneMore(db: Db, e: int, ev: Event, ev': Event, mail: seq<Mail>, rawIds: map<string, int>,
                      chosen: seq<nat>, i: nat, now: int)
    requires e in db.events && i < |mail| && forall j :: 0 <= j < |chosen| ==> chosen[j] < |mail|
    requires Gained(db, e, ev, mail, rawIds, chosen, now)
    requires ev' == ev.(log := ev'.log, logSeq := ev'.logSeq, messages := ev'.messages, msgSeq := ev'.msgSeq)
    requires ev.messages <= ev'.messages && |ev'.messages| == |ev.messages| + 1
    requires ev.log <= ev'.log && |ev'.log| == |ev.log| + 1
    requires Carries(db, e, ev'.messages[|ev.messages|], mail[i], rawIds) && TellsOf(ev'.log[|ev.log|], mail[i], now)
    ensures Gained(db, e, ev', mail, rawIds, chosen + [i], now)
  {
    hide Carries, TellsOf;
  }

  lemma NewIsTaken(ev0: Event, ev: Event, accept: Option<string>, mail: seq<Mail>, rawIds: map<string, int>, i: nat)
    requires i < |mail| && forall raw :: AlreadyRouted(ev, raw) <==> HasRaw(ev0, accept, mail, rawIds, i, raw)
    ensures New(ev0, accept, mail, rawIds, i) <==> Takes(ev, accept, mail[i], rawIds)
  {
  }

  lemma AllNewSnoc(ev: Event, accept: Option<string>, mail: seq<Mail>, rawIds: map<string, int>,
                   chosen: seq<nat>, i: nat)
    requires i < |mail| && AllNew(ev, accept, mail, rawIds, chosen, i)
    ensures AllNew(ev, accept, mail, rawIds, if New(ev, accept, mail, rawIds, i) then chosen + [i] else chosen, i + 1)
  {
    hide New, Rising, EachNew, NoneMissed;
    RisesSnoc(ev, accept, mail, rawIds, chosen, i);
    NoneMissedSnoc(ev, accept, mail, rawIds, chosen, i);
  }

  lemma RisesSnoc(ev: Event, accept: Option<string>, mail: seq<Mail>, rawIds: map<string, int>,
                  chosen: seq<nat>, i: nat)
    requires i < |mail| && Rising(chosen) && EachNew(ev, accept, mail, rawIds, chosen, i)
    ensures var more := if New(ev, accept, mail, rawIds, i) then chosen + [i] else chosen;
      Rising(more) && EachNew(ev, accept, mail, rawIds, more, i + 1)
  {
    hide New;
  }

  lemma NoneMissedSnoc(ev: Event, accept: Option<string>, mail: seq<Mail>, rawIds: map<string, int>,
                       chosen: seq<nat>, i: nat)
    requires i < |mail| && NoneMissed(ev, accept, mail, rawIds, chosen, i)
    ensures var more := if New(ev, accept, mail, rawIds, i) then chosen + [i] else chosen;
      NoneMissed(ev, accept, mail, rawIds, more, i + 1)
  {
    hide New;
    var more := if New(ev, accept, mail, rawIds, i) then chosen + [i] else chosen;
    forall k | 0 <= k < i + 1 && New(ev, accept, mail, rawIds, k)
      ensures k in more
    {
      if k < i {
        assert k in chosen;
      } else {
        assert more[|chosen|] == k;
      }
    }
  }

  lemma HasRawSnoc(ev0: Event, ev: Event, ev': Event, accept: Option<string>, mail: seq<Mail>,
                   rawIds: map<string, int>, i: nat)
    requires i < |mail| && forall raw :: AlreadyRouted(ev, raw) <==> HasRaw(ev0, accept, mail, rawIds, i, raw)
    requires if Takes(ev, accept, mail[i], rawIds)
             then mail[i].messageId in rawIds && forall raw ::
               AlreadyRouted(ev', raw) <==> AlreadyRouted(ev, raw) || raw == rawIds[mail[i].messageId]
             else ev' == ev
    ensures forall raw :: AlreadyRouted(ev', raw) <==> HasRaw(ev0, accept, mail, rawIds, i + 1, raw)
  {
    hide AlreadyRouted;
    TakesMeant(ev, accept, mail[i], rawIds);
    hide Takes;
  }

  /** After the first n messages of a batch the event has gained exactly those meant for it that were new. */
  lemma {:induction false} RoutedGains(db: Db, e: int, accept: Option<string>, mail: seq<Mail>,
                                      rawIds: map<string, int>, now: int, n: nat) returns (chosen: seq<nat>)
    requires Consistent(db) && e in db.events && n <= |mail|
    ensures AllNew(db.events[e], accept, mail, rawIds, chosen, n)
    ensures Gained(db, e, RoutedTo(db, e, accept, mail, rawIds, now, n), mail, rawIds, chosen, now)
    ensures var ev' := RoutedTo(db, e, accept, mail, rawIds, now, n);
      forall raw :: AlreadyRouted(ev', raw) <==> HasRaw(db.events[e], accept, mail, rawIds, n, raw)
    decreases n
  {
    hide Consistent, Takes, Routed, AlreadyRouted, Carries, TellsOf, New, AllNew, HasRaw, Gained;
    if n == 0 {
      chosen := [];
      NothingGained(db, e, accept, mail, rawIds, now);
    } else {
      var i := n - 1;
      chosen := RoutedGains(db, e, accept, mail, rawIds, now, i);
      ChosenIn(db.events[e], accept, mail, rawIds, chosen, i);
      var ev, ev' := RoutedTo(db, e, accept, mail, rawIds, now, i), RoutedTo(db, e, accept, mail, rawIds, now, n);
      NewIsTaken(db.events[e], ev, accept, mail, rawIds, i);
      TakesMeant(ev, accept, mail[i], rawIds);
      AllNewSnoc(db.events[e], accept, mail, rawIds, chosen, i);
      if Takes(ev, accept, mail[i], rawIds) {
        RoutedCarries(db, e, ev, mail[i], rawIds, now);
        GainedOneMore(db, e, ev, ev', mail, rawIds, chosen, i, now);
        chosen := chosen + [i];
      }
      HasRawSnoc(db.events[e], ev, ev', accept, mail, rawIds, i);
    }
  }

  lemma NothingGained(db: Db, e: int, accept: Option<string>, mail: seq<Mail>, rawIds: map<string, int>, now: int)
    requires e in db.events
    ensures AllNew(db.events[e], accept, mail, rawIds, [], 0)
    ensures Gained(db, e, RoutedTo(db, e, accept, mail, rawIds, now, 0), mail, rawIds, [], now)
    ensures forall raw :: AlreadyRouted(db.events[e], raw) <==> HasRaw(db.events[e], accept, mail, rawIds, 0, raw)
  {
  }

  lemma TakesMeant(ev: Event, accept: Option<string>, m: Mail, rawIds: map<string, int>)
    ensures Takes(ev, accept, m, rawIds) <==>
      MeantFor(accept, m, rawIds) && !AlreadyRouted(ev, rawIds[m.messageId])
  {
  }

  /** Routing a batch gives every active event the messages meant for it that are new to it, among those the pass
      got to (all of them, unless it broke), each linked to its sender; all else stays as it was. */
  lemma MailLeaves(db: Db, accepts: map<int, string>, mail: seq<Mail>, rawIds: map<string, int>, reached: map<int, nat>,
                   now: int, e: int) returns (chosen: seq<nat>)
    requires Consistent(db) && e in db.events
    ensures var db' := Apply(db, RouteMail(accepts, mail, rawIds, reached), now).db;
      && db'.posts == db.posts && db'.participants == db.participants && db'.events.Keys == db.events.Keys
      && (!HasStatus(db, e, Active) ==> db'.events[e] == db.events[e])
    ensures var db' := Apply(db, RouteMail(accepts, mail, rawIds, reached), now).db;
      var accept := if e in accepts then Some(accepts[e]) else None;
      var n := if e in reached && reached[e] <= |mail| then reached[e] else |mail|;
      HasStatus(db, e, Active) ==>
        && AllNew(db.events[e], accept, mail, rawIds, chosen, n)
        && Gained(db, e, db'.events[e], mail, rawIds, chosen, now)
  {
    hide Consistent, RoutedTo, AllNew, Gained;
    chosen := [];
    if HasStatus(db, e, Active) {
      var n := Reached(reached, e, mail);
      chosen := RoutedGains(db, e, Accept(accepts, e), mail, rawIds, now, n);
      ChosenIn(db.events[e], Accept(accepts, e), mail, rawIds, chosen, n);
    }
  }

  lemma ChosenIn(ev: Event, accept: Option<string>, mail: seq<Mail>, rawIds: map<string, int>, chosen: seq<nat>, n: nat)
    requires n <= |mail| && AllNew(ev, accept, mail, rawIds, chosen, n)
    ensures forall j :: 0 <= j < |chosen| ==> chosen[j] < |mail|
  {
  }

  // ---------------------------------------------------------------------------
  // Notes, pins and outbound messages

  /** Only that event changed. */
  ghost predicate OnlyEvent(db: Db, db': Db, e: int)
  {
    && e in db.events && e in db'.events && db'.events == db.events[e := db'.events[e]]
    && db'.posts == db.posts && db'.participants == db.participants
  }

  /** A note goes on active events only; it is about a callsign or about none, sets no status, and is pinned or
      not as asked. */
  lemma NoteLeaves(db: Db, e: int, about: Option<string>, pin: bool, now: int)
    requires Consistent(db)
    ensures var o := Apply(db, AddNote(e, about, pin), now);
      && (o.result == Ok <==> HasStatus(db, e, Active))
      && (o.result == Refused(NotActive) <==> !HasStatus(db, e, Active))
      && (o.result.Ok? ==>
            && OnlyEvent(db, o.db, e)
            && var ev, ev' := db.events[e], o.db.events[e];
            && ev' == ev.(log := ev'.log, logSeq := |ev'.log|) && ev.log <= ev'.log && |ev'.log| == |ev.log| + 1
            && var x := ev'.log[|ev.log|];
            && x.entryType == (if about == None || about == Some("") then Note else ParticipantNote)
            && x == LogEntry(|ev.log| + 1, x.entryType, about, None, pin, now))
  {
    hide LogOk;
    if e in db.events {
      OneEventOk(db, e);
    }
  }

  /** Pinning or unpinning sets that one entry's pin, on events that are not closed, and nothing else. */
  lemma PinLeaves(db: Db, e: int, entry: nat, pin: bool, now: int)
    requires Consistent(db)
    ensures var o := Apply(db, SetPinned(e, entry, pin), now);
      && (o.result == Refused(NotActive) <==> !Open(db, e))
      && (o.result == Missing <==> Open(db, e) && forall x :: x in db.events[e].log ==> x.seqNo != entry)
      && (o.result == Ok || o.result == Missing || o.result == Refused(NotActive))
      && (o.result.Ok? ==>
            && OnlyEvent(db, o.db, e)
            && var ev, ev' := db.events[e], o.db.events[e];
            && ev' == ev.(log := ev'.log) && |ev'.log| == |ev.log|
            && forall i :: 0 <= i < |ev.log| ==>
                 ev'.log[i] == if ev.log[i].seqNo == entry then ev.log[i].(pinned := pin) else ev.log[i])
  {
    hide LegalEntry;
    if e in db.events {
      OneEventOk(db, e);
      if 1 <= entry <= |db.events[e].log| {
        assert db.events[e].log[entry - 1] in db.events[e].log;
      }
    }
  }

  /** An outbound message goes on active events only, last and without a stored message. */
  lemma SendLeaves(db: Db, e: int, from: string, now: int)
    requires Consistent(db)
    ensures var o := Apply(db, SendMessage(e, from), now);
      && (o.result == Ok <==> HasStatus(db, e, Active))
      && (o.result == Refused(NotActive) <==> !HasStatus(db, e, Active))
      && (o.result.Ok? ==>
            && OnlyEvent(db, o.db, e)
            && var ev, ev' := db.events[e], o.db.events[e];
            && ev' == ev.(messages := ev'.messages, msgSeq := |ev'.messages|)
            && ev'.messages == ev.messages + [Message(|ev.messages| + 1, None, None, from)])
  {
    hide LogOk;
    if e in db.events {
      OneEventOk(db, e);
    }
  }
}
