/** Presence: the inactivity cutoff, the sweep's query, and the agreement
    between the participants collection and the join and departure notices
    in the message log. */
module Presence {
  import opened Messages

  /** Milliseconds without a heartbeat after which the sweep evicts a participant. */
  const InactivityTimeout: int := 10000

  /** The sweep's query: the participants whose last heartbeat is older than
      the cutoff `now - InactivityTimeout`. */
  function Stale(participants: map<string, int>, now: int): set<string> {
    set name | name in participants && participants[name] < now - InactivityTimeout
  }

  /** The message log tells who is present: every name has exactly one more
      join notice than departure notices while it is a participant, and as
      many of each while it is not. */
  ghost predicate PresenceAgrees(participants: map<string, int>, msgs: seq<Message>) {
    forall name :: NoticeCount(msgs, name, JoinText)
                   == NoticeCount(msgs, name, LeaveText) + (if name in participants then 1 else 0)
  }

  /** Appending one message changes the counts only for the notice it is. */
  lemma NoticeCountSnoc(msgs: seq<Message>, m: Message, name: string, text: string)
    ensures NoticeCount(msgs + [m], name, text)
            == NoticeCount(msgs, name, text) + (if IsNotice(m, name, text) then 1 else 0)
  {
    NoticeCountAppend(msgs, [m], name, text);
    assert [m][1..] == [];
  }

  /** Admitting a new participant together with its join notice keeps the agreement. */
  lemma JoinKeepsPresence(participants: map<string, int>, msgs: seq<Message>, name: string, now: int, time: string)
    requires PresenceAgrees(participants, msgs)
    requires name !in participants
    ensures PresenceAgrees(participants[name := now], msgs + [Notice(name, JoinText, time)])
  {
    var after, log := participants[name := now], msgs + [Notice(name, JoinText, time)];
    forall other: string
      ensures NoticeCount(log, other, JoinText)
              == NoticeCount(log, other, LeaveText) + (if other in after then 1 else 0)
    {
      NoticeCountSnoc(msgs, Notice(name, JoinText, time), other, JoinText);
      NoticeCountSnoc(msgs, Notice(name, JoinText, time), other, LeaveText);
    }
  }

  /** Removing a participant together with its departure notice keeps the agreement. */
  lemma EvictKeepsPresence(participants: map<string, int>, msgs: seq<Message>, name: string, time: string)
    requires PresenceAgrees(participants, msgs)
    requires name in participants
    ensures PresenceAgrees(participants - {name}, msgs + [Notice(name, LeaveText, time)])
  {
    var after, log := participants - {name}, msgs + [Notice(name, LeaveText, time)];
    forall other: string
      ensures NoticeCount(log, other, JoinText)
              == NoticeCount(log, other, LeaveText) + (if other in after then 1 else 0)
    {
      NoticeCountSnoc(msgs, Notice(name, LeaveText, time), other, JoinText);
      NoticeCountSnoc(msgs, Notice(name, LeaveText, time), other, LeaveText);
    }
  }

  /** A message that is not a status notice leaves the agreement as it was. */
  lemma PostKeepsPresence(participants: map<string, int>, msgs: seq<Message>, m: Message)
    requires PresenceAgrees(participants, msgs)
    requires m.kind != Status
    ensures PresenceAgrees(participants, msgs + [m])
  {
    forall name: string
      ensures NoticeCount(msgs + [m], name, JoinText)
              == NoticeCount(msgs + [m], name, LeaveText) + (if name in participants then 1 else 0)
    {
      NoticeCountSnoc(msgs, m, name, JoinText);
      NoticeCountSnoc(msgs, m, name, LeaveText);
    }
  }

  /** Every present participant has a join notice in the log. */
  lemma PresentHasJoinNotice(participants: map<string, int>, msgs: seq<Message>, name: string)
    requires PresenceAgrees(participants, msgs)
    requires name in participants
    ensures exists i :: 0 <= i < |msgs| && IsNotice(msgs[i], name, JoinText)
  {
    assert NoticeCount(msgs, name, JoinText) > 0;
    NoticeCountWitness(msgs, name, JoinText);
  }

  /** Every name with a departure notice also has a join notice in the log
      (the agreement counts notices, so it does not fix their order). */
  lemma DepartedHadJoined(participants: map<string, int>, msgs: seq<Message>, name: string)
    requires PresenceAgrees(participants, msgs)
    requires NoticeCount(msgs, name, LeaveText) > 0
    ensures exists i :: 0 <= i < |msgs| && IsNotice(msgs[i], name, JoinText)
  {
    assert NoticeCount(msgs, name, JoinText) > 0;
    NoticeCountWitness(msgs, name, JoinText);
  }

  /** `log` is what one sweep tick appends after evicting `names`: departure
      notices stamped `time`, exactly one for each evicted name and none for
      any other name. */
  ghost predicate DepartureLog(log: seq<Message>, names: set<string>, time: string) {
    && |log| == |names|
    && (forall i :: 0 <= i < |log| ==> log[i] == Notice(log[i].from, LeaveText, time))
    && (forall name :: NoticeCount(log, name, LeaveText) == if name in names then 1 else 0)
  }

  /** Evicting one more name and appending its notice extends a departure log. */
  lemma DepartureLogSnoc(log: seq<Message>, names: set<string>, name: string, time: string)
    requires DepartureLog(log, names, time)
    requires name !in names
    ensures DepartureLog(log + [Notice(name, LeaveText, time)], names + {name}, time)
  {
    var d := Notice(name, LeaveText, time);
    forall other
      ensures NoticeCount(log + [d], other, LeaveText) == if other in names + {name} then 1 else 0
    {
      NoticeCountSnoc(log, d, other, LeaveText);
    }
  }
}
