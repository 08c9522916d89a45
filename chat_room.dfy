/** The server's store and the handlers that change it: join, post a message,
    heartbeat, and one tick of the inactivity sweep. Each store call is one
    atomic step; `now` (milliseconds) and `time` (the formatted clock
    reading stored in messages) are given by the caller. */
module ChatServer {
  import opened Messages
  import opened Requests
  import opened Presence

  class ChatRoom {
    /** The participants collection: each name with its last heartbeat time. */
    var participants: map<string, int>
    /** The messages collection, in the order the store lists it, taken to be
        insertion order. */
    var messages: seq<Message>

    /** No participant has an empty name, and the notices in the log agree
        with who is present. */
    ghost predicate Valid()
      reads this
    {
      && (forall name :: name in participants ==> name != "")
      && PresenceAgrees(participants, messages)
    }

    /** An empty store. */
    constructor ()
      ensures Valid()
      ensures participants == map[] && messages == []
    {
      participants := map[];
      messages := [];
    }

    /** POST /participants. An invalid body is refused with 422 and a name
        already present with 409, both without any write; otherwise the name
        is admitted with heartbeat time `now` and a join notice is appended. */
    method Join(body: Body, now: int, time: string) returns (status: Status)
      requires Valid()
      modifies this
      ensures Valid()
      ensures JoinName(body).None? ==>
        status == Unprocessable && participants == old(participants) && messages == old(messages)
      ensures JoinName(body).Some? && JoinName(body).value in old(participants) ==>
        status == Conflict && participants == old(participants) && messages == old(messages)
      ensures JoinName(body).Some? && JoinName(body).value !in old(participants) ==>
        var name := JoinName(body).value;
        && status == Created
        && participants == old(participants)[name := now]
        && messages == old(messages) + [Notice(name, JoinText, time)]
    {
      var name := JoinName(body);
      if name.None? {
        return Unprocessable;
      }
      if name.value in participants {
        return Conflict;
      }
      JoinKeepsPresence(participants, messages, name.value, now, time);
      participants := participants[name.value := now];
      messages := messages + [Notice(name.value, JoinText, time)];
      status := Created;
    }

    /** POST /messages. An invalid body, or a `user` header that names no
        participant, is refused with 422 and nothing is written; otherwise
        one message from that user is appended. Participants never change. */
    method PostMessage(user: Option<string>, body: Body, time: string) returns (status: Status)
      requires Valid()
      modifies this
      ensures Valid()
      ensures participants == old(participants)
      ensures PostDraft(body).None? || user.None? || user.value !in old(participants) ==>
        status == Unprocessable && messages == old(messages)
      ensures PostDraft(body).Some? && user.Some? && user.value in old(participants) ==>
        var d := PostDraft(body).value;
        && status == Created
        && messages == old(messages) + [Message(user.value, d.to, d.text, d.kind, time)]
    {
      var draft := PostDraft(body);
      if draft.None? {
        return Unprocessable;
      }
      if user.None? || user.value !in participants {
        return Unprocessable;
      }
      var m := Message(user.value, draft.value.to, draft.value.text, draft.value.kind, time);
      PostKeepsPresence(participants, messages, m);
      messages := messages + [m];
      status := Created;
    }

    /** POST /status. A missing header or an unknown name gets 404 and nothing
        changes; a participant's heartbeat time becomes `now`. */
    method Heartbeat(user: Option<string>, now: int) returns (status: Status)
      requires Valid()
      modifies this
      ensures Valid()
      ensures messages == old(messages)
      ensures user.None? || user.value !in old(participants) ==>
        status == NotFound && participants == old(participants)
      ensures user.Some? && user.value in old(participants) ==>
        status == Ok && participants == old(participants)[user.value := now]
    {
      if user.None? || user.value !in participants {
        return NotFound;
      }
      participants := participants[user.value := now];
      status := Ok;
    }

    /** The body of the sweep's per-participant callback: delete the
        participant, then append its departure notice. */
    method Evict(name: string, time: string)
      requires Valid()
      requires name in participants
      modifies this
      ensures Valid()
      ensures participants == old(participants) - {name}
      ensures messages == old(messages) + [Notice(name, LeaveText, time)]
    {
      EvictKeepsPresence(participants, messages, name, time);
      participants := participants - {name};
      messages := messages + [Notice(name, LeaveText, time)];
    }

    /** The sweep's loop over the participants its query found: each is
        evicted in turn, in no particular order. */
    method EvictAll(names: set<string>, time: string)
      requires Valid()
      requires names <= participants.Keys
      modifies this
      ensures Valid()
      ensures participants == old(participants) - names
      ensures |messages| >= |old(messages)| && messages[..|old(messages)|] == old(messages)
      ensures DepartureLog(messages[|old(messages)|..], names, time)
    {
      var pending := names;
      ghost var evicted: set<string>, log: seq<Message> := {}, [];
      while pending != {}
        invariant evicted <= names && pending == names - evicted
        invariant Valid()
        invariant participants == old(participants) - evicted
        invariant messages == old(messages) + log
        invariant DepartureLog(log, evicted, time)
        decreases pending
      {
        var name :| name in pending;
        DepartureLogSnoc(log, evicted, name, time);
        Evict(name, time);
        pending := pending - {name};
        evicted, log := evicted + {name}, log + [Notice(name, LeaveText, time)];
      }
      assert messages[|old(messages)|..] == log;
    }

    /** One tick of the inactivity sweep at time `now`: every participant whose
        last heartbeat is older than `now - InactivityTimeout` is removed, and
        one departure notice per removed participant is appended, in no
        particular order. Existing messages are kept. */
    method Sweep(now: int, time: string)
      requires Valid()
      modifies this
      ensures Valid()
      ensures forall name :: name in participants <==>
        name in old(participants) && old(participants)[name] >= now - InactivityTimeout
      ensures participants == old(participants) - Stale(old(participants), now)
      ensures |messages| >= |old(messages)| && messages[..|old(messages)|] == old(messages)
      ensures DepartureLog(messages[|old(messages)|..], Stale(old(participants), now), time)
    {
      var stale := Stale(participants, now);
      EvictAll(stale, time);
    }
  }
}
