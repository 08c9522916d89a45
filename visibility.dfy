/** The message listing: which stored messages a viewer is shown, and the
    trailing window a `limit` selects. */
module Visibility {
  import opened Messages
  import opened Requests

  /** The store query: sent to the viewer, sent by the viewer, or sent to
      everyone. Without a `user` header the query compares `to` and `from`
      with a missing value, which no stored message has, so only the
      broadcast clause can match. */
  predicate CanSee(m: Message, user: Option<string>) {
    m.to == Everyone || (user.Some? && (m.to == user.value || m.from == user.value))
  }

  /** The messages `user` is shown, in store order. */
  function Visible(msgs: seq<Message>, user: Option<string>): (r: seq<Message>)
    ensures |r| <= |msgs|
    ensures forall m :: m in r ==> m in msgs && CanSee(m, user)
  {
    if msgs == [] then []
    else (if CanSee(msgs[0], user) then [msgs[0]] else []) + Visible(msgs[1..], user)
  }

  /** `r` is `s` with some elements left out and the rest kept in order. */
  predicate IsSubsequence<T(==)>(r: seq<T>, s: seq<T>) {
    if r == [] then true
    else if s == [] then false
    else (r[0] == s[0] && IsSubsequence(r[1..], s[1..])) || IsSubsequence(r, s[1..])
  }

  /** The listing keeps store order: it is a subsequence of the store. */
  lemma {:induction false} VisibleIsSubsequence(msgs: seq<Message>, user: Option<string>)
    ensures IsSubsequence(Visible(msgs, user), msgs)
  {
    if msgs != [] {
      VisibleIsSubsequence(msgs[1..], user);
      var rest := Visible(msgs[1..], user);
      if CanSee(msgs[0], user) {
        assert Visible(msgs, user) == [msgs[0]] + rest;
        assert Visible(msgs, user)[1..] == rest;
      } else {
        assert Visible(msgs, user) == rest;
      }
    }
  }

  /** The listing holds every stored copy of each message the viewer can see
      and no copy of any other message. */
  lemma {:induction false} VisibleMultiplicity(msgs: seq<Message>, user: Option<string>, m: Message)
    ensures multiset(Visible(msgs, user))[m] == if CanSee(m, user) then multiset(msgs)[m] else 0
  {
    if msgs != [] {
      VisibleMultiplicity(msgs[1..], user, m);
      assert msgs == [msgs[0]] + msgs[1..];
      assert multiset(msgs) == multiset{msgs[0]} + multiset(msgs[1..]);
    }
  }

  /** The listing of a longer store extends the listing of the shorter one:
      a message appended to the store is appended to exactly the listings
      of the viewers who can see it. */
  lemma {:induction false} VisibleAppend(a: seq<Message>, b: seq<Message>, user: Option<string>)
    ensures Visible(a + b, user) == Visible(a, user) + Visible(b, user)
  {
    if a == [] {
      assert a + b == b;
    } else {
      assert (a + b)[1..] == a[1..] + b;
      VisibleAppend(a[1..], b, user);
    }
  }

  /** A notice or any message sent to everyone reaches every viewer: it is
      appended to every listing. */
  lemma BroadcastReachesEveryone(msgs: seq<Message>, m: Message, user: Option<string>)
    requires m.to == Everyone
    ensures Visible(msgs + [m], user) == Visible(msgs, user) + [m]
  {
    VisibleAppend(msgs, [m], user);
    assert Visible([m], user) == [m] + Visible([], user);
  }

  /** A message to one participant reaches its sender and its addressee and
      leaves every other viewer's listing as it was, including that of a
      request without a `user` header. */
  lemma DirectReachesOnlyItsEnds(msgs: seq<Message>, m: Message, user: Option<string>)
    requires m.to != Everyone
    ensures user.Some? && (user.value == m.from || user.value == m.to) ==>
      Visible(msgs + [m], user) == Visible(msgs, user) + [m]
    ensures user.None? || (user.value != m.from && user.value != m.to) ==>
      Visible(msgs + [m], user) == Visible(msgs, user)
  {
    VisibleAppend(msgs, [m], user);
    assert Visible([m], user) == (if CanSee(m, user) then [m] else []) + Visible([], user);
  }

  /** `s.slice(start)` for an array `s`: a negative start counts back from
      the end and is clamped at the front, a start past the end gives
      nothing. For a negative start `-n` the result is the trailing window of
      the last `min(n, |s|)` elements. */
  function SliceFrom<T>(s: seq<T>, start: int): (r: seq<T>)
    ensures start < 0 ==> |r| == (if -start < |s| then -start else |s|) && r == s[|s| - |r|..]
    ensures start >= 0 ==> |r| == (if start < |s| then |s| - start else 0) && r == s[|s| - |r|..]
  {
    if start < 0 then s[if |s| + start < 0 then 0 else |s| + start..]
    else s[if start > |s| then |s| else start..]
  }

  /** The listing handler: an invalid `limit` is refused with 422; no limit
      gives the whole listing; a valid limit `n` gives its last `n` entries. */
  function GetMessages(msgs: seq<Message>, user: Option<string>, limit: Limit): (r: Reply<seq<Message>>)
    ensures r.Refused? <==> !ValidLimit(limit)
    ensures r.Refused? ==> r.status == Unprocessable
    ensures limit.NoLimit? ==> r == Answered(Visible(msgs, user))
    ensures r.Answered? && limit.Number? ==>
      var all := Visible(msgs, user);
      var n := limit.value.Floor;
      && |r.value| == (if n < |all| then n else |all|)
      && r.value == all[|all| - |r.value|..]
  {
    if !ValidLimit(limit) then Refused(Unprocessable)
    else if limit.Number? then
      Answered(SliceFrom(Visible(msgs, user), -limit.value.Floor))
    else Answered(Visible(msgs, user))
  }
}
