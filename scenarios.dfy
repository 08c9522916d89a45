/** A client session on a fresh store, with the outcomes the handlers promise. */
module Scenarios {
  import opened Messages
  import opened Requests
  import opened Visibility
  import opened ChatServer

  /** `name` joins, broadcasts "hi", tries to join again, and lists its
      messages: the first join and the post are created, the second join is
      a conflict, and the listing holds the join notice and then "hi". */
  method JoinPostRejoin(name: string, now: int, time: string)
    returns (joined: Status, posted: Status, rejoined: Status, listing: Reply<seq<Message>>)
    requires name != ""
    ensures joined == Created && posted == Created && rejoined == Conflict
    ensures listing == Answered([Notice(name, JoinText, time), Message(name, Everyone, "hi", PublicMessage, time)])
  {
    var room := new ChatRoom();
    JoinNameAccepts(name);
    joined := room.Join(JoinBody(name), now, time);
    var hi := Draft(Everyone, "hi", PublicMessage);
    PostDraftAccepts(hi);
    posted := room.PostMessage(Some(name), DraftBody(hi), time);
    rejoined := room.Join(JoinBody(name), now, time);
    var notice, post := Notice(name, JoinText, time), Message(name, Everyone, "hi", PublicMessage, time);
    assert room.messages == [notice] + [post];
    BroadcastReachesEveryone([], notice, Some(name));
    assert [] + [notice] == [notice] && Visible([], Some(name)) == [];
    BroadcastReachesEveryone([notice], post, Some(name));
    assert Visible([notice], Some(name)) == [notice];
    assert Visible(room.messages, Some(name)) == [notice, post];
    listing := GetMessages(room.messages, Some(name), NoLimit);
  }
}
