/** The records of the `messages` collection and the two system notices
    that the join handler and the inactivity sweep write. */
module Messages {

  /** The broadcast address: a message sent to "Todos" is shown to everyone. */
  const Everyone: string := "Todos"

  /** Text of the notice written when a participant joins. */
  const JoinText: string := "entra na sala..."

  /** Text of the notice written when the sweep evicts a participant. */
  const LeaveText: string := "sai da sala..."

  /** The `type` field. Clients may post only the first two; `Status` is
      reserved for the notices the server writes itself. */
  datatype Kind = PublicMessage | PrivateMessage | Status

  /** The string stored in the `type` field for each kind. */
  function KindName(k: Kind): string {
    match k
    case PublicMessage => "message"
    case PrivateMessage => "private_message"
    case Status => "status"
  }

  /** One stored message. `time` is the formatted clock reading ("HH:mm:ss"),
      opaque to the model. */
  datatype Message = Message(from: string, to: string, text: string, kind: Kind, time: string)

  /** A system notice about `name`, addressed to everyone. */
  function Notice(name: string, text: string, time: string): Message {
    Message(name, Everyone, text, Status, time)
  }

  /** Whether `m` is a notice about `name` with the given text (whatever its time). */
  predicate IsNotice(m: Message, name: string, text: string) {
    m.from == name && m.to == Everyone && m.text == text && m.kind == Status
  }

  /** How many notices about `name` with the given text `msgs` holds. */
  function NoticeCount(msgs: seq<Message>, name: string, text: string): nat {
    if msgs == [] then 0
    else (if IsNotice(msgs[0], name, text) then 1 else 0) + NoticeCount(msgs[1..], name, text)
  }

  /** Counting notices distributes over concatenation of message logs. */
  lemma {:induction false} NoticeCountAppend(a: seq<Message>, b: seq<Message>, name: string, text: string)
    ensures NoticeCount(a + b, name, text) == NoticeCount(a, name, text) + NoticeCount(b, name, text)
  {
    if a != [] {
      assert (a + b)[1..] == a[1..] + b;
      NoticeCountAppend(a[1..], b, name, text);
    } else {
      assert a + b == b;
    }
  }

  /** A positive count is witnessed by a notice stored at some position. */
  lemma {:induction false} NoticeCountWitness(msgs: seq<Message>, name: string, text: string)
    requires NoticeCount(msgs, name, text) > 0
    ensures exists i :: 0 <= i < |msgs| && IsNotice(msgs[i], name, text)
  {
    if !IsNotice(msgs[0], name, text) {
      NoticeCountWitness(msgs[1..], name, text);
      var i :| 0 <= i < |msgs| - 1 && IsNotice(msgs[1..][i], name, text);
      assert IsNotice(msgs[i + 1], name, text);
    }
  }
}
