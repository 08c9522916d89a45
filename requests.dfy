/** What a request carries once the HTTP layer has parsed it, the replies the
    handlers send, and the body and query validation the handlers perform
    before they touch the store. */
module Requests {
  import opened Messages

  datatype Option<T> = None | Some(value: T)

  /** The reply statuses the handlers send: 201, 200, 409, 422 and 404. */
  datatype Status = Created | Ok | Conflict | Unprocessable | NotFound

  /** A reply that either carries a value (sent with 200) or is refused with a status. */
  datatype Reply<T> = Answered(value: T) | Refused(status: Status)

  /** One member of a parsed JSON body: a string, or any other JSON value. */
  datatype Field = Text(s: string) | NonText

  /** A parsed JSON request body: its members by key. */
  type Body = map<string, Field>

  /** The body fields of a client post, after validation. */
  datatype Draft = Draft(to: string, text: string, kind: Kind)

  /** A member a schema requires to be a string: present, a string, and not
      the empty string (whitespace alone is accepted). */
  predicate RequiredText(body: Body, key: string) {
    key in body && body[key].Text? && body[key].s != ""
  }

  /** The body a client sends to join as `name`. */
  function JoinBody(name: string): Body {
    map["name" := Text(name)]
  }

  /** Validation of the join body: an object whose only member is a non-empty
      string `name` (unknown members are refused). Yields the name. */
  function JoinName(body: Body): (r: Option<string>)
    ensures r.Some? ==> r.value != "" && body == JoinBody(r.value)
  {
    if body.Keys <= {"name"} && RequiredText(body, "name") then
      assert body.Keys == {"name"};
      Some(body["name"].s)
    else
      None
  }

  /** Every one-member body with a non-empty name is accepted, and yields that name. */
  lemma JoinNameAccepts(name: string)
    requires name != ""
    ensures JoinName(JoinBody(name)) == Some(name)
  {
  }

  /** The kinds a client may post, by the string in the `type` member. */
  function ClientKind(s: string): (r: Option<Kind>)
    ensures r.Some? ==> r.value != Status && KindName(r.value) == s
    ensures forall k :: k != Status && KindName(k) == s ==> r == Some(k)
  {
    if s == "message" then Some(PublicMessage)
    else if s == "private_message" then Some(PrivateMessage)
    else None
  }

  /** The body a client sends to post `d`. */
  function DraftBody(d: Draft): Body {
    map["to" := Text(d.to), "text" := Text(d.text), "type" := Text(KindName(d.kind))]
  }

  /** Validation of the post body: an object with exactly the members `to`
      and `text` (non-empty strings) and `type` ("message" or
      "private_message"); unknown members are refused. */
  function PostDraft(body: Body): (r: Option<Draft>)
    ensures r.Some? ==> r.value.to != "" && r.value.text != "" && r.value.kind != Status
    ensures r.Some? ==> body == DraftBody(r.value)
  {
    if body.Keys <= {"to", "text", "type"} && RequiredText(body, "to") && RequiredText(body, "text")
       && "type" in body && body["type"].Text? && ClientKind(body["type"].s).Some?
    then
      var d := Draft(body["to"].s, body["text"].s, ClientKind(body["type"].s).value);
      assert body.Keys == DraftBody(d).Keys;
      Some(d)
    else
      None
  }

  /** Every well-formed draft a client may send is accepted unchanged. */
  lemma PostDraftAccepts(d: Draft)
    requires d.to != "" && d.text != "" && d.kind != Status
    ensures PostDraft(DraftBody(d)) == Some(d)
  {
  }

  /** The `limit` query parameter as the number schema sees it: absent, a
      numeric string read as a number, or something that is not a number. */
  datatype Limit = NoLimit | Number(value: real) | NotNumber

  /** The number schema's verdict: absent, or a number that is an integer greater than 0. */
  predicate ValidLimit(l: Limit) {
    l.NoLimit? || (l.Number? && l.value > 0.0 && l.value.Floor as real == l.value)
  }
}
