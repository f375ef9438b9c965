/**
 One outbound call (`makeOutboundCall`): validate the client, clean up the
 number, build the request for the voice-agent API and report what came back.

 The API itself is not modelled: its answer to this one request is a parameter.
 */
module Calls {
  import opened Wrappers
  import Phone

  /** A client record as the sheet reader produces it: field name to cell text. */
  type Client = map<string, string>

  /** `YOUR_COMPANY_NAME` (line 19). */
  const CompanyName: string := "Our Company"

  /** The parts of the `vapi.call.create` payload that depend on the client.
      The static assistant configuration and the phone-number identifier are
      configuration and are left out. */
  datatype CallRequest = CallRequest(customerNumber: string, firstMessage: string, clientName: string)

  /** What the voice-agent API does with a request: create a call with an id, or throw. */
  datatype ApiReply = Created(id: string) | Threw(message: string)

  /** The outcome of `makeOutboundCall`: the request it sent (if it got that far)
      and the id of the call object it resolved to (`None` is its `return null`). */
  datatype CallAttempt = CallAttempt(sent: Option<CallRequest>, call: Option<string>)

  /** `client.key`, with a missing key read as the empty string: both are falsy,
      and every use in the source only tests truthiness or falls back with `||`. */
  function Field(c: Client, key: string): (v: string)
    ensures key in c ==> v == c[key]
    ensures key !in c ==> v == ""
  {
    if key in c then c[key] else ""
  }

  /** `client.name || fallback`: the name when it is non-empty, else the fallback. */
  function NameOr(c: Client, fallback: string): (r: string)
    ensures Field(c, "name") != "" ==> r == c["name"]
    ensures Field(c, "name") == "" ==> r == fallback
  {
    if Field(c, "name") != "" then c["name"] else fallback
  }

  const Greeting: string := "Hi, is this "
  const Closing: string := "? This is [Your Agent Name] calling from " + CompanyName + ". How are you today?"

  /** The assistant's first message (line 105): it opens with the greeting and
      addresses the client by name, or as "available" when there is none. */
  function FirstMessage(c: Client): (m: string)
    ensures |m| > |Greeting| + |NameOr(c, "available")|
    ensures m[..|Greeting|] == Greeting
    ensures m[|Greeting|..|Greeting| + |NameOr(c, "available")|] == NameOr(c, "available")
  {
    Greeting + NameOr(c, "available") + Closing
  }

  /** The request for a client whose number cleaned up to `number` (lines 101-120). */
  function Request(c: Client, number: string): (q: CallRequest)
    ensures q.customerNumber == number
    ensures q.firstMessage == FirstMessage(c)
    ensures q.clientName == NameOr(c, "there")
  {
    CallRequest(number, FirstMessage(c), NameOr(c, "there"))
  }

  /** `makeOutboundCall(client)`, given the API's answer `reply` to the request
      it would send. No request is sent for a missing client, an empty phone
      field or a number the clean-up rejects; a call object comes back exactly
      when a request was sent and the API created the call. */
  function MakeOutboundCall(client: Option<Client>, reply: ApiReply): (r: CallAttempt)
    ensures r.sent.Some? <==>
              client.Some? && Field(client.value, "phone_number") != ""
              && Phone.Normalize(client.value["phone_number"]).Some?
    ensures r.sent.Some? ==>
              r.sent.value == Request(client.value, Phone.Normalize(client.value["phone_number"]).value)
    ensures r.sent.Some? ==> Phone.StartsWithPlus(r.sent.value.customerNumber)
                             && Phone.AllDialChars(r.sent.value.customerNumber)
    ensures r.call.Some? <==> r.sent.Some? && reply.Created?
    ensures r.call.Some? ==> r.call.value == reply.id
  {
    if client.None? || Field(client.value, "phone_number") == "" then
      CallAttempt(None, None)
    else
      match Phone.Normalize(client.value["phone_number"])
      case None => CallAttempt(None, None)
      case Some(number) =>
        var q := Request(client.value, number);
        match reply
        case Created(id) => CallAttempt(Some(q), Some(id))
        case Threw(_) => CallAttempt(Some(q), None)
  }

  /** The two name fallbacks: the greeting says "available" and the prompt
      variable says "there" exactly when the client has no non-empty name. */
  lemma NameFallbacks(c: Client)
    ensures NameOr(c, "available") == "available" || NameOr(c, "available") == c["name"]
    ensures NameOr(c, "there") == NameOr(c, "available") <==> Field(c, "name") != ""
    ensures NameOr(c, "there") != ""
  {
  }
}
