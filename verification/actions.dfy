/**
 The server action `sendN8NEvent`: pick the webhook for the event name,
 look up the client IP, merge it into `userData`, post once, and turn every
 outcome (missing URL, HTTP failure, exception) into a result value.
 */
module Actions {
  import opened Base
  import opened Text
  import opened Events

  const PageViewUrl := "https://redis-n8n.rzilkp.easypanel.host/webhook-test/pageviewfb"
  const AddToCartUrl := "https://redis-n8n.rzilkp.easypanel.host/webhook-test/addtocartfb"
  const InitiateCheckoutUrl := "https://redis-n8n.rzilkp.easypanel.host/webhook-test/checkoutfb"

  /** `webhookUrls[eventName]`: one URL for each of the three known events. */
  function WebhookUrl(eventName: string): (r: Option<string>)
    ensures r.Some? <==> eventName == "PageView" || eventName == "AddToCart" || eventName == "InitiateCheckout"
    ensures eventName == "InitiateCheckout" ==> r == Some(InitiateCheckoutUrl)
  {
    if eventName == "PageView" then Some(PageViewUrl)
    else if eventName == "AddToCart" then Some(AddToCartUrl)
    else if eventName == "InitiateCheckout" then Some(InitiateCheckoutUrl)
    else None
  }

  /** Each known event posts to its own webhook. */
  lemma WebhookUrlsDistinct(a: string, b: string)
    requires WebhookUrl(a).Some? && WebhookUrl(b).Some? && a != b
    ensures WebhookUrl(a) != WebhookUrl(b)
  {
    assert PageViewUrl[53] == 'p' && AddToCartUrl[53] == 'a' && InitiateCheckoutUrl[53] == 'c';
  }

  /** How the webhook `fetch` went. `textError` is set when reading the body of a failed reply threw. */
  datatype WebhookReply =
    | Replied(status: nat, textError: Option<string>)
    | Threw(message: string)

  /** `response.ok`. */
  predicate Ok(status: nat)
  {
    200 <= status <= 299
  }

  /** `{ success: true }` or `{ success: false, error }`. */
  datatype SendResult = Success | Failure(error: string)

  /** The outside calls one invocation makes, in order. */
  datatype Call = LookupIp | Post(url: string, body: Payload)

  datatype Dispatch = Dispatch(calls: seq<Call>, result: SendResult)

  /** `{...data, userData: {...data.userData, client_ip_address: ip}}`. */
  function WithClientIp(data: Payload, ip: string): (r: Payload)
    ensures r.userData.clientIp == Str(ip)
    ensures r.(userData := r.userData.(clientIp := data.userData.clientIp)) == data
  {
    data.(userData := data.userData.(clientIp := Str(ip)))
  }

  /** Merging twice is merging the last IP only. */
  lemma WithClientIpOverrides(data: Payload, a: string, b: string)
    ensures WithClientIp(WithClientIp(data, a), b) == WithClientIp(data, b)
  {
  }

  /** Two payloads that differ only in their client IP merge to the same payload. */
  lemma WithClientIpIgnoresInput(d1: Payload, d2: Payload, ip: string)
    requires d1.(userData := d1.userData.(clientIp := Absent)) == d2.(userData := d2.userData.(clientIp := Absent))
    ensures WithClientIp(d1, ip) == WithClientIp(d2, ip)
  {
    assert WithClientIp(d1, ip) == d1.(userData := d1.userData.(clientIp := Absent)).(userData := d1.userData.(clientIp := Str(ip)));
  }

  const NoUrlPrefix := "No webhook URL configured for event: "
  const StatusPrefix := "N8N webhook failed with status "

  /** The error reported for a reply that is not ok. */
  function StatusError(status: nat): (e: string)
    ensures |e| > |StatusPrefix| && e[..|StatusPrefix|] == StatusPrefix
    ensures AllDigits(e[|StatusPrefix|..]) && DecimalValue(e[|StatusPrefix|..]) == status
  {
    var e := StatusPrefix + Decimal(status);
    assert e[|StatusPrefix|..] == Decimal(status);
    DecimalRoundTrip(status);
    e
  }

  /** Different statuses give different errors. */
  lemma StatusErrorInjective(s1: nat, s2: nat)
    requires StatusError(s1) == StatusError(s2)
    ensures s1 == s2
  {
  }

  /** `sendN8NEvent(data)` given the IP lookup's and the webhook's outcomes. */
  function SendN8NEvent(data: Payload, ipLookup: IpLookup, reply: WebhookReply): (d: Dispatch)
    ensures WebhookUrl(data.eventName).None? ==> d == Dispatch([], Failure(NoUrlPrefix + data.eventName))
    ensures WebhookUrl(data.eventName).Some? ==>
      d.calls == [LookupIp, Post(WebhookUrl(data.eventName).value, WithClientIp(data, ClientIp(ipLookup)))]
    ensures d.result.Success? <==> WebhookUrl(data.eventName).Some? && reply.Replied? && Ok(reply.status)
    ensures WebhookUrl(data.eventName).Some? && reply.Threw? ==> d.result == Failure(reply.message)
    ensures WebhookUrl(data.eventName).Some? && reply.Replied? && !Ok(reply.status) ==>
      d.result == (if reply.textError.Some? then Failure(reply.textError.value) else Failure(StatusError(reply.status)))
  {
    match WebhookUrl(data.eventName)
    case None => Dispatch([], Failure(NoUrlPrefix + data.eventName))
    case Some(url) =>
      var calls := [LookupIp, Post(url, WithClientIp(data, ClientIp(ipLookup)))];
      match reply
      case Threw(message) => Dispatch(calls, Failure(message))
      case Replied(status, textError) =>
        if Ok(status) then Dispatch(calls, Success)
        else if textError.Some? then Dispatch(calls, Failure(textError.value))
        else Dispatch(calls, Failure(StatusError(status)))
  }

  /** How many posts a list of calls holds. */
  function Posts(calls: seq<Call>): nat
  {
    if |calls| == 0 then 0 else (if calls[0].Post? then 1 else 0) + Posts(calls[1..])
  }

  /** One post for a known event, none otherwise; never a retry, and the IP lookup comes first. */
  lemma OnePost(data: Payload, ipLookup: IpLookup, reply: WebhookReply)
    ensures var d := SendN8NEvent(data, ipLookup, reply);
      Posts(d.calls) == if WebhookUrl(data.eventName).Some? then 1 else 0
    ensures var d := SendN8NEvent(data, ipLookup, reply);
      forall k :: 0 <= k < |d.calls| && d.calls[k].Post? ==> exists j :: 0 <= j < k && d.calls[j] == LookupIp
  {
    var d := SendN8NEvent(data, ipLookup, reply);
    if WebhookUrl(data.eventName).Some? {
      assert d.calls[1..][1..] == [];
      assert Posts(d.calls[1..]) == 1;
      assert d.calls[0] == LookupIp;
    }
  }

  /** A failed IP lookup still posts, with an empty client IP. */
  lemma IpFailureStillPosts(data: Payload, ipLookup: IpLookup, reply: WebhookReply)
    requires !ipLookup.IpOk? && WebhookUrl(data.eventName).Some?
    ensures SendN8NEvent(data, ipLookup, reply).calls[1].body.userData.clientIp == Str("")
  {
  }

  /**
   For a known event, the posted `client_ip_address` is the address a
   successful lookup found; so, when a successful lookup always yields an
   address, the posted IP is empty exactly when the lookup failed.
   */
  lemma PostedIpShowsLookup(data: Payload, ipLookup: IpLookup, reply: WebhookReply)
    requires WebhookUrl(data.eventName).Some?
    ensures var d := SendN8NEvent(data, ipLookup, reply);
      && |d.calls| == 2 && d.calls[1].Post?
      && (ipLookup.IpOk? ==> d.calls[1].body.userData.clientIp == Str(ipLookup.ip))
      && ((ipLookup.IpOk? ==> ipLookup.ip != "") ==>
            (d.calls[1].body.userData.clientIp == Str("") <==> !ipLookup.IpOk?))
  {
  }

  /** The outcome of the IP lookup never changes the result, only the posted IP. */
  lemma ResultIgnoresIp(data: Payload, l1: IpLookup, l2: IpLookup, reply: WebhookReply)
    ensures SendN8NEvent(data, l1, reply).result == SendN8NEvent(data, l2, reply).result
  {
  }
}
