/**
 The offer page's checkout button: build the `InitiateCheckout` event from
 the cookies, post it to the checkout webhook, fire the pixel when it is
 loaded, and always go on to the payment page.
 */
module Offer {
  import opened Base
  import opened Cookies
  import opened Events
  import opened Tracking
  import Actions

  const CheckoutBase := "https://pay.cakto.com.br/4hq9554_540351?src="
  const CheckoutWebhook := "https://redis-n8n.rzilkp.easypanel.host/webhook-test/checkoutfb"
  const InitiateCheckout := "InitiateCheckout"
  const CheckoutValue := 5
  const CheckoutCurrency := "USD"

  /** What the click sees: the clock, `navigator.userAgent`, `location.href`, whether the webhook `fetch` threw, whether `window.fbq` exists. */
  datatype ClickEnv = ClickEnv(nowMs: nat, userAgent: string, href: string, webhookThrew: bool, pixelLoaded: bool)

  /** The outside effects of one click, in order. */
  datatype Step =
    | WebhookPost(url: string, body: Payload)
    | LogError
    | PixelTrack(eventName: string, value: int, currency: string, eventId: Option<string>)
    | Navigate(url: string)

  /** `${v}` for a `string | null`. */
  function Interpolate(v: Option<string>): (r: string)
    ensures v.None? ==> r == "null"
    ensures v.Some? ==> r == v.value
  {
    match v
    case None => "null"
    case Some(s) => s
  }

  /** The payment page, tagged with the visitor id (or the text `null`). */
  function CheckoutUrl(externalId: Option<string>): (u: string)
    ensures |u| >= |CheckoutBase| && u[..|CheckoutBase|] == CheckoutBase
    ensures u[|CheckoutBase|..] == Interpolate(externalId)
  {
    var u := CheckoutBase + Interpolate(externalId);
    assert u[|CheckoutBase|..] == Interpolate(externalId);
    u
  }

  /** Distinct visitor ids lead to distinct checkout links. */
  lemma CheckoutUrlInjective(a: string, b: string)
    requires CheckoutUrl(Some(a)) == CheckoutUrl(Some(b))
    ensures a == b
  {
    assert CheckoutUrl(Some(a))[|CheckoutBase|..] == a;
  }

  /** `checkoutPayload`: ids from the cookies, no client IP, a fixed purchase value. */
  function CheckoutPayload(jar: Jar, env: ClickEnv): (p: Payload)
    ensures p.eventName == InitiateCheckout && p.eventId.None? && p.actionSource == Website
    ensures p.userData.externalId == FromOption(ReadCookie(jar, SessionCookie))
    ensures p.userData.fbc == FromOption(ReadCookie(jar, FbcCookie))
    ensures p.userData.fbp == FromOption(ReadCookie(jar, FbpCookie))
    ensures p.userData.clientIp == Null && p.userData.userAgent == Str(env.userAgent)
    ensures p.customData == Purchase(CheckoutValue, CheckoutCurrency)
    ensures p.eventTime * 1000 <= env.nowMs < (p.eventTime + 1) * 1000
    ensures p.sourceUrl == env.href
  {
    Payload(
      InitiateCheckout,
      None,
      EpochSeconds(env.nowMs),
      UserData(
        FromOption(ReadCookie(jar, SessionCookie)),
        FromOption(ReadCookie(jar, FbcCookie)),
        FromOption(ReadCookie(jar, FbpCookie)),
        Null,
        Str(env.userAgent),
        Absent, Absent, Absent),
      Purchase(CheckoutValue, CheckoutCurrency),
      env.href,
      Website)
  }

  /** The steps of a click with a `window`, for a given event and redirect target. */
  function ClickSteps(event: Payload, target: string, webhookThrew: bool, pixelLoaded: bool): (steps: seq<Step>)
    ensures |steps| == 2 + (if webhookThrew then 1 else 0) + (if pixelLoaded then 1 else 0)
    ensures steps[0] == WebhookPost(CheckoutWebhook, event)
    ensures steps[|steps| - 1] == Navigate(target)
    ensures LogError in steps <==> webhookThrew
    ensures (exists k :: 0 <= k < |steps| && steps[k].PixelTrack?) <==> pixelLoaded
  {
    var post := [WebhookPost(CheckoutWebhook, event)];
    var logged := if webhookThrew then [LogError] else [];
    var pixel := if pixelLoaded then [PixelTrack(InitiateCheckout, CheckoutValue, CheckoutCurrency, None)] else [];
    var steps := post + logged + pixel + [Navigate(target)];
    assert pixelLoaded ==> steps[|post + logged|].PixelTrack?;
    steps
  }

  /**
   `handleCheckoutClick()`: nothing without a `window`; otherwise the
   webhook post, a logged error if it threw, the pixel call if the pixel is
   loaded, and the redirect last.
   */
  function HandleCheckoutClick(hasWindow: bool, jar: Jar, env: ClickEnv): (steps: seq<Step>)
    ensures !hasWindow ==> steps == []
    ensures hasWindow ==>
      && |steps| == 2 + (if env.webhookThrew then 1 else 0) + (if env.pixelLoaded then 1 else 0)
      && steps[0] == WebhookPost(CheckoutWebhook, CheckoutPayload(jar, env))
      && steps[|steps| - 1] == Navigate(CheckoutUrl(ReadCookie(jar, SessionCookie)))
    ensures LogError in steps <==> hasWindow && env.webhookThrew
    ensures (exists k :: 0 <= k < |steps| && steps[k].PixelTrack?) <==> hasWindow && env.pixelLoaded
  {
    if !hasWindow then []
    else ClickSteps(CheckoutPayload(jar, env), CheckoutUrl(ReadCookie(jar, SessionCookie)), env.webhookThrew, env.pixelLoaded)
  }

  /** A thrown webhook only adds the logged error: the pixel call and the redirect happen all the same. */
  lemma WebhookErrorContained(event: Payload, target: string, pixelLoaded: bool)
    ensures var ok := ClickSteps(event, target, false, pixelLoaded);
      ClickSteps(event, target, true, pixelLoaded) == [ok[0], LogError] + ok[1..]
  {
  }

  /** The redirect happens exactly once, at the end; the pixel, when it fires, carries no event id and comes after the post. */
  lemma StepOrder(event: Payload, target: string, webhookThrew: bool, pixelLoaded: bool)
    ensures var steps := ClickSteps(event, target, webhookThrew, pixelLoaded);
      forall k :: 0 <= k < |steps| ==> (steps[k].Navigate? <==> k == |steps| - 1)
    ensures var steps := ClickSteps(event, target, webhookThrew, pixelLoaded);
      forall k :: 0 <= k < |steps| && steps[k].PixelTrack? ==>
        k > 0 && steps[k] == PixelTrack(InitiateCheckout, CheckoutValue, CheckoutCurrency, None)
  {
  }

  /** The checkout webhook is the one `sendN8NEvent` uses for `InitiateCheckout`. */
  lemma SameCheckoutWebhook()
    ensures Actions.WebhookUrl(InitiateCheckout) == Some(CheckoutWebhook)
  {
  }

  /** The visitor id in the event and in the checkout link are the same cookie read. */
  lemma LinkMatchesEvent(jar: Jar, env: ClickEnv)
    requires Truthy(ReadCookie(jar, SessionCookie))
    ensures CheckoutPayload(jar, env).userData.externalId == Str(CheckoutUrl(ReadCookie(jar, SessionCookie))[|CheckoutBase|..])
  {
  }

  /**
   After `initializeTracking`, the checkout event reports the visitor id,
   `_fbc` and `_fbp` that `initializeTracking` returned (given a `;`-free
   `fbclid`).
   */
  lemma CheckoutAfterInit(st: Stores, q: Query, load: PageLoad, env: ClickEnv)
    requires WellFormed(st.jar) && CookieSafe(load.uuid)
    requires ClientIp(load.ipLookup) != "" && load.userAgent != ""
    requires Truthy(QueryGet(q, "fbclid")) ==> ';' !in QueryGet(q, "fbclid").value
    ensures var r := InitializeTracking(true, st, q, load);
      var u := CheckoutPayload(r.stores.jar, env).userData;
      u.externalId == r.userData.externalId && u.fbc == r.userData.fbc && u.fbp == r.userData.fbp
  {
    ClientDataAfterInit(st, q, load);
  }
}
