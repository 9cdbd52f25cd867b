/**
 The event record the tracking code sends to its webhooks (`N8NClientData`)
 and the outcome of the client-IP lookup both senders perform.
 */
module Events {
  import opened Base

  /** A member of a JSON payload: left out of the object, `null`, or a string. */
  datatype Field = Absent | Null | Str(s: string)

  /** A `string | null` value placed in a payload. */
  function FromOption(o: Option<string>): (f: Field)
    ensures f != Absent
    ensures f.Str? <==> o.Some?
    ensures f.Str? ==> f.s == o.value
  {
    match o
    case None => Null
    case Some(v) => Str(v)
  }

  /** `userData`: who the visitor is and where they came from. */
  datatype UserData = UserData(
    externalId: Field,
    fbc: Field,
    fbp: Field,
    clientIp: Field,
    userAgent: Field,
    adId: Field,
    adsetId: Field,
    campaignId: Field)

  /** The `userData` returned when there is no `window`: every member `null`. */
  const NullUserData := UserData(Null, Null, Null, Null, Null, Null, Null, Null)

  /** `customData`: absent, a purchase value, or the campaign the visit came from. */
  datatype CustomData =
    | NoCustomData
    | Purchase(value: int, currency: string)
    | CampaignIds(adId: Option<string>, adsetId: Option<string>, campaignId: Option<string>)

  /** One event as posted to a webhook. */
  datatype Payload = Payload(
    eventName: string,
    eventId: Option<string>,
    eventTime: int,
    userData: UserData,
    customData: CustomData,
    sourceUrl: string,
    actionSource: string)

  const Website := "website"

  /** How the `api.ipify.org` request went. */
  datatype IpLookup =
    | IpOk(ip: string)   // a 2xx reply whose JSON carries `ip`
    | IpHttpError        // a reply that is not ok
    | IpThrew            // `fetch` or `json()` threw

  /** `getClientIp()`: the looked-up address, or `''` whenever the lookup failed. */
  function ClientIp(l: IpLookup): string
  {
    if l.IpOk? then l.ip else ""
  }

  /** Seconds since the epoch as `Math.floor(Date.now() / 1000)` computes them. */
  function EpochSeconds(nowMs: nat): (t: nat)
    ensures t * 1000 <= nowMs < (t + 1) * 1000
  {
    nowMs / 1000
  }
}
