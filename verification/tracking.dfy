/**
 The first tracker: `initializeTracking` as one transition over the cookie
 jar, `localStorage` and `sessionStorage`, and `getClientData`, which only
 reads them. Clock readings, the random draw, the made UUID, the user agent
 and the IP lookup are inputs.
 */
module Tracking {
  import opened Base
  import opened Text
  import opened Cookies
  import opened Events

  /** The three browser stores the trackers use. */
  datatype Stores = Stores(jar: Jar, local: Store, session: Store)

  /** What one run of `initializeTracking` takes from its environment. */
  datatype PageLoad = PageLoad(
    uuid: string,        // `uuidv4()`
    fbpNowMs: nat,       // `Date.now()` when `_fbp` is made
    fbpRandom: nat,      // `Math.floor(Math.random() * 1e10)`
    fbcNowMs: nat,       // `Date.now()` when `_fbc` is made
    eventNowMs: nat,     // `Date.now()` inside `generateEventId`
    userAgent: string,   // `navigator.userAgent`
    ipLookup: IpLookup)

  /** The result of `initializeTracking`, with the stores it leaves behind. */
  datatype Initialized = Initialized(stores: Stores, userData: UserData, eventId: string)

  const SessionCookie := "my_session_id"
  const FbpCookie := "_fbp"
  const FbcCookie := "_fbc"
  const VisitorDays := 365

  /** Source and destination of the three UTM values. */
  const UtmSource := "utm_source"
  const UtmMedium := "utm_medium"
  const UtmCampaign := "utm_campaign"
  const AdIdKey := "ad_id"
  const AdsetIdKey := "adset_id"
  const CampaignIdKey := "campaign_id"

  const UserAgentKey := "user_agent"
  const ClientIpKey := "client_ip_address"

  /** A value a made id may take: a non-empty cookie value (`uuidv4()` output is one). */
  predicate CookieSafe(v: string)
  {
    v != "" && ';' !in v
  }

  /** The names this module writes are valid cookie names. */
  lemma NamesValid()
    ensures ValidName(SessionCookie) && ValidName(FbpCookie) && ValidName(FbcCookie)
  {
  }

  // ---- the visitor id ----

  /**
   Read cookie `name`; only when it is missing (or empty) store `made` under
   it for `days` days. Returns the jar and the value in use.
   */
  function EnsureCookie(jar: Jar, name: string, made: string, days: int): (r: (Jar, string))
    ensures Truthy(ReadCookie(jar, name)) ==> r == (jar, ReadCookie(jar, name).value)
    ensures !Truthy(ReadCookie(jar, name)) ==>
      r.1 == made && Lookup(r.0, name) == Some(Cookie(name, FirstField(made), days))
    ensures forall n :: n != name ==> Lookup(r.0, n) == Lookup(jar, n)
    ensures WellFormed(jar) && ValidName(name) ==> WellFormed(r.0)
  {
    var current := ReadCookie(jar, name);
    if Truthy(current) then (jar, current.value)
    else (Put(jar, name, made, days), made)
  }

  /** The visitor id: `my_session_id`, created from `uuid` with a lifetime of `days` only when missing. */
  function EnsureVisitorId(jar: Jar, uuid: string, days: int): (Jar, string)
  {
    EnsureCookie(jar, SessionCookie, uuid, days)
  }

  /** Once an id is ensured, ensuring again changes nothing and yields the same id. */
  lemma EnsureCookieIdempotent(jar: Jar, name: string, f1: string, f2: string, d1: int, d2: int)
    requires WellFormed(jar) && ValidName(name) && CookieSafe(f1)
    ensures EnsureCookie(EnsureCookie(jar, name, f1, d1).0, name, f2, d2) == EnsureCookie(jar, name, f1, d1)
  {
    var j1 := EnsureCookie(jar, name, f1, d1).0;
    ReadAfterRender(j1, name);
    if !Truthy(ReadCookie(jar, name)) {
      assert Stored(j1, name) == Some(f1);
    }
  }

  /** With a safe `made`, the cookie reads back afterwards as the value in use. */
  lemma EnsureCookieReads(jar: Jar, name: string, made: string, days: int)
    requires WellFormed(jar) && ValidName(name) && CookieSafe(made)
    ensures var r := EnsureCookie(jar, name, made, days);
      WellFormed(r.0) && ReadCookie(r.0, name) == Some(r.1)
  {
    if !Truthy(ReadCookie(jar, name)) {
      ReadAfterPut(jar, name, made, days);
    }
  }

  // ---- the Meta browser id (`_fbp`) and click id (`_fbc`) ----

  /** `fb.1.<now>.<random>`. */
  function FbpValue(nowMs: nat, random: nat): string
  {
    "fb.1." + Decimal(nowMs) + "." + Decimal(random)
  }

  /** `fb.1.<now>.<fbclid>`. */
  function FbcValue(nowMs: nat, fbclid: string): string
  {
    "fb.1." + Decimal(nowMs) + "." + fbclid
  }

  lemma DecimalHasNoSeparator(n: nat)
    ensures '.' !in Decimal(n) && ';' !in Decimal(n)
  {
    var d := Decimal(n);
    forall k | 0 <= k < |d| ensures d[k] != '.' && d[k] != ';' {
      assert IsDigit(d[k]);
    }
  }

  /** `fb.1.` followed by `x` cut at `.` gives `fb`, `1` and the cuts of `x`. */
  lemma FbPrefixFields(x: string, xs: seq<string>)
    requires |xs| >= 1 && Join(xs, ".") == x
    requires forall k :: 0 <= k < |xs| ==> '.' !in xs[k]
    ensures Split("fb.1." + x, ".") == ["fb", "1"] + xs
  {
    var parts := ["fb", "1"] + xs;
    assert parts == ["fb"] + (["1"] + xs);
    JoinCons("1", xs, ".");
    JoinCons("fb", ["1"] + xs, ".");
    var a, b := "fb" + ".", "1" + ".";
    assert a + b == "fb.1.";
    Assoc(a, b, x);
    assert Join(parts, ".") == "fb.1." + x;
    forall k | 0 <= k < |parts| ensures "."[0] !in parts[k] {
      if k >= 2 {
        assert parts[k] == xs[k - 2];
      }
    }
    SplitJoin(parts, ".");
  }

  /**
   A generated `_fbp` cut at `.` is `fb`, `1`, the time and the random
   number, so both numbers can be read back from it.
   */
  lemma FbpFields(nowMs: nat, random: nat)
    ensures Split(FbpValue(nowMs, random), ".") == ["fb", "1", Decimal(nowMs), Decimal(random)]
  {
    var d1, d2 := Decimal(nowMs), Decimal(random);
    DecimalHasNoSeparator(nowMs);
    DecimalHasNoSeparator(random);
    Join2(d1, d2, ".");
    FbPrefixFields(d1 + "." + d2, [d1, d2]);
    assert FbpValue(nowMs, random) == "fb.1." + (d1 + "." + d2) by {
      Assoc("fb.1." + d1, ".", d2);
      Assoc("fb.1.", d1, "." + d2);
      Assoc(d1, ".", d2);
    }
    assert ["fb", "1"] + [d1, d2] == ["fb", "1", d1, d2];
  }

  /** Two `_fbp` values are equal only when made at the same time from the same draw. */
  lemma FbpInjective(n1: nat, r1: nat, n2: nat, r2: nat)
    requires FbpValue(n1, r1) == FbpValue(n2, r2)
    ensures n1 == n2 && r1 == r2
  {
    FbpFields(n1, r1);
    FbpFields(n2, r2);
    assert Decimal(n1) == Decimal(n2);
    assert Decimal(r1) == Decimal(r2);
    DecimalInjective(n1, n2);
    DecimalInjective(r1, r2);
  }

  /** A generated `_fbp` is a safe cookie value. */
  lemma FbpCookieSafe(nowMs: nat, random: nat)
    ensures CookieSafe(FbpValue(nowMs, random))
  {
    DecimalHasNoSeparator(nowMs);
    DecimalHasNoSeparator(random);
  }

  /** A `_fbc` made from a `;`-free click id is a safe cookie value. */
  lemma FbcCookieSafe(nowMs: nat, fbclid: string)
    requires ';' !in fbclid
    ensures CookieSafe(FbcValue(nowMs, fbclid))
  {
    DecimalHasNoSeparator(nowMs);
    var d := Decimal(nowMs);
    assert FbcValue(nowMs, fbclid) == "fb.1." + d + "." + fbclid;
    assert FbcValue(nowMs, fbclid)[0] == 'f';
    assert forall c :: c in FbcValue(nowMs, fbclid) ==> c in "fb.1." || c in d || c in "." || c in fbclid;
  }

  /** Keep a present `_fbp`; otherwise make one from the clock and the draw and store it for the default lifetime. */
  function EnsureFbp(jar: Jar, nowMs: nat, random: nat): (Jar, string)
  {
    EnsureCookie(jar, FbpCookie, FbpValue(nowMs, random), DefaultDays)
  }

  /**
   `_fbc`: a truthy `fbclid` in the URL overwrites whatever was stored;
   without one the stored cookie is read as it is.
   */
  function ResolveFbc(jar: Jar, fbclid: Option<string>, nowMs: nat): (r: (Jar, Option<string>))
    ensures Truthy(fbclid) ==>
      var v := FbcValue(nowMs, fbclid.value);
      r.1 == Some(v) && Lookup(r.0, FbcCookie) == Some(Cookie(FbcCookie, FirstField(v), DefaultDays))
    ensures !Truthy(fbclid) ==> r == (jar, ReadCookie(jar, FbcCookie))
    ensures forall n :: n != FbcCookie ==> Lookup(r.0, n) == Lookup(jar, n)
    ensures WellFormed(jar) ==> WellFormed(r.0)
  {
    NamesValid();
    if Truthy(fbclid) then
      var v := FbcValue(nowMs, fbclid.value);
      (Put(jar, FbcCookie, v, DefaultDays), Some(v))
    else (jar, ReadCookie(jar, FbcCookie))
  }

  // ---- UTM capture and the session store ----

  /** `if (v) storage.setItem(key, v)`. */
  function SetIfTruthy(s: Store, key: string, v: Option<string>): (r: Store)
    ensures Truthy(v) ==> key in r && r[key] == v.value
    ensures !Truthy(v) ==> r == s
    ensures forall k :: k != key ==> GetItem(r, k) == GetItem(s, k)
    ensures forall k :: k in s ==> k in r
  {
    if Truthy(v) then s[key := v.value] else s
  }

  /** The value a key holds after a conditional write. */
  function Overwritten(old_: Option<string>, v: Option<string>): Option<string>
  {
    if Truthy(v) then v else old_
  }

  predicate IsUtmKey(k: string)
  {
    k == AdIdKey || k == AdsetIdKey || k == CampaignIdKey
  }

  /**
   Each of `utm_source`, `utm_medium`, `utm_campaign` is written to `ad_id`,
   `adset_id`, `campaign_id` only when it is non-empty; keys without a value
   in the URL keep what they held.
   */
  function CaptureUtm(local: Store, q: Query): (r: Store)
    ensures GetItem(r, AdIdKey) == Overwritten(GetItem(local, AdIdKey), QueryGet(q, UtmSource))
    ensures GetItem(r, AdsetIdKey) == Overwritten(GetItem(local, AdsetIdKey), QueryGet(q, UtmMedium))
    ensures GetItem(r, CampaignIdKey) == Overwritten(GetItem(local, CampaignIdKey), QueryGet(q, UtmCampaign))
    ensures forall k :: !IsUtmKey(k) ==> GetItem(r, k) == GetItem(local, k)
  {
    var s1 := SetIfTruthy(local, AdIdKey, QueryGet(q, UtmSource));
    var s2 := SetIfTruthy(s1, AdsetIdKey, QueryGet(q, UtmMedium));
    SetIfTruthy(s2, CampaignIdKey, QueryGet(q, UtmCampaign))
  }

  /** A stored attribution value is never erased by a later visit: it is kept or replaced by a non-empty one. */
  lemma UtmNeverErased(local: Store, q: Query, k: string)
    requires IsUtmKey(k) && k in local
    ensures k in CaptureUtm(local, q)
    ensures CaptureUtm(local, q)[k] == local[k] || CaptureUtm(local, q)[k] != ""
  {
    var r := CaptureUtm(local, q);
    assert GetItem(r, k).Some?;
  }

  /** A visit whose URL has no UTM values leaves `localStorage` as it was. */
  lemma UtmWithoutParams(local: Store, q: Query)
    requires !Truthy(QueryGet(q, UtmSource)) && !Truthy(QueryGet(q, UtmMedium)) && !Truthy(QueryGet(q, UtmCampaign))
    ensures CaptureUtm(local, q) == local
  {
  }

  /** The user agent and the looked-up IP go into `sessionStorage`, each only when non-empty. */
  function RememberClient(session: Store, userAgent: string, ip: string): (r: Store)
    ensures GetItem(r, UserAgentKey) == if userAgent != "" then Some(userAgent) else GetItem(session, UserAgentKey)
    ensures GetItem(r, ClientIpKey) == if ip != "" then Some(ip) else GetItem(session, ClientIpKey)
    ensures forall k :: k != UserAgentKey && k != ClientIpKey ==> GetItem(r, k) == GetItem(session, k)
  {
    SetIfTruthy(SetIfTruthy(session, UserAgentKey, Some(userAgent)), ClientIpKey, Some(ip))
  }

  // ---- event ids ----

  /** `generateEventId`: `<eventName>.<externalId>.<now>`. */
  function GenerateEventId(eventName: string, externalId: string, nowMs: nat): string
  {
    eventName + "." + externalId + "." + Decimal(nowMs)
  }

  /** With `.`-free name and id, the event id cuts back into name, id and time. */
  lemma EventIdFields(eventName: string, externalId: string, nowMs: nat)
    requires '.' !in eventName && '.' !in externalId
    ensures Split(GenerateEventId(eventName, externalId, nowMs), ".") == [eventName, externalId, Decimal(nowMs)]
  {
    DecimalHasNoSeparator(nowMs);
    Join3(eventName, externalId, Decimal(nowMs), ".");
    SplitJoin([eventName, externalId, Decimal(nowMs)], ".");
  }

  /** Two events of the same name and visitor made at different milliseconds get different ids. */
  lemma EventIdDistinct(eventName: string, externalId: string, t1: nat, t2: nat)
    requires '.' !in eventName && '.' !in externalId && t1 != t2
    ensures GenerateEventId(eventName, externalId, t1) != GenerateEventId(eventName, externalId, t2)
  {
    EventIdFields(eventName, externalId, t1);
    EventIdFields(eventName, externalId, t2);
    if GenerateEventId(eventName, externalId, t1) == GenerateEventId(eventName, externalId, t2) {
      DecimalInjective(t1, t2);
    }
  }

  // ---- initializeTracking and getClientData ----

  /** The three cookie-backed ids `initializeTracking` settles, and the jar after it wrote them. */
  datatype Ids = Ids(jar: Jar, externalId: string, fbp: string, fbc: Option<string>)

  /** Visitor id, then `_fbp`, then `_fbc`, each step on the jar the previous one left. */
  function Identify(jar: Jar, fbclid: Option<string>, env: PageLoad): (r: Ids)
    ensures WellFormed(jar) ==> WellFormed(r.jar)
  {
    NamesValid();
    var (j1, sid) := EnsureVisitorId(jar, env.uuid, VisitorDays);
    assert WellFormed(jar) ==> WellFormed(j1);
    var (j2, fbp) := EnsureFbp(j1, env.fbpNowMs, env.fbpRandom);
    assert WellFormed(jar) ==> WellFormed(j2);
    var (j3, fbc) := ResolveFbc(j2, fbclid, env.fbcNowMs);
    Ids(j3, sid, fbp, fbc)
  }

  /**
   The visitor id in use is the stored one when there is one, else the new
   UUID; afterwards the cookie reads back as that id.
   */
  lemma IdentifyVisitor(jar: Jar, fbclid: Option<string>, env: PageLoad)
    requires WellFormed(jar) && CookieSafe(env.uuid)
    ensures Truthy(ReadCookie(jar, SessionCookie)) ==> Identify(jar, fbclid, env).externalId == ReadCookie(jar, SessionCookie).value
    ensures !Truthy(ReadCookie(jar, SessionCookie)) ==> Identify(jar, fbclid, env).externalId == env.uuid
    ensures ReadCookie(Identify(jar, fbclid, env).jar, SessionCookie) == Some(Identify(jar, fbclid, env).externalId)
  {
    NamesValid();
    EnsureCookieReads(jar, SessionCookie, env.uuid, VisitorDays);
    var (j1, sid) := EnsureVisitorId(jar, env.uuid, VisitorDays);
    var (j2, fbp) := EnsureFbp(j1, env.fbpNowMs, env.fbpRandom);
    var j3 := ResolveFbc(j2, fbclid, env.fbcNowMs).0;
    assert WellFormed(j2);
    ReadSameLookup(j1, j3, SessionCookie);
  }

  /** A present `_fbp` is kept, otherwise a new one is made; afterwards the cookie reads back as the returned value. */
  lemma IdentifyFbp(jar: Jar, fbclid: Option<string>, env: PageLoad)
    requires WellFormed(jar)
    ensures Truthy(ReadCookie(jar, FbpCookie)) ==> Identify(jar, fbclid, env).fbp == ReadCookie(jar, FbpCookie).value
    ensures !Truthy(ReadCookie(jar, FbpCookie)) ==> Identify(jar, fbclid, env).fbp == FbpValue(env.fbpNowMs, env.fbpRandom)
    ensures ReadCookie(Identify(jar, fbclid, env).jar, FbpCookie) == Some(Identify(jar, fbclid, env).fbp)
  {
    NamesValid();
    var j1 := EnsureVisitorId(jar, env.uuid, VisitorDays).0;
    assert WellFormed(j1);
    ReadSameLookup(jar, j1, FbpCookie);
    FbpCookieSafe(env.fbpNowMs, env.fbpRandom);
    EnsureCookieReads(j1, FbpCookie, FbpValue(env.fbpNowMs, env.fbpRandom), DefaultDays);
    var (j2, fbp) := EnsureFbp(j1, env.fbpNowMs, env.fbpRandom);
    var j3 := ResolveFbc(j2, fbclid, env.fbcNowMs).0;
    ReadSameLookup(j2, j3, FbpCookie);
  }

  /**
   With a truthy `fbclid` the returned `_fbc` is the new value, whatever was
   stored; without one it is the stored cookie. Afterwards the cookie reads
   back as the returned value unless `fbclid` holds a `;`, which the cookie
   write cuts off.
   */
  lemma IdentifyFbc(jar: Jar, fbclid: Option<string>, env: PageLoad)
    requires WellFormed(jar)
    ensures Truthy(fbclid) ==> Identify(jar, fbclid, env).fbc == Some(FbcValue(env.fbcNowMs, fbclid.value))
    ensures !Truthy(fbclid) ==> Identify(jar, fbclid, env).fbc == ReadCookie(jar, FbcCookie)
    ensures (Truthy(fbclid) ==> ';' !in fbclid.value) ==>
      ReadCookie(Identify(jar, fbclid, env).jar, FbcCookie) == Identify(jar, fbclid, env).fbc
  {
    NamesValid();
    var j1 := EnsureVisitorId(jar, env.uuid, VisitorDays).0;
    var j2 := EnsureFbp(j1, env.fbpNowMs, env.fbpRandom).0;
    var (j3, fbc) := ResolveFbc(j2, fbclid, env.fbcNowMs);
    ReadSameLookup(jar, j1, FbcCookie);
    ReadSameLookup(j1, j2, FbcCookie);
    if Truthy(fbclid) {
      if ';' !in fbclid.value {
        FbcCookieSafe(env.fbcNowMs, fbclid.value);
        ReadAfterPut(j2, FbcCookie, FbcValue(env.fbcNowMs, fbclid.value), DefaultDays);
      }
    } else {
      assert j3 == j2;
    }
  }

  /** `initializeTracking(searchParams)` on a page that has (`hasWindow`) or lacks a `window`. */
  function InitializeTracking(hasWindow: bool, st: Stores, q: Query, env: PageLoad): (r: Initialized)
    ensures !hasWindow ==> r == Initialized(st, NullUserData, "")
    ensures WellFormed(st.jar) ==> WellFormed(r.stores.jar)
  {
    if !hasWindow then Initialized(st, NullUserData, "")
    else
      var ids := Identify(st.jar, QueryGet(q, "fbclid"), env);
      var local := CaptureUtm(st.local, q);
      var ip := ClientIp(env.ipLookup);
      var session := RememberClient(st.session, env.userAgent, ip);
      var userData := UserData(
        Str(ids.externalId), FromOption(ids.fbc), Str(ids.fbp), Str(ip), Str(env.userAgent),
        FromOption(GetItem(local, AdIdKey)), FromOption(GetItem(local, AdsetIdKey)), FromOption(GetItem(local, CampaignIdKey)));
      Initialized(Stores(ids.jar, local, session), userData, GenerateEventId("PageView", ids.externalId, env.eventNowMs))
  }

  /** The cookie-backed part of `initializeTracking` is `Identify` on the URL's `fbclid`. */
  lemma InitIds(st: Stores, q: Query, env: PageLoad)
    ensures var r := InitializeTracking(true, st, q, env);
      var ids := Identify(st.jar, QueryGet(q, "fbclid"), env);
      && r.stores.jar == ids.jar
      && r.userData.externalId == Str(ids.externalId)
      && r.eventId == GenerateEventId("PageView", ids.externalId, env.eventNowMs)
  {
  }

  /**
   The attribution ids returned by `initializeTracking` are the stored ones
   when the URL brings none, and the URL's non-empty ones otherwise.
   */
  lemma InitAttribution(st: Stores, q: Query, env: PageLoad)
    ensures var u := InitializeTracking(true, st, q, env).userData;
      && u.adId == FromOption(Overwritten(GetItem(st.local, AdIdKey), QueryGet(q, UtmSource)))
      && u.adsetId == FromOption(Overwritten(GetItem(st.local, AdsetIdKey), QueryGet(q, UtmMedium)))
      && u.campaignId == FromOption(Overwritten(GetItem(st.local, CampaignIdKey), QueryGet(q, UtmCampaign)))
  {
  }

  /** A second run, with any URL and any environment, reports the same visitor and keys its event id to it. */
  lemma InitVisitorStable(st: Stores, q1: Query, q2: Query, env1: PageLoad, env2: PageLoad)
    requires WellFormed(st.jar) && CookieSafe(env1.uuid)
    ensures var r1 := InitializeTracking(true, st, q1, env1);
      var r2 := InitializeTracking(true, r1.stores, q2, env2);
      && r2.userData.externalId == r1.userData.externalId
      && r2.eventId == GenerateEventId("PageView", r1.userData.externalId.s, env2.eventNowMs)
  {
    var r1 := InitializeTracking(true, st, q1, env1);
    var ids1 := Identify(st.jar, QueryGet(q1, "fbclid"), env1);
    InitIds(st, q1, env1);
    IdentifyVisitor(st.jar, QueryGet(q1, "fbclid"), env1);
    var id := ids1.externalId;
    assert ReadCookie(ids1.jar, SessionCookie) == Some(id);
    assert id != "" by {
      NamesValid();
      assert ReadCookie(ids1.jar, SessionCookie) == Stored(ids1.jar, SessionCookie);
    }
    SecondIdentify(ids1.jar, id, QueryGet(q2, "fbclid"), env2);
    InitIds(r1.stores, q2, env2);
  }

  lemma SecondIdentify(jar: Jar, id: string, fbclid: Option<string>, env: PageLoad)
    requires WellFormed(jar) && ReadCookie(jar, SessionCookie) == Some(id) && id != ""
    ensures Identify(jar, fbclid, env).externalId == id
  {
    var j1 := EnsureVisitorId(jar, env.uuid, VisitorDays);
    assert j1.1 == id;
  }

  /** A run keeps a visitor id that was already stored. */
  lemma InitKeepsVisitor(st: Stores, q: Query, env: PageLoad)
    requires WellFormed(st.jar) && CookieSafe(env.uuid) && Truthy(ReadCookie(st.jar, SessionCookie))
    ensures InitializeTracking(true, st, q, env).userData.externalId == Str(ReadCookie(st.jar, SessionCookie).value)
    ensures ReadCookie(InitializeTracking(true, st, q, env).stores.jar, SessionCookie) == ReadCookie(st.jar, SessionCookie)
  {
    IdentifyVisitor(st.jar, QueryGet(q, "fbclid"), env);
  }

  /** The user agent and IP are remembered for the session only when non-empty. */
  lemma InitRemembersClient(st: Stores, q: Query, env: PageLoad)
    ensures var s := InitializeTracking(true, st, q, env).stores.session;
      && GetItem(s, ClientIpKey) == (if ClientIp(env.ipLookup) != "" then Some(ClientIp(env.ipLookup)) else GetItem(st.session, ClientIpKey))
      && GetItem(s, UserAgentKey) == (if env.userAgent != "" then Some(env.userAgent) else GetItem(st.session, UserAgentKey))
  {
  }

  /** `getClientData()`: reads the cookies and both stores; it has no way to write them. */
  function GetClientData(hasWindow: bool, st: Stores): (u: UserData)
    ensures !hasWindow ==> u == NullUserData
  {
    if !hasWindow then NullUserData
    else UserData(
      FromOption(ReadCookie(st.jar, SessionCookie)),
      FromOption(ReadCookie(st.jar, FbcCookie)),
      FromOption(ReadCookie(st.jar, FbpCookie)),
      FromOption(GetItem(st.session, ClientIpKey)),
      FromOption(GetItem(st.session, UserAgentKey)),
      FromOption(GetItem(st.local, AdIdKey)),
      FromOption(GetItem(st.local, AdsetIdKey)),
      FromOption(GetItem(st.local, CampaignIdKey)))
  }

  /**
   After `initializeTracking`, `getClientData` reports the same user data,
   provided the IP lookup and the user agent were non-empty (otherwise it
   reports whatever the session held before) and `fbclid` has no `;`.
   */
  lemma ClientDataAfterInit(st: Stores, q: Query, env: PageLoad)
    requires WellFormed(st.jar) && CookieSafe(env.uuid)
    requires ClientIp(env.ipLookup) != "" && env.userAgent != ""
    requires Truthy(QueryGet(q, "fbclid")) ==> ';' !in QueryGet(q, "fbclid").value
    ensures var r := InitializeTracking(true, st, q, env);
      GetClientData(true, r.stores) == r.userData
  {
    IdentifyVisitor(st.jar, QueryGet(q, "fbclid"), env);
    IdentifyFbp(st.jar, QueryGet(q, "fbclid"), env);
    IdentifyFbc(st.jar, QueryGet(q, "fbclid"), env);
    InitRemembersClient(st, q, env);
  }
}
