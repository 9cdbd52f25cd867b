/**
 The second tracker component. On every page it stores the URL's campaign
 values as one JSON object (replacing any earlier one), makes sure a
 visitor id cookie exists (30 days, from its own template UUID generator),
 and on the home page sends a `HomePageView` event at most once per
 browser session.
 */
module N8nTracker {
  import opened Base
  import opened Text
  import opened Cookies
  import opened Events
  import opened Json
  import opened Tracking

  const CampaignParamsKey := "campaign_params"
  const SentFlagKey := "homePageViewSent"
  const TrackerVisitorDays := 30
  const HomePath := "/"

  // ---- campaign parameters as one JSON object ----

  /** The stored campaign object; a missing member is `None`. */
  datatype CampaignParams = CampaignParams(adId: Option<string>, adsetId: Option<string>, campaignId: Option<string>)

  const NoCampaign := CampaignParams(None, None, None)

  function Member(key: string, v: Option<string>): Members
  {
    if v.Some? then [(key, v.value)] else []
  }

  /** The members `JSON.stringify` writes: present values only, in declaration order. */
  function ParamsMembers(p: CampaignParams): Members
  {
    Member(AdIdKey, p.adId) + Member(AdsetIdKey, p.adsetId) + Member(CampaignIdKey, p.campaignId)
  }

  /** Reading the three members of a parsed object. */
  function ParamsOf(ms: Members): CampaignParams
  {
    CampaignParams(MemberValue(ms, AdIdKey), MemberValue(ms, AdsetIdKey), MemberValue(ms, CampaignIdKey))
  }

  lemma MemberValueAppend(a: Members, key: string, v: Option<string>)
    ensures MemberValue(a + Member(key, v), key) == if v.Some? then v else MemberValue(a, key)
  {
    if v.Some? {
      assert (a + Member(key, v))[|a|] == (key, v.value);
    } else {
      assert a + Member(key, v) == a;
    }
  }

  lemma MemberValueOther(a: Members, key: string, other: string, v: Option<string>)
    requires other != key
    ensures MemberValue(a + Member(other, v), key) == MemberValue(a, key)
  {
    if v.Some? {
      assert (a + Member(other, v))[..|a|] == a;
    } else {
      assert a + Member(other, v) == a;
    }
  }

  lemma KeysDistinct()
    ensures AdIdKey != AdsetIdKey && AdIdKey != CampaignIdKey && AdsetIdKey != CampaignIdKey
  {
    assert |AdIdKey| == 5 && |AdsetIdKey| == 8 && |CampaignIdKey| == 11;
  }

  /** Reading the written members gives back exactly the values written. */
  lemma ParamsRoundTrip(p: CampaignParams)
    ensures ParamsOf(ParamsMembers(p)) == p
  {
    KeysDistinct();
    var m1 := Member(AdIdKey, p.adId);
    var m2 := m1 + Member(AdsetIdKey, p.adsetId);
    var m3 := m2 + Member(CampaignIdKey, p.campaignId);
    assert ParamsMembers(p) == m3;
    assert MemberValue(m1, AdIdKey) == p.adId by {
      MemberValueAppend([], AdIdKey, p.adId);
      assert [] + m1 == m1;
    }
    assert MemberValue(m2, AdIdKey) == p.adId by {
      MemberValueOther(m1, AdIdKey, AdsetIdKey, p.adsetId);
    }
    assert MemberValue(m2, AdsetIdKey) == p.adsetId by {
      MemberValueAppend(m1, AdsetIdKey, p.adsetId);
      MemberValueAbsent(m1, AdsetIdKey, AdIdKey, p.adId);
    }
    MemberValueOther(m2, AdIdKey, CampaignIdKey, p.campaignId);
    MemberValueOther(m2, AdsetIdKey, CampaignIdKey, p.campaignId);
    assert MemberValue(m3, CampaignIdKey) == p.campaignId by {
      MemberValueAppend(m2, CampaignIdKey, p.campaignId);
      MemberValueAbsent(m1, CampaignIdKey, AdIdKey, p.adId);
      MemberValueOther(m1, CampaignIdKey, AdsetIdKey, p.adsetId);
    }
  }

  lemma MemberValueAbsent(a: Members, key: string, other: string, v: Option<string>)
    requires other != key && a == Member(other, v)
    ensures MemberValue(a, key) == None
  {
  }

  /**
   `getCampaignParams()`: `None` stands for the JavaScript `null` that
   `JSON.parse` returns for a stored text `null`. Otherwise it is the stored
   object, or `{}` when there is no window, nothing (or `""`) is stored, or
   the text does not parse. A text that parses to a string, number, boolean
   or array also reads as `{}`, since none of them has an `ad_id`,
   `adset_id` or `campaign_id`.
   */
  function GetCampaignParams(hasWindow: bool, local: Store): (r: Option<CampaignParams>)
    ensures r.None? <==> hasWindow && Truthy(GetItem(local, CampaignParamsKey)) && IsNullLiteral(local[CampaignParamsKey])
    ensures !hasWindow || !Truthy(GetItem(local, CampaignParamsKey)) ==> r == Some(NoCampaign)
    ensures Truthy(GetItem(local, CampaignParamsKey)) && Decode(local[CampaignParamsKey]).None? && !IsNullLiteral(local[CampaignParamsKey]) ==>
      r == Some(NoCampaign)
  {
    if !hasWindow then Some(NoCampaign)
    else
      var stored := GetItem(local, CampaignParamsKey);
      if !Truthy(stored) then Some(NoCampaign)
      else if IsNullLiteral(stored.value) then None
      else match Decode(stored.value)
        case None => Some(NoCampaign)
        case Some(ms) => Some(ParamsOf(ms))
  }

  /** `v || undefined` and `v || null`: a falsy value becomes missing. */
  function OrMissing(v: Option<string>): Option<string>
  {
    if Truthy(v) then v else None
  }

  /** The campaign object built from the URL. */
  function UrlCampaign(q: Query): CampaignParams
  {
    CampaignParams(OrMissing(QueryGet(q, UtmSource)), OrMissing(QueryGet(q, UtmMedium)), OrMissing(QueryGet(q, UtmCampaign)))
  }

  predicate HasCampaign(q: Query)
  {
    Truthy(QueryGet(q, UtmSource)) || Truthy(QueryGet(q, UtmMedium)) || Truthy(QueryGet(q, UtmCampaign))
  }

  /**
   When the URL carries at least one non-empty UTM value, the stored object
   is replaced wholesale by the URL's values (values the URL lacks are gone);
   otherwise `localStorage` is left alone.
   */
  function CaptureCampaign(local: Store, q: Query): (r: Store)
    ensures !HasCampaign(q) ==> r == local
    ensures HasCampaign(q) ==> GetCampaignParams(true, r) == Some(UrlCampaign(q))
    ensures forall k :: k != CampaignParamsKey ==> GetItem(r, k) == GetItem(local, k)
  {
    if HasCampaign(q) then
      var text := Encode(ParamsMembers(UrlCampaign(q)));
      var r := local[CampaignParamsKey := text];
      DecodeEncode(ParamsMembers(UrlCampaign(q)));
      ParamsRoundTrip(UrlCampaign(q));
      EncodedNotNull(ParamsMembers(UrlCampaign(q)));
      r
    else local
  }

  /**
   The two trackers merge a partial campaign differently: with only
   `utm_source` in the URL, the first keeps the stored `adset_id` while the
   second's stored object loses it.
   */
  lemma MergeSemanticsDiffer(local: Store, q: Query)
    requires Truthy(QueryGet(q, UtmSource)) && QueryGet(q, UtmMedium).None?
    ensures GetItem(CaptureUtm(local, q), AdsetIdKey) == GetItem(local, AdsetIdKey)
    ensures GetCampaignParams(true, CaptureCampaign(local, q)).Some?
    ensures GetCampaignParams(true, CaptureCampaign(local, q)).value.adsetId == None
  {
  }

  /**
   After a visit whose URL has campaign values, member by member, the stored
   object holds exactly the URL's truthy values and lacks the others.
   */
  lemma CapturedMembers(local: Store, q: Query)
    requires HasCampaign(q)
    ensures var p := GetCampaignParams(true, CaptureCampaign(local, q));
      && p.Some?
      && (p.value.adId.Some? <==> Truthy(QueryGet(q, UtmSource)))
      && (p.value.adsetId.Some? <==> Truthy(QueryGet(q, UtmMedium)))
      && (p.value.campaignId.Some? <==> Truthy(QueryGet(q, UtmCampaign)))
    ensures var p := GetCampaignParams(true, CaptureCampaign(local, q)).value;
      && (p.adId.Some? ==> p.adId == QueryGet(q, UtmSource))
      && (p.adsetId.Some? ==> p.adsetId == QueryGet(q, UtmMedium))
      && (p.campaignId.Some? ==> p.campaignId == QueryGet(q, UtmCampaign))
  {
  }

  // ---- the template UUID ----

  const UuidTemplate := "xxxxxxxx-xxxx-4xxx-yxxx-xxxxxxxxxxxx"

  /** How many random nibbles filling `t` takes. */
  function Slots(t: string): nat
    decreases |t|
  {
    if |t| == 0 then 0 else (if t[0] == 'x' || t[0] == 'y' then 1 else 0) + Slots(t[1..])
  }

  predicate Nibbles(rs: seq<nat>)
  {
    forall k :: 0 <= k < |rs| ==> rs[k] < 16
  }

  /** `r & 0x3 | 0x8`: the variant nibble, one of 8, 9, a, b. */
  function VariantNibble(r: nat): (v: nat)
    requires r < 16
    ensures 8 <= v < 12 && v % 4 == r % 4
  {
    VariantBits(r);
    (((r as bv8) & 3) | 8) as nat
  }

  lemma VariantBits(r: nat)
    requires r < 16
    ensures ((((r as bv8) & 3) | 8) as nat) == r % 4 + 8
  {
    var b := r as bv8;
    assert b & 3 == (r % 4) as bv8 && (b & 3) | 8 == (r % 4 + 8) as bv8 by {
      if r == 0 {} else if r == 1 {} else if r == 2 {} else if r == 3 {}
      else if r == 4 {} else if r == 5 {} else if r == 6 {} else if r == 7 {}
      else if r == 8 {} else if r == 9 {} else if r == 10 {} else if r == 11 {}
      else if r == 12 {} else if r == 13 {} else if r == 14 {} else {}
    }
  }

  /** The template with every `x` replaced by a random hex digit and every `y` by a variant digit, left to right. */
  function Fill(t: string, rs: seq<nat>): (u: string)
    requires |rs| == Slots(t) && Nibbles(rs)
    ensures |u| == |t|
    decreases |t|
  {
    if |t| == 0 then ""
    else if t[0] == 'x' then [HexChar(rs[0])] + Fill(t[1..], rs[1..])
    else if t[0] == 'y' then [HexChar(VariantNibble(rs[0]))] + Fill(t[1..], rs[1..])
    else [t[0]] + Fill(t[1..], rs)
  }

  /** `u` has the template's shape: hex where it has `x`, 8/9/a/b where it has `y`, its own character elsewhere. */
  predicate FitsTemplate(t: string, u: string)
  {
    && |u| == |t|
    && forall k :: 0 <= k < |t| ==>
        if t[k] == 'x' then IsLowerHex(u[k])
        else if t[k] == 'y' then u[k] in "89ab"
        else u[k] == t[k]
  }

  lemma {:induction false} FillFits(t: string, rs: seq<nat>)
    requires |rs| == Slots(t) && Nibbles(rs)
    ensures FitsTemplate(t, Fill(t, rs))
    decreases |t|
  {
    if |t| > 0 {
      var rs' := if t[0] == 'x' || t[0] == 'y' then rs[1..] else rs;
      FillFits(t[1..], rs');
      var u := Fill(t, rs);
      assert u[1..] == Fill(t[1..], rs');
      if t[0] == 'y' {
        var v := VariantNibble(rs[0]);
        assert HexChar(v) == "0123456789abcdef"[v];
        assert HexChar(v) in "89ab" by {
          if v == 8 { assert "89ab"[0] == '8'; }
          else if v == 9 { assert "89ab"[1] == '9'; }
          else if v == 10 { assert "89ab"[2] == 'a'; }
          else { assert "89ab"[3] == 'b'; }
        }
      }
      forall k | 1 <= k < |t| ensures
        if t[k] == 'x' then IsLowerHex(u[k]) else if t[k] == 'y' then u[k] in "89ab" else u[k] == t[k]
      {
        assert t[1..][k - 1] == t[k];
        assert u[1..][k - 1] == u[k];
      }
    }
  }

  /** The hex digit values of the slot characters of `u`, in order. */
  function SlotValues(t: string, u: string): (rs: seq<nat>)
    requires FitsTemplate(t, u)
    ensures |rs| == Slots(t) && Nibbles(rs)
    decreases |t|
  {
    if |t| == 0 then []
    else
      FitsTail(t, u);
      if t[0] == 'x' || t[0] == 'y' then
        assert IsHexDigit(u[0]) by { assert t[0] == 'y' ==> u[0] in "89ab"; }
        [HexValue(u[0])] + SlotValues(t[1..], u[1..])
      else SlotValues(t[1..], u[1..])
  }

  /** Dropping the first character keeps a string of the template's shape. */
  lemma FitsTail(t: string, u: string)
    requires FitsTemplate(t, u) && |t| > 0
    ensures FitsTemplate(t[1..], u[1..])
  {
    forall k | 0 <= k < |t[1..]| ensures
      if t[1..][k] == 'x' then IsLowerHex(u[1..][k]) else if t[1..][k] == 'y' then u[1..][k] in "89ab" else u[1..][k] == t[1..][k]
    {
      assert t[1..][k] == t[k + 1] && u[1..][k] == u[k + 1];
    }
  }

  /** A variant character reads as a nibble that the variant bits leave as it is. */
  lemma VariantRoundTrip(c: char)
    requires c in "89ab"
    ensures IsLowerHex(c) && HexValue(c) < 16 && HexChar(VariantNibble(HexValue(c))) == c
  {
    assert IsLowerHex(c);
    LowerHexRoundTrip(c);
    var d := HexValue(c);
    assert 8 <= d < 12;
    assert VariantNibble(d) == d;
  }

  lemma LowerHexRoundTrip(c: char)
    requires IsLowerHex(c)
    ensures IsHexDigit(c) && HexValue(c) < 16 && HexChar(HexValue(c)) == c
  {
    var h := "0123456789abcdef";
    var d := HexValue(c);
    if IsDigit(c) {
      assert h[d] as int == '0' as int + d;
    } else {
      assert h[d] as int == 'a' as int + d - 10;
    }
  }

  /** Every string of the template's shape is what `Fill` makes from the digits it shows. */
  lemma {:induction false} FillSlotValues(t: string, u: string)
    requires FitsTemplate(t, u)
    ensures Fill(t, SlotValues(t, u)) == u
    decreases |t|
  {
    if |t| > 0 {
      FitsTail(t, u);
      FillSlotValues(t[1..], u[1..]);
      var rs := SlotValues(t, u);
      if t[0] == 'x' {
        LowerHexRoundTrip(u[0]);
        assert rs[1..] == SlotValues(t[1..], u[1..]);
      } else if t[0] == 'y' {
        VariantRoundTrip(u[0]);
        assert rs[1..] == SlotValues(t[1..], u[1..]);
      }
      assert [u[0]] + u[1..] == u;
    }
  }

  /** A version 4 UUID as section 4.4 of RFC 4122 lays it out, in lower case. */
  predicate IsUuidV4(u: string)
  {
    && |u| == 36
    && u[8] == '-' && u[13] == '-' && u[18] == '-' && u[23] == '-'
    && u[14] == '4'
    && u[19] in "89ab"
    && forall k :: 0 <= k < 36 && k != 8 && k != 13 && k != 14 && k != 18 && k != 19 && k != 23 ==> IsLowerHex(u[k])
  }

  lemma {:induction false} SlotsAppend(a: string, b: string)
    ensures Slots(a + b) == Slots(a) + Slots(b)
    decreases |a|
  {
    if |a| == 0 {
      assert a + b == b;
    } else {
      assert (a + b)[1..] == a[1..] + b;
      SlotsAppend(a[1..], b);
    }
  }

  lemma {:induction false} SlotsOfSlots(t: string)
    requires forall k :: 0 <= k < |t| ==> t[k] == 'x' || t[k] == 'y'
    ensures Slots(t) == |t|
    decreases |t|
  {
    if |t| > 0 {
      assert forall k :: 0 <= k < |t[1..]| ==> t[1..][k] == t[k + 1];
      SlotsOfSlots(t[1..]);
    }
  }

  /** A fixed character in front takes no random draw. */
  lemma SlotsFixedHead(c: char, t: string)
    requires c != 'x' && c != 'y'
    ensures Slots([c] + t) == Slots(t)
  {
    assert ([c] + t)[1..] == t;
  }

  lemma DashPieceSlots(t: string)
    requires forall k :: 0 <= k < |t| ==> t[k] == 'x' || t[k] == 'y'
    ensures Slots(['-'] + t) == |t|
  {
    SlotsOfSlots(t);
    SlotsFixedHead('-', t);
  }

  /** The template split at its hyphens. */
  lemma TemplatePieces()
    ensures UuidTemplate == "xxxxxxxx" + ("-xxxx" + ("-4xxx" + ("-yxxx" + "-xxxxxxxxxxxx")))
  {
  }

  lemma FourSlots()
    ensures Slots("xxxx") == 4
  {
    SlotsOfSlots("xxxx");
  }

  lemma HeadPieceSlots()
    ensures Slots("xxxxxxxx") == 8
  {
    FourSlots();
    assert "xxxxxxxx" == "xxxx" + "xxxx";
    SlotsAppend("xxxx", "xxxx");
  }

  lemma VersionPieceSlots()
    ensures Slots("-4xxx") == 3
  {
    SlotsOfSlots("xxx");
    SlotsFixedHead('4', "xxx");
    SlotsFixedHead('-', "4xxx");
    assert "-4xxx" == ['-'] + "4xxx" && "4xxx" == ['4'] + "xxx";
  }

  lemma ShortPieceSlots()
    ensures Slots("-xxxx") == 4 && Slots("-yxxx") == 4
  {
    DashPieceSlots("xxxx");
    assert "-xxxx" == ['-'] + "xxxx";
    DashPieceSlots("yxxx");
    assert "-yxxx" == ['-'] + "yxxx";
  }

  lemma TailPieceSlots()
    ensures Slots("-xxxxxxxxxxxx") == 12
  {
    ShortPieceSlots();
    HeadPieceSlots();
    assert "-xxxxxxxxxxxx" == "-xxxx" + "xxxxxxxx";
    SlotsAppend("-xxxx", "xxxxxxxx");
  }

  lemma TemplateSlots()
    ensures Slots(UuidTemplate) == 31
  {
    var p0, p1, p2, p3, p4 := "xxxxxxxx", "-xxxx", "-4xxx", "-yxxx", "-xxxxxxxxxxxx";
    HeadPieceSlots();
    ShortPieceSlots();
    VersionPieceSlots();
    TailPieceSlots();
    TemplatePieces();
    SlotsAppend(p3, p4);
    SlotsAppend(p2, p3 + p4);
    SlotsAppend(p1, p2 + (p3 + p4));
    SlotsAppend(p0, p1 + (p2 + (p3 + p4)));
  }

  /** The shape of the template is exactly the version 4 layout. */
  lemma TemplateIsUuidV4Layout(u: string)
    ensures FitsTemplate(UuidTemplate, u) <==> IsUuidV4(u)
  {
  }

  /** `generateUUID()` from its 31 random draws `Math.random() * 16 | 0`. */
  function GenerateUuid(rs: seq<nat>): (u: string)
    requires |rs| == 31 && Nibbles(rs)
    ensures IsUuidV4(u)
  {
    TemplateSlots();
    FillFits(UuidTemplate, rs);
    TemplateIsUuidV4Layout(Fill(UuidTemplate, rs));
    Fill(UuidTemplate, rs)
  }

  /** Every version 4 UUID is produced by some sequence of draws. */
  lemma UuidReachable(u: string)
    requires IsUuidV4(u)
    ensures exists rs :: |rs| == 31 && Nibbles(rs) && GenerateUuid(rs) == u
  {
    TemplateIsUuidV4Layout(u);
    TemplateSlots();
    var rs := SlotValues(UuidTemplate, u);
    FillSlotValues(UuidTemplate, u);
    assert GenerateUuid(rs) == u;
  }

  // ---- the effect run on every navigation ----

  /** What one run of the effect sees: 31 random draws for the UUID, the clock, `navigator.userAgent`, `location.href`. */
  datatype TrackerEnv = TrackerEnv(draws: seq<nat>, nowMs: nat, userAgent: string, href: string)

  /** `Math.random() * 16 | 0` lies in [0, 16). */
  predicate ValidEnv(env: TrackerEnv)
  {
    |env.draws| == 31 && Nibbles(env.draws)
  }

  const HomePageView := "HomePageView"

  /** The event `sendHomePageViewEvent(sid)` hands to `trackEvent`. */
  function HomePageViewPayload(sid: string, p: CampaignParams, env: TrackerEnv): (e: Payload)
    ensures e.eventName == HomePageView && e.eventId.None? && e.actionSource == Website
    ensures e.userData.externalId == Str(sid) && e.userData.userAgent == Str(env.userAgent)
    ensures e.userData.fbc == e.userData.fbp == e.userData.clientIp == Absent
    ensures e.customData.CampaignIds?
    ensures e.customData.adId.Some? <==> Truthy(p.adId)
    ensures e.customData.adsetId.Some? <==> Truthy(p.adsetId)
    ensures e.customData.campaignId.Some? <==> Truthy(p.campaignId)
    ensures e.customData.adId.Some? ==> e.customData.adId == p.adId
    ensures e.customData.adsetId.Some? ==> e.customData.adsetId == p.adsetId
    ensures e.customData.campaignId.Some? ==> e.customData.campaignId == p.campaignId
    ensures e.eventTime * 1000 <= env.nowMs < (e.eventTime + 1) * 1000
  {
    Payload(
      HomePageView,
      None,
      EpochSeconds(env.nowMs),
      UserData(Str(sid), Absent, Absent, Absent, Str(env.userAgent), Absent, Absent, Absent),
      CampaignIds(OrMissing(p.adId), OrMissing(p.adsetId), OrMissing(p.campaignId)),
      env.href,
      Website)
  }

  /** The stores after one run, and the event sent, if any. */
  datatype TrackerRun = TrackerRun(stores: Stores, sent: Option<Payload>)

  /** A UUID is a safe cookie value. */
  lemma UuidCookieSafe(u: string)
    requires IsUuidV4(u)
    ensures CookieSafe(u)
  {
    forall k | 0 <= k < |u| ensures u[k] != ';' {
      if k != 8 && k != 13 && k != 14 && k != 18 && k != 19 && k != 23 {
        assert IsLowerHex(u[k]);
      }
    }
  }

  /** The session id the effect settles on: the cookie's, or a new UUID written for 30 days. */
  function TrackerSession(jar: Jar, env: TrackerEnv): (r: (Jar, string))
    requires ValidEnv(env)
    ensures r.1 != ""
    ensures Truthy(ReadCookie(jar, SessionCookie)) ==> r == (jar, ReadCookie(jar, SessionCookie).value)
    ensures !Truthy(ReadCookie(jar, SessionCookie)) ==>
      && r.1 == GenerateUuid(env.draws)
      && Lookup(r.0, SessionCookie) == Some(Cookie(SessionCookie, r.1, TrackerVisitorDays))
    ensures forall n :: n != SessionCookie ==> Lookup(r.0, n) == Lookup(jar, n)
    ensures WellFormed(jar) ==> WellFormed(r.0)
  {
    var uuid := GenerateUuid(env.draws);
    UuidCookieSafe(uuid);
    NamesValid();
    EnsureCookie(jar, SessionCookie, uuid, TrackerVisitorDays)
  }

  /** The id settled on is what the cookie reads afterwards. */
  lemma SessionReadBack(jar: Jar, env: TrackerEnv)
    requires ValidEnv(env) && WellFormed(jar)
    ensures ReadCookie(TrackerSession(jar, env).0, SessionCookie) == Some(TrackerSession(jar, env).1)
  {
    NamesValid();
    var uuid := GenerateUuid(env.draws);
    if !Truthy(ReadCookie(jar, SessionCookie)) {
      ReadSameLookup(TrackerSession(jar, env).0, Put(jar, SessionCookie, uuid, TrackerVisitorDays), SessionCookie);
      ReadAfterPut(jar, SessionCookie, uuid, TrackerVisitorDays);
    }
  }

  /**
   One run of the effect at `pathname` with query `q`: capture the campaign,
   settle the session id, and on `/`, unless this session already has, start
   `sendHomePageViewEvent` and set the flag. The send is not awaited: when
   `getCampaignParams()` gives `null`, reading its `ad_id` throws before
   anything is sent, and the flag is set all the same.
   */
  function TrackerEffect(st: Stores, pathname: string, q: Query, env: TrackerEnv): (r: TrackerRun)
    requires ValidEnv(env)
    ensures r.stores.local == CaptureCampaign(st.local, q)
    ensures pathname == HomePath && !Truthy(GetItem(st.session, SentFlagKey)) ==>
      r.stores.session == st.session[SentFlagKey := "true"]
    ensures !(pathname == HomePath && !Truthy(GetItem(st.session, SentFlagKey))) ==> r.stores.session == st.session
    ensures r.sent.Some? <==>
      pathname == HomePath && !Truthy(GetItem(st.session, SentFlagKey)) && GetCampaignParams(true, r.stores.local).Some?
    ensures WellFormed(st.jar) ==> WellFormed(r.stores.jar)
  {
    var local := CaptureCampaign(st.local, q);
    var (jar, sid) := TrackerSession(st.jar, env);
    var stores := Stores(jar, local, st.session);
    if pathname == HomePath && !Truthy(GetItem(st.session, SentFlagKey)) && sid != "" then
      var sent := match GetCampaignParams(true, local)
        case None => None
        case Some(p) => Some(HomePageViewPayload(sid, p, env));
      TrackerRun(stores.(session := st.session[SentFlagKey := "true"]), sent)
    else
      TrackerRun(stores, None)
  }

  /**
   A sent `HomePageView` carries the session id the cookie holds after the
   run and the campaign values `localStorage` holds after the run.
   */
  lemma SentPayloadReadsStores(st: Stores, pathname: string, q: Query, env: TrackerEnv)
    requires ValidEnv(env) && WellFormed(st.jar)
    ensures var r := TrackerEffect(st, pathname, q, env);
      r.sent.Some? ==> Truthy(ReadCookie(r.stores.jar, SessionCookie))
    ensures var r := TrackerEffect(st, pathname, q, env);
      r.sent.Some? && ReadCookie(r.stores.jar, SessionCookie).Some? ==>
        r.sent.value == HomePageViewPayload(ReadCookie(r.stores.jar, SessionCookie).value, GetCampaignParams(true, r.stores.local).value, env)
  {
    SessionReadBack(st.jar, env);
  }

  /** An existing visitor id is kept as it is; a missing one becomes a new UUID kept for 30 days. */
  lemma TrackerVisitor(st: Stores, pathname: string, q: Query, env: TrackerEnv)
    requires ValidEnv(env)
    ensures var r := TrackerEffect(st, pathname, q, env);
      Truthy(ReadCookie(st.jar, SessionCookie)) ==> r.stores.jar == st.jar
    ensures var r := TrackerEffect(st, pathname, q, env);
      !Truthy(ReadCookie(st.jar, SessionCookie)) ==>
        Lookup(r.stores.jar, SessionCookie) == Some(Cookie(SessionCookie, GenerateUuid(env.draws), TrackerVisitorDays))
  {
  }

  /**
   For a visitor without an id, this tracker keeps the new id for 30 days
   while `initializeTracking` keeps its new id for 365.
   */
  lemma RetentionDiffers(jar: Jar, env: TrackerEnv, fbclid: Option<string>, load: PageLoad)
    requires ValidEnv(env) && WellFormed(jar) && !Truthy(ReadCookie(jar, SessionCookie))
    ensures Lookup(TrackerSession(jar, env).0, SessionCookie).Some?
    ensures Lookup(TrackerSession(jar, env).0, SessionCookie).value.days == TrackerVisitorDays
    ensures Lookup(Identify(jar, fbclid, load).jar, SessionCookie).Some?
    ensures Lookup(Identify(jar, fbclid, load).jar, SessionCookie).value.days == VisitorDays
  {
    NamesValid();
    var j1 := EnsureVisitorId(jar, load.uuid, VisitorDays).0;
    var j2 := EnsureFbp(j1, load.fbpNowMs, load.fbpRandom).0;
    var j3 := ResolveFbc(j2, fbclid, load.fbcNowMs).0;
    assert Lookup(j1, SessionCookie).Some? && Lookup(j1, SessionCookie).value.days == VisitorDays;
    assert Lookup(j2, SessionCookie) == Lookup(j1, SessionCookie);
    assert Lookup(j3, SessionCookie) == Lookup(j2, SessionCookie);
  }

  /** A sent `HomePageView` on a visit whose URL has campaign values carries exactly those values. */
  lemma SentCampaignFromUrl(st: Stores, q: Query, env: TrackerEnv)
    requires ValidEnv(env) && HasCampaign(q) && !Truthy(GetItem(st.session, SentFlagKey))
    ensures var r := TrackerEffect(st, HomePath, q, env);
      && r.sent.Some?
      && r.sent.value.customData == CampaignIds(OrMissing(QueryGet(q, UtmSource)), OrMissing(QueryGet(q, UtmMedium)), OrMissing(QueryGet(q, UtmCampaign)))
  {
    var local := CaptureCampaign(st.local, q);
    var sid := TrackerSession(st.jar, env).1;
    assert GetCampaignParams(true, local) == Some(UrlCampaign(q));
    assert TrackerEffect(st, HomePath, q, env).sent == Some(HomePageViewPayload(sid, UrlCampaign(q), env));
  }

  /** One navigation: the path, the query string and what the effect observes. */
  datatype Visit = Visit(pathname: string, query: Query, env: TrackerEnv)

  /** The effect run on each navigation of a session in turn: the final stores and how many events were sent. */
  function RunTracker(st: Stores, visits: seq<Visit>): (r: (Stores, nat))
    requires forall k :: 0 <= k < |visits| ==> ValidEnv(visits[k].env)
    decreases |visits|
  {
    if |visits| == 0 then (st, 0)
    else
      var one := TrackerEffect(st, visits[0].pathname, visits[0].query, visits[0].env);
      var rest := RunTracker(one.stores, visits[1..]);
      (rest.0, rest.1 + if one.sent.Some? then 1 else 0)
  }

  /** Over any sequence of navigations in one session `HomePageView` is sent at most once, and never once the flag is set. */
  lemma {:induction false} SentAtMostOnce(st: Stores, visits: seq<Visit>)
    requires forall k :: 0 <= k < |visits| ==> ValidEnv(visits[k].env)
    ensures RunTracker(st, visits).1 <= 1
    ensures Truthy(GetItem(st.session, SentFlagKey)) ==> RunTracker(st, visits).1 == 0
    decreases |visits|
  {
    if |visits| > 0 {
      var one := TrackerEffect(st, visits[0].pathname, visits[0].query, visits[0].env);
      SentAtMostOnce(one.stores, visits[1..]);
      if one.sent.Some? {
        assert Truthy(GetItem(one.stores.session, SentFlagKey));
      }
    }
  }

  /**
   A stored `null` campaign text that the URL does not replace silences the
   session: the home page run sets the flag without sending anything, and no
   later run sends either.
   */
  lemma NullCampaignSilences(st: Stores, q: Query, env: TrackerEnv, visits: seq<Visit>)
    requires ValidEnv(env) && forall k :: 0 <= k < |visits| ==> ValidEnv(visits[k].env)
    requires !HasCampaign(q) && !Truthy(GetItem(st.session, SentFlagKey))
    requires CampaignParamsKey in st.local && IsNullLiteral(st.local[CampaignParamsKey])
    ensures var r := TrackerEffect(st, HomePath, q, env);
      r.sent.None? && Truthy(GetItem(r.stores.session, SentFlagKey)) && RunTracker(r.stores, visits).1 == 0
  {
    assert CaptureCampaign(st.local, q) == st.local;
    assert GetCampaignParams(true, st.local).None?;
    var r := TrackerEffect(st, HomePath, q, env);
    assert Truthy(GetItem(r.stores.session, SentFlagKey));
    SentAtMostOnce(r.stores, visits);
  }
}
