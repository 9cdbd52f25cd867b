# Attribution and event tracking, modelled in Dafny

This project models the client-side attribution layer of a quiz-funnel web
application, together with the server action that forwards its events to
n8n webhooks. Specifically:

- **`initializeTracking` and `getClientData`**: visitor id, `_fbp` and
  `_fbc` cookies, UTM capture in `localStorage`, and user agent and IP in
  `sessionStorage`.
- **The `N8NTracker` component**: the campaign object stored as JSON, a
  30-day visitor id built from its own UUID template, and a once-per-session
  `HomePageView` event.
- **The `sendN8NEvent` server action**: webhook selection, IP merge, one
  POST, and every outcome turned into a result value.
- **The offer page's checkout click.**
- **The quiz page's step machine.**

The browser is modelled as three stores:

- **The cookie jar**: an ordered list of cookies with distinct names.
  `document.cookie` is its rendering, joined by `"; "`.
- **`localStorage` and `sessionStorage`**: string maps.

`getCookie` is modelled on the rendered string, exactly as the code does it:

1. Split on `"; name="`.
2. Require exactly two parts.
3. Take the text up to the first `;`.
4. Read an empty value as `null`.

A cookie write is the string `setCookie` assigns. The browser keeps the text
before its first `;` as the name–value pair (RFC 6265 section 5.2), and it
replaces a stored cookie of the same name in place. The jar is keyed by name only; the path
and domain that RFC 6265 section 5.3 also matches on are not part of it (see "## Left out").

Everything the code takes from its environment is an explicit parameter:

- clock readings
- `Math.random`
- `uuidv4()`
- `navigator.userAgent`
- `location`
- the outcome of the `api.ipify.org` lookup
- the outcome of the webhook `fetch`

Modules:

- `Base`: nullable values, stores, query strings.
- `Text`: `indexOf`, `split`/`join`, the first `;` field, `replace`, decimal and hex digits.
- `Cookies`: `getCookie`, the `setCookie` string, the jar and its rendering.
- `Events`: the `N8NClientData` payload, the IP lookup.
- `Json`: the string-valued objects `JSON.stringify` writes and `JSON.parse` reads.
- `Tracking`: `src/lib/tracking.ts`.
- `N8nTracker`: `src/components/n8n-tracker.tsx`.
- `Actions`: `src/app/actions.ts`.
- `Offer`: the checkout click of `src/app/offer/page.tsx`.
- `Quiz`: the handlers of `src/app/quiz/page.tsx` over the 17 questions of `src/data/quiz.ts`.

## Model

| member | source | states |
|---|---|---|
| Text.Split | src/lib/tracking.ts:9-10 | the parts are separator-free, join back to the input, and there is one part exactly when the separator does not occur |
| Text.SplitJoin | src/lib/tracking.ts:10 | splitting a join of parts that lack the separator's first character gives back exactly those parts |
| Text.FirstField | src/lib/tracking.ts:12 | `split(';').shift()` is the whole text before the first `;`, and the input itself when it has none |
| Text.ReplaceFirst | src/lib/tracking.ts:34 | `replace` with a string pattern changes nothing when the pattern is absent, and otherwise substitutes the first occurrence and leaves any later one |
| Text.Decimal | src/lib/tracking.ts:102 | `${n}` is a non-empty run of digits with no leading zero (JavaScript writes this form for `n < 10^21`, which covers every millisecond clock and HTTP status formatted here) |
| Text.DecimalRoundTrip | src/lib/tracking.ts:102 | the digits `${n}` writes denote `n` |
| Text.DecimalInjective | src/lib/tracking.ts:102 | different numbers are written differently |
| Cookies.GetCookie | src/lib/tracking.ts:5-15 | the result is never `""` and holds no `;`; it is `null` when the needle is missing or occurs twice; otherwise it is the whole field after the only needle |
| Cookies.ReadOnly | src/lib/tracking.ts:9-13 | with a single occurrence of `"; name="`, the value read is the field that follows it, and `null` if that field is empty |
| Cookies.Expiry | src/lib/tracking.ts:21-26 | the expiry attribute is present exactly when `days` is non-zero (365 by default) |
| Cookies.Domain | src/lib/tracking.ts:28-34 | the domain attribute is absent exactly on `localhost` and `*.cloudworkstations.dev`; on any other host it names the host with its first `www.` cut out, wherever that stands, or the whole host when it has none |
| Cookies.DomainAt | src/lib/tracking.ts:34 | the `www.` that is cut out is the first one, so the domain is fixed by where that first occurrence stands |
| Cookies.DomainOfWwwHost | src/lib/tracking.ts:34 | a leading `www.` is what the domain attribute drops |
| Cookies.SetCookieAttributes | src/lib/tracking.ts:17-37 | cutting the assigned string at `"; "` gives the pair, the expiry only when `days` is non-zero, `path=/`, and the domain unless on a development host |
| Cookies.SetCookiePair | src/lib/tracking.ts:36 | the pair a browser takes from the assignment is the name with the value cut at its first `;`, whatever the attributes are |
| Cookies.TrackerSetCookieOnDevHost | src/components/n8n-tracker.tsx:30-39 | on a development host the tracker's own `setCookie` assigns the same string as the library's |
| Cookies.Put | src/lib/tracking.ts:36 | after a write, the name holds the cut value with the given lifetime, every other name holds what it held, and the jar stays well formed |
| Cookies.ReadAfterRender | src/lib/tracking.ts:5-15 | `getCookie` on a rendered well-formed jar returns the stored value, and `null` for an empty value or a missing name, including a name that is only a suffix of another cookie's name |
| Cookies.ReadCookie | src/components/n8n-tracker.tsx:22-28 | a read on a well-formed jar is the stored value of that name |
| Cookies.ReadAfterPut | src/lib/tracking.ts:36 | a non-empty `;`-free value written under a name reads back unchanged |
| Cookies.ReadOtherAfterPut | src/lib/tracking.ts:36 | writing one cookie changes no read of any other name |
| Cookies.ReadSameLookup | src/lib/tracking.ts:5-15 | a read depends only on the cookie of that name |
| Events.EpochSeconds | src/components/n8n-tracker.tsx:75 | the event time is the whole seconds of the millisecond clock, rounded down |
| Json.MemberValue | src/components/n8n-tracker.tsx:81-83 | a key is missing exactly when no member has it; otherwise the value is one that a member with that key holds |
| Json.ParseEncodedObject | src/components/n8n-tracker.tsx:12 | an encoded object followed by any text parses to the same members and leaves that text |
| Json.DecodeEncode | src/components/n8n-tracker.tsx:12 | `JSON.parse` of what `JSON.stringify` wrote (escapes included) gives back the same members in order |
| Json.CodeUnit | src/components/n8n-tracker.tsx:12 | the four characters after `\u` name a UTF-16 code unit exactly when all are hex digits |
| Json.UnitEscape | src/components/n8n-tracker.tsx:12 | a `\u` escape on its own names a character exactly when its unit is not half of a surrogate pair, and then names that unit |
| Json.PairEscape | src/components/n8n-tracker.tsx:12 | two `\u` escapes name one character together exactly when the first is a high surrogate and the second a low one, and the character's UTF-16 halves are those two units |
| Json.Hex4 | src/components/n8n-tracker.tsx:12 | the four hex digits written for a code unit read back as that unit |
| Json.PairStep | src/components/n8n-tracker.tsx:12 | a character above U+FFFF written as the escapes of its two halves reads back as that one character |
| Json.PairExample | src/components/n8n-tracker.tsx:12 | `"\uD83D\uDE00"` reads as the one character U+1F600 |
| Tracking.EnsureCookie | src/lib/tracking.ts:93-97 | a truthy stored cookie is kept and used; otherwise the made value is stored with the given lifetime and used; other cookies are untouched |
| Tracking.EnsureCookieIdempotent | src/lib/tracking.ts:93-97 | ensuring an id twice, with any second candidate, changes nothing further |
| Tracking.EnsureCookieReads | src/lib/tracking.ts:93-104 | afterwards the cookie reads back as the id in use |
| Tracking.FbpFields | src/lib/tracking.ts:102 | a generated `_fbp` cut at `.` is `fb`, `1`, the time and the random number |
| Tracking.FbpInjective | src/lib/tracking.ts:102 | equal `_fbp` values come from the same time and draw |
| Tracking.FbpCookieSafe | src/lib/tracking.ts:102-103 | a generated `_fbp` is a non-empty value without `;` |
| Tracking.FbcCookieSafe | src/lib/tracking.ts:110-111 | an `_fbc` built from a `;`-free click id is a non-empty value without `;` |
| Tracking.ResolveFbc | src/lib/tracking.ts:107-115 | a truthy `fbclid` overwrites `_fbc` with the new value; without one, the stored cookie is read and nothing is written |
| Tracking.SetIfTruthy | src/lib/tracking.ts:122-124 | a truthy value is stored under its key; otherwise the store is unchanged; other keys are never touched or removed |
| Tracking.CaptureUtm | src/lib/tracking.ts:117-124 | each attribution key takes its UTM value when that value is non-empty and keeps its old value otherwise; non-UTM keys are untouched |
| Tracking.UtmNeverErased | src/lib/tracking.ts:122-124 | a stored attribution value is kept, or replaced by a non-empty one, but never removed |
| Tracking.UtmWithoutParams | src/lib/tracking.ts:122-124 | a URL without UTM values leaves `localStorage` as it was |
| Tracking.RememberClient | src/lib/tracking.ts:127-133 | user agent and IP are stored only when non-empty; other keys are untouched |
| Tracking.EventIdFields | src/lib/tracking.ts:44-48 | with a `.`-free name and id, the event id cuts back into name, id and time |
| Tracking.EventIdDistinct | src/lib/tracking.ts:44-48 | the same event and visitor at different milliseconds get different ids |
| Tracking.Identify | src/lib/tracking.ts:92-115 | the three cookie steps keep the jar well formed |
| Tracking.IdentifyVisitor | src/lib/tracking.ts:93-97 | the visitor id is the stored one if truthy, else the new UUID, and the cookie reads back as it |
| Tracking.IdentifyFbp | src/lib/tracking.ts:100-104 | `_fbp` is the stored one if truthy, else `fb.1.<now>.<random>`, and the cookie reads back as it |
| Tracking.IdentifyFbc | src/lib/tracking.ts:107-115 | `_fbc` is the new value when `fbclid` is truthy, else the stored cookie; the cookie reads back as it unless `fbclid` holds a `;` |
| Tracking.InitializeTracking | src/lib/tracking.ts:72-152 | without a window, every member is `null` and the event id is empty, with no store touched; with one, the jar stays well formed |
| Tracking.InitIds | src/lib/tracking.ts:136-141 | the returned visitor id and event id come from the cookie steps on the URL's `fbclid` |
| Tracking.InitAttribution | src/lib/tracking.ts:118-124 | the returned `ad_id`, `adset_id` and `campaign_id` are the URL's non-empty values, falling back to the stored ones |
| Tracking.InitVisitorStable | src/lib/tracking.ts:93-97 | a second run, with any URL and environment, reports the same visitor and keys its event id to it |
| Tracking.InitKeepsVisitor | src/lib/tracking.ts:93-97 | an already stored visitor id is returned and left in place |
| Tracking.InitRemembersClient | src/lib/tracking.ts:127-133 | the session holds the new user agent and IP when non-empty, and the old values otherwise |
| Tracking.GetClientData | src/lib/tracking.ts:176-211 | without a window, every member is `null` |
| Tracking.ClientDataAfterInit | src/lib/tracking.ts:139-151 | after a run with a found IP and user agent, `getClientData` reports exactly the user data the run returned |
| N8nTracker.ParamsRoundTrip | src/components/n8n-tracker.tsx:55-60 | reading the members written for a campaign object gives back its three values |
| N8nTracker.GetCampaignParams | src/components/n8n-tracker.tsx:8-16 | the result is JavaScript `null` exactly when a window exists and the stored text is the JSON literal `null`; it is `{}` without a window, when nothing truthy is stored, or when the stored text does not parse |
| N8nTracker.CapturedMembers | src/components/n8n-tracker.tsx:54-60 | after a visit with campaign values, each member of the stored object is present exactly when the URL's parameter is truthy, and then equals it |
| N8nTracker.CaptureCampaign | src/components/n8n-tracker.tsx:49-61 | with any non-empty UTM value, the stored object reads back as exactly the URL's values; otherwise `localStorage` is unchanged; no other key is touched |
| N8nTracker.MergeSemanticsDiffer | src/components/n8n-tracker.tsx:54-60 | with only `utm_source` in the URL, the first tracker keeps the stored `adset_id` but the second tracker's object loses it |
| N8nTracker.VariantNibble | src/components/n8n-tracker.tsx:43 | `r & 0x3 \| 0x8` lies in 8..11 and keeps the low two bits of `r` |
| N8nTracker.FillSlotValues | src/components/n8n-tracker.tsx:42-45 | every string of the template's shape is what the filler makes from the digits it shows |
| N8nTracker.TemplateIsUuidV4Layout | src/components/n8n-tracker.tsx:42 | the template's shape is exactly the lower-case version 4 layout of RFC 4122 section 4.4 |
| N8nTracker.GenerateUuid | src/components/n8n-tracker.tsx:41-46 | the result of 31 draws in 0..15 is a version 4 UUID |
| N8nTracker.UuidReachable | src/components/n8n-tracker.tsx:41-46 | every version 4 UUID is produced by some 31 draws |
| N8nTracker.HomePageViewPayload | src/components/n8n-tracker.tsx:70-88 | the event is `HomePageView` with the session id and user agent; each campaign id is present exactly when the stored one is truthy, and then equals it; the time is the clock in whole seconds |
| N8nTracker.TrackerSession | src/components/n8n-tracker.tsx:63-68 | a truthy stored id is kept with the jar unchanged; otherwise a new UUID is stored for 30 days; the id is never empty |
| N8nTracker.SessionReadBack | src/components/n8n-tracker.tsx:63-68 | the id settled on is what the cookie reads afterwards |
| N8nTracker.TrackerEffect | src/components/n8n-tracker.tsx:48-98 | on `/` with the session flag unset the flag is set, and the event is sent unless the stored campaign reads as `null` (the send then throws at `ad_id` before posting); elsewhere the session is untouched and nothing is sent; the campaign capture always happens |
| N8nTracker.NullCampaignSilences | src/components/n8n-tracker.tsx:11-12 | a stored `null` campaign text that the URL does not replace makes the home visit set the flag without sending, and no later navigation in the session sends |
| N8nTracker.SentPayloadReadsStores | src/components/n8n-tracker.tsx:70-95 | a sent event carries the session id the cookie holds, and the campaign `localStorage` holds, after the run |
| N8nTracker.TrackerVisitor | src/components/n8n-tracker.tsx:63-68 | an existing visitor id leaves the jar untouched; a missing one becomes a new UUID kept for 30 days |
| N8nTracker.RetentionDiffers | src/components/n8n-tracker.tsx:67 | for a new visitor this tracker keeps the id for 30 days, while `initializeTracking` keeps its id for 365 |
| N8nTracker.SentCampaignFromUrl | src/components/n8n-tracker.tsx:54-95 | on a home visit whose URL has campaign values, the sent event carries exactly those values |
| N8nTracker.SentAtMostOnce | src/components/n8n-tracker.tsx:90-98 | over any navigations in one session, at most one `HomePageView` is sent, and none once the flag is set |
| Actions.WebhookUrl | src/app/actions.ts:6-10 | exactly the three known events have a URL |
| Actions.WebhookUrlsDistinct | src/app/actions.ts:6-10 | different known events post to different URLs |
| Actions.WithClientIp | src/app/actions.ts:43-49 | the merged payload carries the looked-up IP and is otherwise the input |
| Actions.WithClientIpOverrides | src/app/actions.ts:43-49 | the merged IP replaces any earlier one |
| Actions.WithClientIpIgnoresInput | src/app/actions.ts:43-49 | the IP the caller supplied never reaches the webhook |
| Actions.StatusError | src/app/actions.ts:62 | the failure message is the fixed prefix followed by the decimal status |
| Actions.StatusErrorInjective | src/app/actions.ts:62 | different statuses give different messages |
| Actions.SendN8NEvent | src/app/actions.ts:34-70 | an unknown event fails with no outside call; a known event looks up the IP and then posts the merged payload; success means exactly an ok reply; a throw reports its message; a non-ok reply reports its status |
| Actions.OnePost | src/app/actions.ts:34-70 | there is at most one POST, never a retry, and it always follows the IP lookup |
| Actions.IpFailureStillPosts | src/app/actions.ts:41-57 | a failed IP lookup still posts, with an empty IP |
| Actions.PostedIpShowsLookup | src/app/actions.ts:12-49 | the posted `client_ip_address` is the address a successful lookup found; when success always yields an address, it is empty exactly when the lookup failed |
| Actions.ResultIgnoresIp | src/app/actions.ts:41-65 | the IP lookup's outcome never changes the result |
| Offer.CheckoutUrl | src/app/offer/page.tsx:105 | the checkout link is the fixed payment URL followed by the visitor id, or `null` |
| Offer.CheckoutUrlInjective | src/app/offer/page.tsx:105 | different visitor ids give different links |
| Offer.CheckoutPayload | src/app/offer/page.tsx:104-125 | `InitiateCheckout` with the cookie ids, `null` IP, the user agent, 5 USD, the current URL and the clock in whole seconds |
| Offer.HandleCheckoutClick | src/app/offer/page.tsx:101-146 | without a window, nothing happens; otherwise the checkout webhook post comes first and the redirect last; an error is logged exactly when the post threw; the pixel fires exactly when it is loaded |
| Offer.WebhookErrorContained | src/app/offer/page.tsx:128-145 | a thrown post only adds the logged error, and the pixel and redirect still happen |
| Offer.StepOrder | src/app/offer/page.tsx:128-145 | the redirect happens once, at the end; the pixel call follows the post and carries no event id |
| Offer.SameCheckoutWebhook | src/app/offer/page.tsx:107 | the page's webhook is the one `sendN8NEvent` uses for `InitiateCheckout` |
| Offer.LinkMatchesEvent | src/app/offer/page.tsx:104-105 | the visitor id in the event is the one in the checkout link |
| Offer.CheckoutAfterInit | src/app/offer/page.tsx:104-118 | after `initializeTracking`, the checkout event reports the visitor id, `_fbc` and `_fbp` that the run returned |
| Quiz.QuestionIdsAscending | src/data/quiz.ts:27-217 | question `k` (from 0) has id `k + 1` |
| Quiz.HandleNext | src/app/quiz/page.tsx:22-35 | a current answer is recorded under the step's question; before the last step the quiz advances and clears the answer, and on the last step it stays |
| Quiz.HandleSingleChoice | src/app/quiz/page.tsx:37-47 | before the last step, the choice is recorded and the quiz advances; on the last step it only becomes the current answer |
| Quiz.Without | src/app/quiz/page.tsx:52 | the filter removes every copy of the value and keeps every other element, with its count |
| Quiz.WithoutConcat | src/app/quiz/page.tsx:52 | the filter works piece by piece, so the boxes that stay keep their order |
| Quiz.WithoutAt | src/app/quiz/page.tsx:52 | in a list without duplicates, unticking a box cuts it out where it stands and leaves the rest in order |
| Quiz.Toggle | src/app/quiz/page.tsx:50-55 | the value becomes ticked exactly when it was not, and no other box changes; a newly ticked box goes after the ones already ticked |
| Quiz.ToggleDistinct | src/app/quiz/page.tsx:50-55 | toggling keeps the ticked boxes duplicate-free |
| Quiz.ToggleTwiceFromUnticked | src/app/quiz/page.tsx:50-55 | ticking then unticking a new box restores the list exactly |
| Quiz.ToggleTwiceSameBoxes | src/app/quiz/page.tsx:50-55 | toggling twice leaves the same set of boxes ticked |
| Quiz.HandleMultipleChoice | src/app/quiz/page.tsx:49-56 | nothing is recorded; the current answer becomes a list in which the value is ticked exactly when it was not, every other box is as before (a non-list answer counts as none ticked), and no box is ticked twice; a newly ticked box goes to the end of the list, and unticking a box of a duplicate-free list cuts it out where it stands |
| Quiz.HandleTextInput | src/app/quiz/page.tsx:114 | the typed text becomes the current answer and nothing is recorded; continue is then enabled, and a consistent quiz stays consistent |
| Quiz.ContinueAfterToggle | src/app/quiz/page.tsx:181 | after a toggle, continue is enabled exactly when some box is ticked |
| Quiz.ContinueAfterTyping | src/app/quiz/page.tsx:181 | any typed value, even an empty one, enables continue |
| Quiz.ApplyConsistent | src/app/quiz/page.tsx:22-56 | every handler keeps the step in range and the answers in ascending question order and within the steps reached; answers and step never shrink |
| Quiz.RunConsistent | src/app/quiz/page.tsx:22-56 | the same holds for any sequence of user actions |
| Quiz.NextOnLastStep | src/app/quiz/page.tsx:22-35 | pressing continue `n` times on the last step records the same answer `n` more times |

## Left out

- Reading and writing the real `document.cookie`, `localStorage`, `sessionStorage` and `location`: these are explicit values passed in and returned.
- The awaiting of `fetch`: results are parameters. The `Accept` and `Content-Type` headers, `cache: 'no-store'` and the JSON body encoding of posts are not modelled.
- `console.log` and `console.error` output: not modelled. The offer page's logged error is kept only as a step.
- `trackEvent`: `src/components/n8n-tracker.tsx` imports it from `@/app/actions`, which does not export it. Its delivery is not part of this model. The model covers the event that would be handed to it (`HomePageViewPayload`) and when it is sent.
- `Date`, `toUTCString`, `Math.random` and `uuidv4`: modelled as given values. The UTC rendering is an uninterpreted function of the millisecond instant.
- Events.EpochSeconds: timestamps are taken as non-negative integers; floating-point `Date.now()` arithmetic is not modelled.
- Cookies.Put: the jar is keyed by cookie name only. A browser keys cookies by name, domain and path (RFC 6265 section 5.3). `setCookie` in `src/lib/tracking.ts` adds a `domain` attribute on non-development hosts, while the tracker component writes a host-only cookie, so a browser can hold two `my_session_id` cookies. `getCookie` would then find the needle twice and read `null`. The model merges them into one cookie.
- Cookies.GetCookie: the browser's trimming of whitespace in cookie names and values, its rejection of a mismatching `domain`, and cookie expiry are not modelled. Expired cookies are never removed from the jar.
- URL decoding of query values: query strings are given already parsed, as `URLSearchParams` returns them.
- Json.UnitEscape: a `\u` escape of a lone surrogate half (one not followed by its partner) makes the read fail, and so the stored text reads as `{}`. `JSON.parse` would accept it, but a string here holds only Unicode scalar values, so a lone half cannot be represented.
- Json.DecodeEncode: `JSON.parse` is modelled for objects whose members are all strings (the only shape `JSON.stringify` writes here) and for the literal `null`. Other JSON values are read as `{}`. For strings, numbers, booleans and arrays this matches the source, since none of them has the three campaign members. For an object holding a non-string member (for example `{"ad_id": 5}`) it does not: the source would send that value.
- Json.MemberValue: the contract says the value read belongs to some member with that key. It does not state that it is the last such member, as `JSON.parse` makes it; the objects written here never repeat a key.
- Actions.WebhookUrl: keys inherited from `Object.prototype` (such as `toString`) would look up a function rather than `undefined`. Only the three own keys are modelled, since the event name is typed as one of them.
- Events.ClientIp: a successful lookup whose JSON lacks `ip` yields `undefined` in the source. The model requires the reply to carry an address.
- Quiz.HandleSingleChoice: the 500 ms `setTimeout` is collapsed into the handler. The closure's stale `answers` and `currentStep` (a second click inside the delay) are not modelled.
- Quiz: the completion `console.log` and the loading screen's `onComplete` are not modelled. The button's disabled state is stated as `CanContinue`, but `Run` does not gate `Next` on it. `handleNext` itself copes with a missing answer, and the model follows `handleNext`.
- React rendering, routing and the pixel script's own behaviour: not modelled. `router.push` and `fbq` are steps of the click.
