/**
 Cookies as the tracking code sees them: `getCookie` reads one value out of
 the `document.cookie` string (the `name=value; name=value` form of section
 4.2.1 of RFC 6265), `setCookie` builds the assignment string in the
 attribute style of section 4.1 of RFC 6265, and the browser's cookie jar is
 an ordered list of named values whose rendering `getCookie` reads back.
 */
module Cookies {
  import opened Base
  import opened Text

  // ---- reading: getCookie ----

  /** The text `getCookie` splits on. */
  function Needle(name: string): string
  {
    "; " + name + "="
  }

  function OrEmpty(r: Option<string>): string
  {
    if r.Some? then r.value else ""
  }

  /**
   `getCookie(name)`: split `"; " + document.cookie` on `"; " + name + "="`;
   only when that yields exactly two parts is the value the second part up to
   its first `;`, and an empty value reads as `null`.
   */
  function GetCookie(cookie: string, name: string): (r: Option<string>)
    ensures r != Some("")
    ensures r.Some? ==> ';' !in r.value
    ensures !Contains("; " + cookie, Needle(name)) ==> r.None?
    ensures Repeated("; " + cookie, Needle(name)) ==> r.None?
    ensures FieldAfterOnly("; " + cookie, Needle(name), OrEmpty(r))
  {
    ValueFacts("; " + cookie, Needle(name));
    ValueOfParts(Split("; " + cookie, Needle(name)))
  }

  /** `sep` occurs twice in `s` without overlapping. */
  ghost predicate Repeated(s: string, sep: string)
  {
    exists i: nat, j: nat :: OccursAt(s, sep, i) && OccursAt(s, sep, j) && i + |sep| <= j
  }

  /** Wherever `sep` is the only occurrence, `v` is the whole field right after it. */
  ghost predicate FieldAfterOnly(s: string, sep: string, v: string)
  {
    forall i: nat :: OnlyAt(s, sep, i) ==> FieldAt(s, i + |sep|, v)
  }

  lemma ValueFacts(s: string, sep: string)
    requires |sep| > 0
    ensures !Contains(s, sep) ==> ValueOfParts(Split(s, sep)).None?
    ensures Repeated(s, sep) ==> ValueOfParts(Split(s, sep)).None?
    ensures FieldAfterOnly(s, sep, OrEmpty(ValueOfParts(Split(s, sep))))
  {
    ValueWhenOnly(s, sep);
    ValueWhenTwice(s, sep);
  }

  /** With exactly one needle, `getCookie` reads the field after it. */
  lemma ReadOnly(cookie: string, name: string, i: nat, v: string)
    requires OnlyAt("; " + cookie, Needle(name), i)
    requires FieldAt("; " + cookie, i + |Needle(name)|, v)
    ensures GetCookie(cookie, name) == NonEmpty(v)
  {
    ReadField("; " + cookie, Needle(name), i, v);
  }

  /** The value read after the only occurrence of `sep` is the field there. */
  lemma ReadField(s: string, sep: string, i: nat, v: string)
    requires |sep| > 0 && OnlyAt(s, sep, i) && FieldAt(s, i + |sep|, v)
    ensures ValueOfParts(Split(s, sep)) == NonEmpty(v)
  {
    var r := ValueOfParts(Split(s, sep));
    ValueAtOnly(s, sep, i);
    FieldUnique(s, i + |sep|, OrEmpty(r), v);
    if r.None? {
      assert v == "";
    } else {
      assert v == r.value;
    }
  }

  /** What `getCookie` makes of the parts: the second part's first field, when there are exactly two. */
  function ValueOfParts(parts: seq<string>): (r: Option<string>)
    ensures r != Some("")
    ensures r.Some? ==> |parts| == 2 && FieldAt(parts[1], 0, r.value)
    ensures |parts| == 2 ==> FieldAt(parts[1], 0, OrEmpty(r))
  {
    if |parts| == 2 then NonEmpty(FirstField(parts[1])) else None
  }

  lemma ValueWhenTwice(s: string, sep: string)
    requires |sep| > 0
    ensures forall i: nat, j: nat :: OccursAt(s, sep, i) && OccursAt(s, sep, j) && i + |sep| <= j ==> ValueOfParts(Split(s, sep)).None?
  {
    forall i: nat, j: nat | OccursAt(s, sep, i) && OccursAt(s, sep, j) && i + |sep| <= j
      ensures ValueOfParts(Split(s, sep)).None?
    {
      SplitTwice(s, sep, i, j);
    }
  }

  lemma ValueWhenOnly(s: string, sep: string)
    requires |sep| > 0
    ensures forall i: nat :: OnlyAt(s, sep, i) ==> FieldAt(s, i + |sep|, OrEmpty(ValueOfParts(Split(s, sep))))
  {
    forall i: nat | OnlyAt(s, sep, i)
      ensures FieldAt(s, i + |sep|, OrEmpty(ValueOfParts(Split(s, sep))))
    {
      ValueAtOnly(s, sep, i);
    }
  }

  lemma ValueAtOnly(s: string, sep: string, i: nat)
    requires |sep| > 0 && OnlyAt(s, sep, i)
    ensures FieldAt(s, i + |sep|, OrEmpty(ValueOfParts(Split(s, sep))))
  {
    SplitOnly(s, sep, i);
    TwoPartsField(s, Split(s, sep), i + |sep|);
  }

  /** When the second of two parts is the suffix from `k`, the value read is the field at `k`. */
  lemma TwoPartsField(s: string, parts: seq<string>, k: nat)
    requires k <= |s| && |parts| == 2 && parts[1] == s[k..]
    ensures FieldAt(s, k, OrEmpty(ValueOfParts(parts)))
  {
    FieldInSuffix(s, k, 0, OrEmpty(ValueOfParts(parts)));
  }

  // ---- writing: setCookie ----

  const DefaultDays := 365
  const MillisPerDay := 24 * 60 * 60 * 1000

  /** The expiry attribute: present exactly when `days` is non-zero, naming the instant `days` days after `nowMs` as `utc` (`Date.toUTCString`) renders it. */
  function Expiry(days: int, nowMs: int, utc: int -> string): (r: Option<string>)
    ensures r.None? <==> days == 0
  {
    if days != 0 then Some("expires=" + utc(nowMs + days * MillisPerDay)) else None
  }

  /** Hosts for which `setCookie` leaves the domain attribute out. */
  predicate IsDevHost(host: string)
  {
    host == "localhost" || EndsWith(host, ".cloudworkstations.dev")
  }

  /** The domain attribute: the hostname with its first `www.` (anywhere in it) removed. */
  function Domain(host: string): (r: Option<string>)
    ensures r.None? <==> IsDevHost(host)
    ensures !IsDevHost(host) && !Contains(host, "www.") ==> r == Some("domain=" + host)
    ensures !IsDevHost(host) && Contains(host, "www.") ==>
      exists i: nat :: FirstAt(host, "www.", i) && r == Some("domain=" + (host[..i] + host[i + 4..]))
  {
    if IsDevHost(host) then None else DropFirstWww(host); Some("domain=" + ReplaceFirst(host, "www.", ""))
  }

  /** `"; " + a` when there is an `a`, else nothing. */
  function Attr(a: Option<string>): (r: string)
    ensures r == "" <==> a.None?
    ensures r != "" ==> r[0] == ';'
  {
    if a.Some? then "; " + a.value else ""
  }

  /** The string `setCookie(name, value, days)` assigns to `document.cookie` on `host`. */
  function SetCookieString(name: string, value: string, days: int, host: string, nowMs: int, utc: int -> string): string
  {
    name + "=" + value + Attr(Expiry(days, nowMs, utc)) + "; path=/" + Attr(Domain(host))
  }

  /** `setCookie(name, value)` with the default lifetime. */
  function SetCookieDefault(name: string, value: string, host: string, nowMs: int, utc: int -> string): string
  {
    SetCookieString(name, value, DefaultDays, host, nowMs, utc)
  }

  /** The tracker component's own `setCookie`: same pair and expiry, never a domain attribute. */
  function TrackerSetCookieString(name: string, value: string, days: int, nowMs: int, utc: int -> string): string
  {
    name + "=" + value + Attr(Expiry(days, nowMs, utc)) + "; path=/"
  }

  /** The pair, the optional expiry, `path=/` and the optional domain, in order. */
  function AttributeList(pair: string, exp: Option<string>, dom: Option<string>): seq<string>
  {
    match (exp, dom)
    case (Some(e), Some(d)) => [pair, e, "path=/", d]
    case (Some(e), None) => [pair, e, "path=/"]
    case (None, Some(d)) => [pair, "path=/", d]
    case (None, None) => [pair, "path=/"]
  }

  lemma JoinAttributeList(pair: string, exp: Option<string>, dom: Option<string>)
    ensures Join(AttributeList(pair, exp, dom), "; ") == pair + Attr(exp) + "; path=/" + Attr(dom)
  {
    var sep, p := "; ", "path=/";
    assert sep + p == "; path=/";
    match (exp, dom)
    case (Some(e), Some(d)) =>
      Join4(pair, e, p, d, sep);
      Assoc(pair, sep, e);
      Assoc(pair + (sep + e), sep, p);
      Assoc(pair + (sep + e) + (sep + p), sep, d);
    case (Some(e), None) =>
      Join3(pair, e, p, sep);
      Assoc(pair, sep, e);
      Assoc(pair + (sep + e), sep, p);
    case (None, Some(d)) =>
      Join3(pair, p, d, sep);
      Assoc(pair, sep, p);
      Assoc(pair + (sep + p), sep, d);
    case (None, None) =>
      Join2(pair, p, sep);
      Assoc(pair, sep, p);
  }

  /** The attributes `setCookie` should produce. */
  function ExpectedAttributes(name: string, value: string, days: int, host: string, nowMs: int, utc: int -> string): seq<string>
  {
    AttributeList(name + "=" + value, Expiry(days, nowMs, utc), Domain(host))
  }

  lemma NoSemicolonAfterReplace(host: string)
    requires ';' !in host
    ensures ';' !in ReplaceFirst(host, "www.", "")
  {
    var r := ReplaceFirst(host, "www.", "");
    if Contains(host, "www.") {
      var i: nat :| OccursAt(host, "www.", i) && r == host[..i] + "" + host[i + 4..];
      assert forall c :: c in host[..i] ==> c in host;
      assert forall c :: c in host[i + 4..] ==> c in host;
    }
  }

  lemma NoSemicolonConcat(a: string, b: string)
    requires ';' !in a && ';' !in b
    ensures ';' !in a + b
  {
  }

  lemma AttributesSemicolonFree(pair: string, exp: Option<string>, dom: Option<string>)
    requires ';' !in pair
    requires exp.Some? ==> ';' !in exp.value
    requires dom.Some? ==> ';' !in dom.value
    ensures forall k :: 0 <= k < |AttributeList(pair, exp, dom)| ==> "; "[0] !in AttributeList(pair, exp, dom)[k]
  {
  }

  lemma SplitAttributeList(pair: string, exp: Option<string>, dom: Option<string>)
    requires ';' !in pair
    requires exp.Some? ==> ';' !in exp.value
    requires dom.Some? ==> ';' !in dom.value
    ensures Split(pair + Attr(exp) + "; path=/" + Attr(dom), "; ") == AttributeList(pair, exp, dom)
  {
    var attrs := AttributeList(pair, exp, dom);
    AttributesSemicolonFree(pair, exp, dom);
    JoinAttributeList(pair, exp, dom);
    SplitJoin(attrs, "; ");
  }

  /** The expiry and domain attributes hold no `;` when the clock text and the host hold none. */
  lemma AttributeValuesSafe(days: int, nowMs: int, utc: int -> string, host: string)
    requires ';' !in host && ';' !in utc(nowMs + days * MillisPerDay)
    ensures Expiry(days, nowMs, utc).Some? ==> ';' !in Expiry(days, nowMs, utc).value
    ensures Domain(host).Some? ==> ';' !in Domain(host).value
  {
    assert Expiry(days, nowMs, utc).Some? ==> ';' !in Expiry(days, nowMs, utc).value by {
      if days != 0 {
        NoSemicolonConcat("expires=", utc(nowMs + days * MillisPerDay));
      }
    }
    DomainSafe(host);
  }

  lemma DomainSafe(host: string)
    requires ';' !in host
    ensures Domain(host).Some? ==> ';' !in Domain(host).value
  {
    if !IsDevHost(host) {
      NoSemicolonAfterReplace(host);
      NoSemicolonConcat("domain=", ReplaceFirst(host, "www.", ""));
    }
  }

  /**
   Cutting a `setCookie` string at `"; "` recovers the pair and each attribute:
   the expiry only when `days` is non-zero, then `path=/`, then the domain
   unless the host is a development host.
   */
  lemma SetCookieAttributes(name: string, value: string, days: int, host: string, nowMs: int, utc: int -> string)
    requires ';' !in name && ';' !in value && ';' !in host
    requires ';' !in utc(nowMs + days * MillisPerDay)
    ensures Split(SetCookieString(name, value, days, host, nowMs, utc), "; ")
         == ExpectedAttributes(name, value, days, host, nowMs, utc)
  {
    var pair, exp, dom := name + "=" + value, Expiry(days, nowMs, utc), Domain(host);
    AttributeValuesSafe(days, nowMs, utc, host);
    NoSemicolonConcat(name, "=");
    NoSemicolonConcat(name + "=", value);
    assert SetCookieString(name, value, days, host, nowMs, utc) == pair + Attr(exp) + "; path=/" + Attr(dom);
    SplitAttributeList(pair, exp, dom);
  }

  /** Appending text that starts a new field leaves the first field as it was. */
  lemma FirstFieldAppend(v: string, x: string)
    requires x == "" || x[0] == ';'
    ensures FirstField(v + x) == FirstField(v)
  {
    var f := FirstField(v);
    assert (v + x)[0..|f|] == v[0..|f|];
    if |f| < |v| {
      assert (v + x)[|f|] == v[|f|];
    }
    FieldUnique(v + x, 0, f, FirstField(v + x));
  }

  /** A `;`-free head belongs to the first field. */
  lemma FirstFieldPrepend(a: string, v: string)
    requires ';' !in a
    ensures FirstField(a + v) == a + FirstField(v)
  {
    var f := FirstField(v);
    var s := a + v;
    assert s[0..|a| + |f|] == a + v[0..|f|];
    if |f| < |v| {
      assert s[|a| + |f|] == v[|f|];
    }
    FieldUnique(s, 0, a + f, FirstField(s));
  }

  /**
   The pair a browser takes from a `setCookie` string (the text before the
   first `;`, section 5.2 of RFC 6265) is the name with the value cut at its
   own first `;`.
   */
  lemma SetCookiePair(name: string, value: string, days: int, host: string, nowMs: int, utc: int -> string)
    requires ';' !in name
    ensures FirstField(SetCookieString(name, value, days, host, nowMs, utc)) == name + "=" + FirstField(value)
  {
    PairThenAttributes(name, value, Attr(Expiry(days, nowMs, utc)), Attr(Domain(host)));
  }

  /** Optional attributes `e` and `d` around `path=/` never reach into the pair. */
  lemma PairThenAttributes(name: string, value: string, e: string, d: string)
    requires ';' !in name
    requires e == "" || e[0] == ';'
    ensures FirstField(name + "=" + value + e + "; path=/" + d) == name + "=" + FirstField(value)
  {
    var a := name + "=" + value;
    var p := "; path=/";
    var x := e + p + d;
    assert x[0] == ';' by {
      if e == "" {
        assert x == p + d;
      } else {
        assert x == e + (p + d);
      }
    }
    Assoc(a + e, p, d);
    Assoc(a, e, p + d);
    Assoc(e, p, d);
    PairBeforeAttributes(name, value, x, a + e + p + d);
  }

  lemma PairBeforeAttributes(name: string, value: string, x: string, s: string)
    requires ';' !in name
    requires x != [] && x[0] == ';'
    requires s == name + "=" + value + x
    ensures FirstField(s) == name + "=" + FirstField(value)
  {
    assert s == (name + "=") + (value + x);
    FirstFieldAppend(value, x);
    FirstFieldPrepend(name + "=", value + x);
  }

  /** A `www.` prefix is what the domain attribute drops. */
  lemma DomainOfWwwHost(t: string)
    requires !IsDevHost("www." + t)
    ensures Domain("www." + t) == Some("domain=" + t)
  {
    ReplaceLeading(t, "www.");
  }

  /** Replacing by the empty string cuts the first occurrence out. */
  lemma DropFirstWww(host: string)
    ensures Contains(host, "www.") ==>
      exists i: nat :: FirstAt(host, "www.", i) && ReplaceFirst(host, "www.", "") == host[..i] + host[i + 4..]
  {
    if Contains(host, "www.") {
      var r := ReplaceFirst(host, "www.", "");
      var i: nat :| FirstAt(host, "www.", i) && r == host[..i] + "" + host[i + |"www."|..];
      assert |"www."| == 4;
      assert host[..i] + "" == host[..i];
    }
  }

  /** The domain of a host whose first `www.` stands at `i`. */
  lemma DomainAt(host: string, i: nat)
    requires !IsDevHost(host) && FirstAt(host, "www.", i)
    ensures Domain(host) == Some("domain=" + (host[..i] + host[i + 4..]))
  {
    var k: nat :| FirstAt(host, "www.", k) && Domain(host) == Some("domain=" + (host[..k] + host[k + 4..]));
    FirstAtUnique(host, "www.", i, k);
  }

  /** On a development host the two `setCookie` copies assign the same string. */
  lemma TrackerSetCookieOnDevHost(name: string, value: string, days: int, host: string, nowMs: int, utc: int -> string)
    requires IsDevHost(host)
    ensures TrackerSetCookieString(name, value, days, nowMs, utc) == SetCookieString(name, value, days, host, nowMs, utc)
  {
  }

  // ---- the jar ----

  /** One stored cookie; `days` is the lifetime it was written with (0: until the browser closes). */
  datatype Cookie = Cookie(name: string, value: string, days: int)

  /** The browser's cookies for the page, in creation order. */
  type Jar = seq<Cookie>

  /** A cookie name as browsers store it: no `;` and no `=`. */
  predicate ValidName(n: string)
  {
    ';' !in n && '=' !in n
  }

  /** Every cookie has a valid name and a `;`-free value. */
  predicate Clean(jar: Jar)
  {
    forall k :: 0 <= k < |jar| ==> ValidName(jar[k].name) && ';' !in jar[k].value
  }

  /** Clean, and no two cookies share a name. */
  predicate WellFormed(jar: Jar)
  {
    && Clean(jar)
    && (forall k, m :: 0 <= k < m < |jar| ==> jar[k].name != jar[m].name)
  }

  /** `o` is the index of the first cookie named `n`, or `None` if there is none. */
  ghost predicate IsFirst(jar: Jar, n: string, o: Option<nat>)
  {
    match o
    case None => forall k :: 0 <= k < |jar| ==> jar[k].name != n
    case Some(k) => k < |jar| && jar[k].name == n && forall m :: 0 <= m < k ==> jar[m].name != n
  }

  lemma FirstUnique(jar: Jar, n: string, a: Option<nat>, b: Option<nat>)
    requires IsFirst(jar, n, a) && IsFirst(jar, n, b)
    ensures a == b
  {
  }

  function Position(jar: Jar, n: string): (r: Option<nat>)
    ensures IsFirst(jar, n, r)
  {
    if |jar| == 0 then None
    else if jar[0].name == n then Some(0)
    else match Position(jar[1..], n)
      case None => None
      case Some(k) => Some(k + 1)
  }

  function Lookup(jar: Jar, n: string): (r: Option<Cookie>)
    ensures r.Some? ==> r.value in jar && r.value.name == n
    ensures r.None? ==> forall k :: 0 <= k < |jar| ==> jar[k].name != n
  {
    match Position(jar, n)
    case None => None
    case Some(k) => Some(jar[k])
  }

  /** The value stored under `n`, with an empty value read as absent. */
  function Stored(jar: Jar, n: string): Option<string>
  {
    match Lookup(jar, n)
    case None => None
    case Some(c) => NonEmpty(c.value)
  }

  /**
   The browser's handling of a `setCookie` assignment: the value is cut at
   its first `;` (the rest would be read as attributes), an existing cookie of
   the same name is replaced in place, otherwise the cookie is appended.
   */
  function Put(jar: Jar, name: string, value: string, days: int): (r: Jar)
    ensures Lookup(r, name) == Some(Cookie(name, FirstField(value), days))
    ensures forall n :: n != name ==> Lookup(r, n) == Lookup(jar, n)
    ensures WellFormed(jar) && ValidName(name) ==> WellFormed(r)
  {
    var c := Cookie(name, FirstField(value), days);
    match Position(jar, name)
    case None =>
      PutAppends(jar, c);
      jar + [c]
    case Some(k) =>
      PutReplaces(jar, k, c);
      jar[k := c]
  }

  /** Appending a cookie whose name is new. */
  lemma PutAppends(jar: Jar, c: Cookie)
    requires Position(jar, c.name).None?
    ensures Lookup(jar + [c], c.name) == Some(c)
    ensures forall n :: n != c.name ==> Lookup(jar + [c], n) == Lookup(jar, n)
    ensures WellFormed(jar) && ValidName(c.name) && ';' !in c.value ==> WellFormed(jar + [c])
  {
    var r := jar + [c];
    assert IsFirst(r, c.name, Some(|jar|));
    FirstUnique(r, c.name, Some(|jar|), Position(r, c.name));
    forall n | n != c.name ensures Lookup(r, n) == Lookup(jar, n) {
      var p := Position(jar, n);
      assert IsFirst(r, n, p);
      FirstUnique(r, n, p, Position(r, n));
    }
  }

  /** Replacing, in place, the first cookie of the same name. */
  lemma PutReplaces(jar: Jar, k: nat, c: Cookie)
    requires Position(jar, c.name) == Some(k)
    ensures Lookup(jar[k := c], c.name) == Some(c)
    ensures forall n :: n != c.name ==> Lookup(jar[k := c], n) == Lookup(jar, n)
    ensures WellFormed(jar) && ValidName(c.name) && ';' !in c.value ==> WellFormed(jar[k := c])
  {
    var r := jar[k := c];
    assert IsFirst(r, c.name, Some(k));
    FirstUnique(r, c.name, Some(k), Position(r, c.name));
    forall n | n != c.name ensures Lookup(r, n) == Lookup(jar, n) {
      var p := Position(jar, n);
      assert IsFirst(r, n, p);
      FirstUnique(r, n, p, Position(r, n));
    }
  }

  function Pairs(jar: Jar): (ps: seq<string>)
    ensures |ps| == |jar|
  {
    if |jar| == 0 then [] else [jar[0].name + "=" + jar[0].value] + Pairs(jar[1..])
  }

  /** `document.cookie`: every pair, in order, separated by `"; "`. */
  function Render(jar: Jar): string
  {
    Join(Pairs(jar), "; ")
  }

  /** One cookie as it appears in `"; " + document.cookie`. */
  function Entry(c: Cookie): string
  {
    "; " + c.name + "=" + c.value
  }

  function Tagged(jar: Jar): string
  {
    if |jar| == 0 then "" else Entry(jar[0]) + Tagged(jar[1..])
  }

  /** Where cookie `k`'s entry starts in `Tagged(jar)`. */
  function Offset(jar: Jar, k: nat): nat
    requires k <= |jar|
  {
    if k == 0 then 0 else |Entry(jar[0])| + Offset(jar[1..], k - 1)
  }

  lemma {:induction false} TaggedRender(jar: Jar)
    requires |jar| >= 1
    ensures "; " + Render(jar) == Tagged(jar)
    decreases |jar|
  {
    if |jar| >= 2 {
      TaggedRender(jar[1..]);
      JoinCons(jar[0].name + "=" + jar[0].value, Pairs(jar[1..]), "; ");
    }
  }

  /** The needle for `name` matches the start of an entry exactly when the entry is named `name`. */
  lemma HeadMatch(c: Cookie, t: string, name: string)
    requires ValidName(c.name) && ValidName(name)
    ensures OccursAt(Entry(c) + t, Needle(name), 0) <==> name == c.name
  {
    var s := Entry(c) + t;
    var nd := Needle(name);
    assert s[2 + |c.name|] == '=';
    if name == c.name {
      assert s[0..|nd|] == nd;
    } else if |name| < |c.name| {
      assert s[2 + |name|] == c.name[|name|];
    } else if |name| > |c.name| {
      assert nd[2 + |c.name|] == name[|c.name|];
    } else {
      assert s[2..2 + |name|] == c.name;
      assert nd[2..2 + |name|] == name;
    }
  }

  /** No needle starts strictly inside an entry: the only `;` of an entry is its first character. */
  lemma InsideNoMatch(c: Cookie, t: string, name: string, i: nat)
    requires ValidName(c.name) && ';' !in c.value
    requires 0 < i < |Entry(c)|
    ensures !OccursAt(Entry(c) + t, Needle(name), i)
  {
    var e := Entry(c);
    var nd := Needle(name);
    assert e[1..] == " " + c.name + "=" + c.value;
    assert e[i] == e[1..][i - 1];
    assert e[i] != ';';
    assert (e + t)[i] == e[i];
    assert nd[0] == ';';
    if i + |nd| <= |e + t| {
      assert (e + t)[i..i + |nd|][0] == (e + t)[i];
    }
  }

  /** Where the needle for `name` can occur in an entry followed by `t`. */
  lemma EntryOccurrences(c: Cookie, t: string, name: string)
    requires ValidName(c.name) && ';' !in c.value && ValidName(name)
    ensures forall j: nat :: j < |Entry(c)| ==> (OccursAt(Entry(c) + t, Needle(name), j) <==> j == 0 && name == c.name)
    ensures forall j: nat :: OccursAt(t, Needle(name), j) <==> OccursAt(Entry(c) + t, Needle(name), |Entry(c)| + j)
  {
    var e := Entry(c);
    HeadMatch(c, t, name);
    forall j: nat | 0 < j < |e| ensures !OccursAt(e + t, Needle(name), j) {
      InsideNoMatch(c, t, name, j);
    }
    assert (e + t)[|e|..] == t;
    OccursInSuffix(e + t, |e|, Needle(name));
  }

  /** Occurrences in `e + t` when `e` holds none except possibly at its start. */
  lemma ShiftOccurrences(e: string, t: string, nd: string)
    requires forall j: nat :: 0 < j < |e| ==> !OccursAt(e + t, nd, j)
    requires forall j: nat :: OccursAt(t, nd, j) <==> OccursAt(e + t, nd, |e| + j)
    ensures !OccursAt(e + t, nd, 0) && !Contains(t, nd) ==> !Contains(e + t, nd)
    ensures OccursAt(e + t, nd, 0) && !Contains(t, nd) ==> OnlyAt(e + t, nd, 0)
    ensures forall o: nat :: !OccursAt(e + t, nd, 0) && OnlyAt(t, nd, o) ==> OnlyAt(e + t, nd, |e| + o)
  {
    forall j: nat | j >= |e| && OccursAt(e + t, nd, j) ensures OccursAt(t, nd, j - |e|) {
    }
  }

  /** In `Tagged(jar)`, the needle for `name` occurs at the named cookie's entry and nowhere else. */
  lemma {:induction false} JarOccurrences(jar: Jar, name: string)
    requires WellFormed(jar) && ValidName(name)
    ensures Position(jar, name).None? ==> !Contains(Tagged(jar), Needle(name))
    ensures Position(jar, name).Some? ==> OnlyAt(Tagged(jar), Needle(name), Offset(jar, Position(jar, name).value))
    decreases |jar|
  {
    if |jar| > 0 {
      var c := jar[0];
      var rest := jar[1..];
      var p := Position(rest, name);
      var o := if p.Some? then Offset(rest, p.value) else 0;
      TailFacts(jar, name);
      JarOccurrences(rest, name);
      EntryStep(c, Tagged(rest), name, o);
      assert Tagged(jar) == Entry(c) + Tagged(rest);
      if c.name != name && p.Some? {
        assert Offset(jar, p.value + 1) == |Entry(c)| + o;
      }
    }
  }

  /** How the occurrences of a needle in `t` carry over to `Entry(c) + t`. */
  lemma EntryStep(c: Cookie, t: string, name: string, o: nat)
    requires ValidName(c.name) && ';' !in c.value && ValidName(name)
    ensures c.name == name && !Contains(t, Needle(name)) ==> OnlyAt(Entry(c) + t, Needle(name), 0)
    ensures c.name != name && !Contains(t, Needle(name)) ==> !Contains(Entry(c) + t, Needle(name))
    ensures c.name != name && OnlyAt(t, Needle(name), o) ==> OnlyAt(Entry(c) + t, Needle(name), |Entry(c)| + o)
  {
    EntryOccurrences(c, t, name);
    ShiftOccurrences(Entry(c), t, Needle(name));
  }

  /** The rest of a well-formed jar is well formed, and holds no second cookie of the first one's name. */
  lemma TailFacts(jar: Jar, name: string)
    requires WellFormed(jar) && |jar| > 0
    ensures WellFormed(jar[1..])
    ensures ValidName(jar[0].name) && ';' !in jar[0].value
    ensures jar[0].name == name ==> Position(jar[1..], name).None?
  {
    if jar[0].name == name {
      forall k | 0 <= k < |jar[1..]| ensures jar[1..][k].name != name {
        assert jar[1..][k] == jar[k + 1];
      }
    }
  }

  /** A field of `t` is a field of `e + t`, shifted by `|e|`. */
  lemma ShiftField(e: string, t: string, j: nat, v: string)
    requires FieldAt(t, j, v)
    ensures FieldAt(e + t, |e| + j, v)
  {
    assert (e + t)[|e|..] == t;
    FieldInSuffix(e + t, |e|, j, v);
  }

  /** The first cookie's value sits right after its needle and runs to the next `;` or the end. */
  lemma HeadField(jar: Jar)
    requires Clean(jar) && |jar| > 0
    ensures FieldAt(Tagged(jar), |Needle(jar[0].name)|, jar[0].value)
  {
    var c := jar[0];
    var e := Entry(c);
    var t := Tagged(jar[1..]);
    var s := Tagged(jar);
    var at := |Needle(c.name)|;
    assert s == e + t;
    assert e == Needle(c.name) + c.value;
    assert s[at..at + |c.value|] == c.value;
    if |jar| > 1 {
      assert t == Entry(jar[1]) + Tagged(jar[2..]);
      assert s[at + |c.value|] == t[0] == ';';
    }
  }

  /** Cookie `k`'s value is the whole `;`-field that follows its needle in `Tagged(jar)`. */
  lemma {:induction false} JarField(jar: Jar, k: nat)
    requires Clean(jar) && k < |jar|
    ensures FieldAt(Tagged(jar), Offset(jar, k) + |Needle(jar[k].name)|, jar[k].value)
    decreases |jar|
  {
    if k == 0 {
      HeadField(jar);
    } else {
      var e := Entry(jar[0]);
      var rest := jar[1..];
      var s := Tagged(jar);
      assert Clean(rest) by {
        forall m | 0 <= m < |rest| ensures ValidName(rest[m].name) && ';' !in rest[m].value {
          assert rest[m] == jar[m + 1];
        }
      }
      JarField(rest, k - 1);
      assert rest[k - 1] == jar[k];
      var j := Offset(rest, k - 1) + |Needle(jar[k].name)|;
      assert Offset(jar, k) == |e| + Offset(rest, k - 1);
      assert s == e + Tagged(rest);
      ShiftField(e, Tagged(rest), j, jar[k].value);
    }
  }

  /**
   `getCookie` on a rendered jar of well-formed cookies returns the named
   cookie's value, `null` when the value is empty or no cookie has that name
   (also when the name is only a suffix of another cookie's name).
   */
  lemma ReadAfterRender(jar: Jar, name: string)
    requires WellFormed(jar) && ValidName(name)
    ensures GetCookie(Render(jar), name) == Stored(jar, name)
  {
    if |jar| == 0 {
      assert !Contains("; " + Render(jar), Needle(name)) by {
        assert |"; " + Render(jar)| == 2;
      }
    } else {
      TaggedRender(jar);
      ReadTagged(jar, name);
    }
  }

  /** Reading `name` out of the tagged entries of a non-empty jar. */
  lemma ReadTagged(jar: Jar, name: string)
    requires WellFormed(jar) && ValidName(name) && |jar| >= 1
    ensures ValueOfParts(Split(Tagged(jar), Needle(name))) == Stored(jar, name)
  {
    match Position(jar, name)
    case None =>
      JarOccurrences(jar, name);
      assert |Split(Tagged(jar), Needle(name))| == 1;
      assert Lookup(jar, name).None?;
    case Some(k) =>
      ReadPresent(jar, name, k);
      assert Lookup(jar, name) == Some(jar[k]);
  }

  /** The value read for a name the jar holds is that cookie's value. */
  lemma ReadPresent(jar: Jar, name: string, k: nat)
    requires WellFormed(jar) && ValidName(name) && Position(jar, name) == Some(k)
    ensures ValueOfParts(Split(Tagged(jar), Needle(name))) == NonEmpty(jar[k].value)
  {
    JarOccurrences(jar, name);
    NamedField(jar, k, name);
    ReadField(Tagged(jar), Needle(name), Offset(jar, k), jar[k].value);
  }

  /** `JarField` for the cookie found under `name`. */
  lemma NamedField(jar: Jar, k: nat, name: string)
    requires WellFormed(jar) && k < |jar| && jar[k].name == name
    ensures FieldAt(Tagged(jar), Offset(jar, k) + |Needle(name)|, jar[k].value)
  {
    JarField(jar, k);
  }

  /** `getCookie(name)` on the current jar. */
  function ReadCookie(jar: Jar, name: string): (r: Option<string>)
    ensures WellFormed(jar) && ValidName(name) ==> r == Stored(jar, name)
  {
    if WellFormed(jar) && ValidName(name) then ReadAfterRender(jar, name); GetCookie(Render(jar), name)
    else GetCookie(Render(jar), name)
  }

  /** In well-formed jars a read depends only on the cookie of that name. */
  lemma ReadSameLookup(j1: Jar, j2: Jar, name: string)
    requires WellFormed(j1) && WellFormed(j2) && ValidName(name)
    requires Lookup(j1, name) == Lookup(j2, name)
    ensures ReadCookie(j1, name) == ReadCookie(j2, name)
  {
  }

  /** A non-empty, `;`-free value written under `name` reads back unchanged. */
  lemma ReadAfterPut(jar: Jar, name: string, value: string, days: int)
    requires WellFormed(jar) && ValidName(name) && value != "" && ';' !in value
    ensures ReadCookie(Put(jar, name, value, days), name) == Some(value)
  {
    assert FirstField(value) == value;
  }

  /** Writing one cookie leaves every other read of a well-formed jar as it was. */
  lemma ReadOtherAfterPut(jar: Jar, name: string, value: string, days: int, other: string)
    requires WellFormed(jar) && ValidName(name) && ValidName(other) && other != name
    ensures ReadCookie(Put(jar, name, value, days), other) == ReadCookie(jar, other)
  {
  }
}
