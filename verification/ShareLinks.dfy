/** Share links: `encodeUserinfo`, `appendQueryAndFragment` and `buildExternalProxyURLLinks`.
    Strings are byte strings here, so every character is below 256. */
module ShareLinks {
  import opened Ascii
  import CertificatePin
  import opened GoStrings
  import JsNumber
  import JsonMaps
  import opened Options
  import Rfc4648
  import opened Sequences
  import opened SortedKeys

  predicate IsBytes(s: string) { forall k :: 0 <= k < |s| ==> s[k] < 256 as char }

  // ---------- percent-encoding ----------

  /** Section 2.3 of RFC 3986. */
  predicate Unreserved(c: char) {
    'a' <= c <= 'z' || 'A' <= c <= 'Z' || '0' <= c <= '9' || c == '-' || c == '_' || c == '.' || c == '~'
  }

  function HexDigit(v: nat): char
    requires v < 16
  {
    if v < 10 then (48 + v) as char else (55 + v) as char
  }

  function HexValue(c: char): (v: nat)
    ensures v <= 16
  {
    if '0' <= c <= '9' then c as int - 48 else if 'A' <= c <= 'F' then c as int - 55
    else if 'a' <= c <= 'f' then c as int - 87 else 16
  }

  function EscapeChar(c: char, space: string): string
    requires c < 256 as char
  {
    if Unreserved(c) then [c] else if c == ' ' then space
    else ['%', HexDigit(c as int / 16), HexDigit(c as int % 16)]
  }

  function Escape(s: string, space: string): string
    requires IsBytes(s)
  {
    if s == "" then "" else EscapeChar(s[0], space) + Escape(s[1..], space)
  }

  /** url.QueryEscape. */
  function QueryEscape(s: string): string requires IsBytes(s) { Escape(s, "+") }

  function ReplacePlus(s: string): string {
    if s == "" then "" else (if s[0] == '+' then "%20" else [s[0]]) + ReplacePlus(s[1..])
  }

  /** `encodeUserinfo`, and what follows the `#` of a link. */
  function EncodeUserinfo(s: string): string requires IsBytes(s) { ReplacePlus(QueryEscape(s)) }

  function Prepend(c: char, r: Option<string>): Option<string> {
    if r.Some? then Some([c] + r.value) else None
  }

  /** Percent-decoding; `plus` says what a plus sign stands for. */
  function Unescape(t: string, plus: char): Option<string>
  {
    if t == "" then Some("")
    else if t[0] == '%' then
      if |t| < 3 || HexValue(t[1]) == 16 || HexValue(t[2]) == 16 then None
      else Prepend((16 * HexValue(t[1]) + HexValue(t[2])) as char, Unescape(t[3..], plus))
    else Prepend(if t[0] == '+' then plus else t[0], Unescape(t[1..], plus))
  }

  lemma HexPair(x: nat)
    requires x < 256
    ensures HexValue(HexDigit(x / 16)) == x / 16 && HexValue(HexDigit(x % 16)) == x % 16 && x == 16 * (x / 16) + x % 16
  {
  }

  lemma UnescapeStep(c: char, space: string, rest: string, plus: char)
    requires c < 256 as char && (space == "%20" || (space == "+" && plus == ' '))
    ensures Unescape(EscapeChar(c, space) + rest, plus) == Prepend(c, Unescape(rest, plus))
  {
    var t := EscapeChar(c, space) + rest;
    HexPair(c as int);
    if Unreserved(c) || (c == ' ' && space == "+") {
      assert t[1..] == rest;
    } else {
      assert t[3..] == rest;
    }
  }

  lemma {:induction false} UnescapeOfEscape(s: string, space: string, plus: char)
    requires IsBytes(s) && (space == "%20" || (space == "+" && plus == ' '))
    ensures Unescape(Escape(s, space), plus) == Some(s)
  {
    if s != "" {
      UnescapeOfEscape(s[1..], space, plus);
      UnescapeStep(s[0], space, Escape(s[1..], space), plus);
      assert [s[0]] + s[1..] == s;
    }
  }

  lemma ReplacePlusCons(c: char, s: string)
    ensures ReplacePlus([c] + s) == (if c == '+' then "%20" else [c]) + ReplacePlus(s)
  {
    assert ([c] + s)[1..] == s;
  }

  lemma ReplacePlusMore(c: char, a: string, b: string)
    requires ReplacePlus(a + b) == ReplacePlus(a) + ReplacePlus(b)
    ensures ReplacePlus([c] + a + b) == ReplacePlus([c] + a) + ReplacePlus(b)
  {
    hide ReplacePlus;
    ReplacePlusCons(c, a + b);
    ReplacePlusCons(c, a);
    assert [c] + a + b == [c] + (a + b);
  }

  lemma {:induction false} ReplacePlusConcat(a: string, b: string)
    ensures ReplacePlus(a + b) == ReplacePlus(a) + ReplacePlus(b)
  {
    if a == "" {
      assert a + b == b;
    } else {
      ReplacePlusConcat(a[1..], b);
      ReplacePlusMore(a[0], a[1..], b);
      assert [a[0]] + a[1..] == a;
    }
  }

  lemma ReplacePlusChar(c: char)
    requires c < 256 as char
    ensures ReplacePlus(EscapeChar(c, "+")) == EscapeChar(c, "%20")
  {
    var t := EscapeChar(c, "+");
    if |t| == 3 {
      ReplacePlusConcat([t[0]], [t[1]] + [t[2]]);
      ReplacePlusConcat([t[1]], [t[2]]);
      assert t == [t[0]] + ([t[1]] + [t[2]]);
      HexPair(c as int);
    }
  }

  /** Replacing the plus signs afterwards is escaping blanks as %20: an escaped text has no other
      plus signs. */
  lemma {:induction false} UserinfoIsEscape(s: string)
    requires IsBytes(s)
    ensures EncodeUserinfo(s) == Escape(s, "%20")
  {
    if s != "" {
      UserinfoIsEscape(s[1..]);
      ReplacePlusConcat(EscapeChar(s[0], "+"), QueryEscape(s[1..]));
      ReplacePlusChar(s[0]);
    }
  }

  /** Decoding gives the original back, whatever the decoder makes of a plus sign. */
  lemma UserinfoRoundTrip(s: string, plus: char)
    requires IsBytes(s)
    ensures Unescape(EncodeUserinfo(s), plus) == Some(s)
  {
    UserinfoIsEscape(s);
    UnescapeOfEscape(s, "%20", plus);
  }

  /** Section 2.1 of RFC 3986: unreserved characters and percent signs followed by two upper-case
      hexadecimal digits. */
  predicate Triplets(t: string) {
    t == ""
    || (Unreserved(t[0]) && Triplets(t[1..]))
    || (|t| >= 3 && t[0] == '%' && HexValue(t[1]) < 16 && HexValue(t[2]) < 16
        && !('a' <= t[1] <= 'f') && !('a' <= t[2] <= 'f') && Triplets(t[3..]))
  }

  lemma {:induction false} UserinfoIsTriplets(s: string)
    requires IsBytes(s)
    ensures Triplets(EncodeUserinfo(s))
  {
    UserinfoIsEscape(s);
    if s != "" {
      UserinfoIsTriplets(s[1..]);
      UserinfoIsEscape(s[1..]);
      var rest := Escape(s[1..], "%20");
      var t := EscapeChar(s[0], "%20") + rest;
      HexPair(s[0] as int);
      if Unreserved(s[0]) { assert t[1..] == rest; } else { assert t[3..] == rest; }
    }
  }

  // ---------- splitting ----------

  /** strings.Cut at the first c: what comes before, and what comes after if c occurs. */
  function Cut(s: string, c: char): (r: (string, Option<string>))
    ensures r.1.Some? ==> |r.1.value| < |s|
  {
    if s == "" then ("", None)
    else if s[0] == c then ("", Some(s[1..]))
    else var (a, b) := Cut(s[1..], c); ([s[0]] + a, b)
  }

  lemma {:induction false} CutAt(a: string, b: string, c: char)
    requires Lacks(a, c)
    ensures Cut(a + [c] + b, c) == (a, Some(b))
  {
    if a == "" {
      assert ([c] + b)[1..] == b && a + [c] + b == [c] + b;
    } else {
      CutAt(a[1..], b, c);
      assert (a + [c] + b)[1..] == a[1..] + [c] + b;
      assert [a[0]] + a[1..] == a;
    }
  }

  lemma {:induction false} CutNone(a: string, c: char)
    requires Lacks(a, c)
    ensures Cut(a, c) == (a, None)
  {
    if a != "" {
      CutNone(a[1..], c);
      assert [a[0]] + a[1..] == a;
    }
  }

  lemma EscapeCharLacks(x: char, space: string, c: char)
    requires x < 256 as char && (space == "+" || space == "%20") && c in "&=?#\n"
    ensures Lacks(EscapeChar(x, space), c)
  {
    HexPair(x as int);
  }

  /** An escaped text contains none of the characters that structure a link. */
  lemma {:induction false} EscapeLacks(s: string, space: string, c: char)
    requires IsBytes(s) && (space == "+" || space == "%20") && c in "&=?#\n"
    ensures Lacks(Escape(s, space), c)
  {
    if s != "" {
      EscapeLacks(s[1..], space, c);
      EscapeCharLacks(s[0], space, c);
    }
  }

  // ---------- queries ----------

  type Params = map<string, string>

  ghost predicate ParamsAreBytes(q: Params) { forall k :: k in q ==> IsBytes(k) && IsBytes(q[k]) }

  function Pair(k: string, v: string): string
    requires IsBytes(k) && IsBytes(v)
  {
    QueryEscape(k) + "=" + QueryEscape(v)
  }

  /** url.Values.Encode for the keys from i on, in the given order. */
  function Query(keys: seq<string>, q: Params, i: nat): string
    requires i <= |keys| && ParamsAreBytes(q) && forall k :: 0 <= k < |keys| ==> keys[k] in q
    decreases |keys| - i
  {
    if i == |keys| then ""
    else Pair(keys[i], q[keys[i]]) + if i + 1 == |keys| then "" else "&" + Query(keys, q, i + 1)
  }

  datatype Parameter = Parameter(key: string, value: string) | Malformed

  function ParsePair(p: string): Parameter {
    var (a, b) := Cut(p, '=');
    var k, v := Unescape(a, ' '), Unescape(if b.Some? then b.value else "", ' ');
    if k.Some? && v.Some? then Parameter(k.value, v.value) else Malformed
  }

  /** url.ParseQuery, keeping the order of the pairs. */
  function ParseQuery(t: string): seq<Parameter>
    decreases |t|
  {
    if t == "" then []
    else
      var (piece, rest) := Cut(t, '&');
      (if piece == "" then [] else [ParsePair(piece)]) + (if rest.Some? then ParseQuery(rest.value) else [])
  }

  lemma ParsePairOfPair(k: string, v: string)
    requires IsBytes(k) && IsBytes(v)
    ensures Pair(k, v) != "" && Lacks(Pair(k, v), '&') && Lacks(Pair(k, v), '?') && Lacks(Pair(k, v), '#')
    ensures ParsePair(Pair(k, v)) == Parameter(k, v)
  {
    hide Escape, Unescape;
    EscapeLacks(k, "+", '&');
    EscapeLacks(v, "+", '&');
    EscapeLacks(k, "+", '?');
    EscapeLacks(v, "+", '?');
    EscapeLacks(k, "+", '#');
    EscapeLacks(v, "+", '#');
    EscapeLacks(k, "+", '=');
    CutAt(QueryEscape(k), QueryEscape(v), '=');
    UnescapeOfEscape(k, "+", ' ');
    UnescapeOfEscape(v, "+", ' ');
  }

  function Pairs(keys: seq<string>, q: Params, i: nat): (r: seq<Parameter>)
    requires i <= |keys| && forall k :: 0 <= k < |keys| ==> keys[k] in q
    ensures |r| == |keys| - i && forall k :: i <= k < |keys| ==> r[k - i] == Parameter(keys[k], q[keys[k]])
    decreases |keys| - i
  {
    if i == |keys| then [] else [Parameter(keys[i], q[keys[i]])] + Pairs(keys, q, i + 1)
  }

  lemma ParseNothing()
    ensures ParseQuery("") == []
  {
  }

  lemma ParseLast(pair: string)
    requires pair != "" && Lacks(pair, '&')
    ensures ParseQuery(pair) == [ParsePair(pair)]
  {
    hide ParsePair;
    CutNone(pair, '&');
  }

  lemma ParseNext(pair: string, rest: string)
    requires pair != "" && Lacks(pair, '&')
    ensures ParseQuery(pair + "&" + rest) == [ParsePair(pair)] + ParseQuery(rest)
  {
    hide ParsePair;
    CutAt(pair, rest, '&');
  }

  /** Parsing a printed query gives its parameters back, in the order they were printed in. */
  lemma {:induction false} ParseOfQuery(keys: seq<string>, q: Params, i: nat)
    requires i <= |keys| && ParamsAreBytes(q) && forall k :: 0 <= k < |keys| ==> keys[k] in q
    ensures ParseQuery(Query(keys, q, i)) == Pairs(keys, q, i)
    ensures (Query(keys, q, i) == "" <==> i == |keys|) && Lacks(Query(keys, q, i), '#') && Lacks(Query(keys, q, i), '?')
    decreases |keys| - i
  {
    hide Pair, ParsePair, Cut, ParseQuery;
    if i < |keys| {
      var pair, rest := Pair(keys[i], q[keys[i]]), Query(keys, q, i + 1);
      ParseOfQuery(keys, q, i + 1);
      ParsePairOfPair(keys[i], q[keys[i]]);
      if i + 1 == |keys| {
        assert Query(keys, q, i) == pair + "" == pair;
        ParseLast(pair);
      } else {
        assert Query(keys, q, i) == pair + ("&" + rest) == pair + "&" + rest;
        ParseNext(pair, rest);
      }
    } else {
      assert ParseQuery("") == [] by { ParseNothing(); }
    }
  }

  // ---------- links ----------

  const TLS_HINTS := {"alpn", "sni", "fp", "pcs"}

  /** What the loop over the parameters puts into the query. */
  function Selected(params: Params, security: string, omitTls: bool): Params {
    map k | k in params && !(omitTls && k in TLS_HINTS) ::
      if security != "" && k == "security" then security else params[k]
  }

  function LinkText(link: string, encoded: string, fragment: string): string
    requires IsBytes(fragment)
  {
    link + (if encoded == "" then "" else (if '?' in link then "&" else "?") + encoded)
    + (if fragment == "" then "" else "#" + EncodeUserinfo(fragment))
  }

  datatype Parsed = Parsed(base: string, params: seq<Parameter>, fragment: Option<string>)

  /** A reader of links: fragment, then query, then their escapes. */
  function ParseLink(t: string): Parsed {
    var (front, fragment) := Cut(t, '#');
    var (base, query) := Cut(front, '?');
    Parsed(base, if query.Some? then ParseQuery(query.value) else [],
           if fragment.Some? then Unescape(fragment.value, '+') else Some(""))
  }

  /** A link whose base has no query or fragment of its own parses back to its base, its
      parameters and its remark, in any order of the keys. */
  lemma LinkRoundTrip(link: string, keys: seq<string>, q: Params, fragment: string)
    requires Lacks(link, '?') && Lacks(link, '#') && IsBytes(fragment)
    requires ParamsAreBytes(q) && forall k :: 0 <= k < |keys| ==> keys[k] in q
    ensures ParseLink(LinkText(link, Query(keys, q, 0), fragment)) == Parsed(link, Pairs(keys, q, 0), Some(fragment))
  {
    hide Query, ParseQuery, EncodeUserinfo, Unescape;
    var query := Query(keys, q, 0);
    ParseOfQuery(keys, q, 0);
    var front := link + (if query == "" then "" else "?" + query);
    var text := LinkText(link, query, fragment);
    if query == "" {
      assert front == link;
      CutNone(link, '?');
    } else {
      assert front == link + "?" + query;
      CutAt(link, query, '?');
    }
    if fragment == "" {
      assert text == front;
      CutNone(front, '#');
    } else {
      assert text == front + "#" + EncodeUserinfo(fragment);
      CutAt(front, EncodeUserinfo(fragment), '#');
      UserinfoRoundTrip(fragment, '+');
    }
  }

  ghost predicate IsListing(keys: seq<string>, q: Params) {
    Ascending(keys) && Elements(keys) == q.Keys && forall k :: 0 <= k < |keys| ==> keys[k] in q
  }

  /** The text is the link with the parameters q in ascending order of their keys. */
  ghost predicate IsPrinted(text: string, link: string, q: Params, fragment: string) {
    ParamsAreBytes(q) && IsBytes(fragment)
    && exists keys :: IsListing(keys, q) && text == LinkText(link, Query(keys, q, 0), fragment)
  }

  lemma ListsElements(keys: seq<string>, q: Params)
    requires Elements(keys) == q.Keys
    ensures forall k :: 0 <= k < |keys| ==> keys[k] in q
  {
    forall k | 0 <= k < |keys| ensures keys[k] in q {
      assert keys[k] in Elements(keys);
    }
  }

  /** `appendQueryAndFragment`: the parameters in any order of the iteration, the keys then sorted. */
  method AppendQueryAndFragment(link: string, params: Params, fragment: string, security: string, omitTls: bool)
    returns (text: string)
    requires ParamsAreBytes(params) && IsBytes(fragment) && IsBytes(security)
    ensures IsPrinted(text, link, Selected(params, security, omitTls), fragment)
  {
    var q: Params := map[];
    var left := params.Keys;
    while left != {}
      invariant left <= params.Keys
      invariant q == map k | k in params && k !in left && !(omitTls && k in TLS_HINTS) ::
                       if security != "" && k == "security" then security else params[k]
    {
      var k :| k in left;
      left := left - {k};
      var v := params[k];
      if security != "" && k == "security" { v := security; }
      if !(omitTls && k in TLS_HINTS) { q := q[k := v]; }
    }
    assert q == Selected(params, security, omitTls);
    var sorted := Sort(q.Keys);
    ListsElements(sorted, q);
    text := LinkText(link, Query(sorted, q, 0), fragment);
    assert IsListing(sorted, q);
  }

  /** The order of the map iteration cannot show: there is only one such text. */
  lemma SameLink(text: string, other: string, link: string, q: Params, fragment: string)
    requires IsPrinted(text, link, q, fragment) && IsPrinted(other, link, q, fragment)
    ensures text == other
  {
    hide LinkText, Query;
    var keys :| IsListing(keys, q) && text == LinkText(link, Query(keys, q, 0), fragment);
    var others :| IsListing(others, q) && other == LinkText(link, Query(others, q, 0), fragment);
    AscendingUnique(keys, others);
  }

  // ---------- one link per external proxy ----------

  type Entry = map<string, JsonMaps.Value>

  function Join(parts: seq<string>, sep: string): string {
    if parts == [] then "" else if |parts| == 1 then parts[0] else parts[0] + sep + Join(parts[1..], sep)
  }

  function Texts(items: seq<JsonMaps.Value>): seq<string> {
    if items == [] then [] else (if items[0].Str? then [items[0].s] else []) + Texts(items[1..])
  }

  /** `externalProxyALPN`. */
  function AlpnText(v: JsonMaps.Value): Option<string> {
    match v
    case Str(s) => if s == "" then None else Some(s)
    case List(items) =>
      var texts := Texts(JsonMaps.NonEmptyTexts(items));
      if texts == [] then None else Some(Join(texts, ","))
    case _ => None
  }

  /** `applyExternalProxyTLSParams`. */
  function WithEntry(params: Params, ep: Entry, security: string): Params {
    if security != "tls" then params
    else
      var sni, fp := JsonMaps.Text(ep, "sni"), JsonMaps.Text(ep, "fingerprint");
      var p1 := if sni != "" then params["sni" := sni] else params;
      var p2 := if fp != "" then p1["fp" := fp] else p1;
      var alpn := AlpnText(JsonMaps.Field(ep, "alpn"));
      var p3 := if alpn.Some? then p2["alpn" := alpn.value] else p2;
      var pins := JsonMaps.Pins(JsonMaps.Field(ep, "pinnedPeerCertSha256"));
      if pins.Some? then p3["pcs" := Join(Texts(pins.value), ",")] else p3
  }

  function SecurityFor(ep: Entry, base: string): string {
    if JsonMaps.Text(ep, "forceTls") != "same" then JsonMaps.Text(ep, "forceTls") else base
  }

  /** The parameters of the link of one entry, which no other entry touches. */
  function ParamsFor(params: Params, ep: Entry, base: string): Params {
    var security := SecurityFor(ep, base);
    Selected(WithEntry(params, ep, security), security, JsonMaps.Text(ep, "forceTls") == "none")
  }

  ghost predicate ItemIsBytes(v: JsonMaps.Value) {
    match v
    case Str(s) => IsBytes(s)
    case List(items) => forall k :: 0 <= k < |items| ==> items[k].Str? ==> IsBytes(items[k].s)
    case _ => true
  }

  ghost predicate EntryIsBytes(ep: Entry) { forall k :: k in ep ==> ItemIsBytes(ep[k]) }

  lemma {:induction false} JoinIsBytes(parts: seq<string>, sep: string)
    requires IsBytes(sep) && forall k :: 0 <= k < |parts| ==> IsBytes(parts[k])
    ensures IsBytes(Join(parts, sep))
  {
    if |parts| > 1 { JoinIsBytes(parts[1..], sep); }
  }

  lemma {:induction false} TextsAreBytes(items: seq<JsonMaps.Value>)
    requires forall k :: 0 <= k < |items| ==> items[k].Str? ==> IsBytes(items[k].s)
    ensures forall k :: 0 <= k < |Texts(items)| ==> IsBytes(Texts(items)[k])
    ensures forall k :: 0 <= k < |Texts(JsonMaps.NonEmptyTexts(items))| ==>
              IsBytes(Texts(JsonMaps.NonEmptyTexts(items))[k])
  {
    if items != [] {
      TextsAreBytes(items[1..]);
      var rest := JsonMaps.NonEmptyTexts(items[1..]);
      if items[0].Str? && items[0].s != "" {
        assert ([items[0]] + rest)[1..] == rest;
      } else {
        assert JsonMaps.NonEmptyTexts(items) == rest;
      }
    }
  }

  lemma KeysAreBytes()
    ensures IsBytes("sni") && IsBytes("fp") && IsBytes("alpn") && IsBytes("pcs")
  {
  }

  lemma FieldsAreBytes(ep: Entry)
    requires EntryIsBytes(ep)
    ensures IsBytes(JsonMaps.Text(ep, "sni")) && IsBytes(JsonMaps.Text(ep, "fingerprint"))
    ensures ItemIsBytes(JsonMaps.Field(ep, "alpn")) && ItemIsBytes(JsonMaps.Field(ep, "pinnedPeerCertSha256"))
  {
  }

  lemma AlpnIsBytes(alpn: JsonMaps.Value)
    requires ItemIsBytes(alpn)
    ensures AlpnText(alpn).Some? ==> IsBytes(AlpnText(alpn).value)
  {
    if alpn.List? {
      TextsAreBytes(alpn.items);
      JoinIsBytes(Texts(JsonMaps.NonEmptyTexts(alpn.items)), ",");
    }
  }

  lemma PinsAreBytes(pins: JsonMaps.Value)
    requires ItemIsBytes(pins)
    ensures JsonMaps.Pins(pins).Some? ==> IsBytes(Join(Texts(JsonMaps.Pins(pins).value), ","))
  {
    if pins.List? {
      TextsAreBytes(pins.items);
      JoinIsBytes(Texts(JsonMaps.NonEmptyTexts(pins.items)), ",");
    }
  }

  lemma WithEntryIsBytes(params: Params, ep: Entry, security: string)
    requires ParamsAreBytes(params) && EntryIsBytes(ep)
    ensures ParamsAreBytes(WithEntry(params, ep, security))
  {
    hide AlpnText, JsonMaps.Pins, Join, Texts, IsBytes, ItemIsBytes;
    FieldsAreBytes(ep);
    AlpnIsBytes(JsonMaps.Field(ep, "alpn"));
    PinsAreBytes(JsonMaps.Field(ep, "pinnedPeerCertSha256"));
    KeysAreBytes();
  }

  /** What the link of one entry says: its base, its parameters in ascending order, its remark. */
  ghost predicate IsLinkOf(text: string, link: string, q: Params, remark: string) {
    exists keys :: IsListing(keys, q) && ParseLink(text) == Parsed(link, Pairs(keys, q, 0), Some(remark))
  }

  predicate HasPort(ep: Entry) { "port" in ep && ep["port"].Num? }

  function BaseOf(ep: Entry, makeLink: (string, int) -> string): string
    requires HasPort(ep)
  {
    makeLink(JsonMaps.Text(ep, "dest"), ep["port"].n)
  }

  /** The link is the base of the entry with the parameters that this entry alone makes of the
      shared ones, and its remark. */
  ghost predicate IsLinkFor(text: string, ep: Entry, params: Params, baseSecurity: string,
                            makeLink: (string, int) -> string, makeRemark: Entry -> string) {
    HasPort(ep) && IsPrinted(text, BaseOf(ep, makeLink), ParamsFor(params, ep, baseSecurity), makeRemark(ep))
  }

  ghost predicate AreLinks(links: seq<string>, n: nat, eps: seq<Entry>, params: Params, baseSecurity: string,
                           makeLink: (string, int) -> string, makeRemark: Entry -> string) {
    |links| == n <= |eps|
    && forall k :: 0 <= k < n ==> IsLinkFor(links[k], eps[k], params, baseSecurity, makeLink, makeRemark)
  }

  method OneLink(ep: Entry, params: Params, baseSecurity: string, link: string, remark: string) returns (text: string)
    requires ParamsAreBytes(params) && IsBytes(baseSecurity) && EntryIsBytes(ep) && IsBytes(remark)
    ensures IsPrinted(text, link, ParamsFor(params, ep, baseSecurity), remark)
  {
    hide WithEntry, Query, ParseLink, LinkText;
    var newSecurity := JsonMaps.Text(ep, "forceTls");
    var security := if newSecurity != "same" then newSecurity else baseSecurity;
    var nextParams := WithEntry(params, ep, security);
    WithEntryIsBytes(params, ep, security);
    text := AppendQueryAndFragment(link, nextParams, remark, security, newSecurity == "none");
  }

  /** `buildExternalProxyURLLinks`: the links of the entries, joined by line feeds, whatever the link
      maker prints. */
  method BuildExternalProxyLinks(eps: seq<Entry>, params: Params, baseSecurity: string,
                                 makeLink: (string, int) -> string, makeRemark: Entry -> string)
    returns (text: string)
    requires ParamsAreBytes(params) && IsBytes(baseSecurity)
    requires forall k :: 0 <= k < |eps| ==> EntryIsBytes(eps[k]) && IsBytes(makeRemark(eps[k]))
    requires forall k :: 0 <= k < |eps| ==> HasPort(eps[k])
    ensures exists links :: AreLinks(links, |eps|, eps, params, baseSecurity, makeLink, makeRemark)
              && text == Join(links, "\n")
  {
    hide IsPrinted, ParamsFor, EntryIsBytes, ParamsAreBytes, IsBytes, Join;
    var links: seq<string> := [];
    for i := 0 to |eps|
      invariant AreLinks(links, i, eps, params, baseSecurity, makeLink, makeRemark)
    {
      var ep := eps[i];
      assert HasPort(eps[i]);
      var link := OneLink(ep, params, baseSecurity, makeLink(JsonMaps.Text(ep, "dest"), ep["port"].n), makeRemark(ep));
      links := links + [link];
    }
    text := Join(links, "\n");
  }

  lemma {:induction false} CutLacks(s: string, c: char)
    ensures Lacks(Cut(s, c).0, c) && (forall d :: Lacks(s, d) ==> Lacks(Cut(s, c).0, d))
  {
    if s != "" && s[0] != c {
      CutLacks(s[1..], c);
      assert Cut(s, c).0 == [s[0]] + Cut(s[1..], c).0;
      assert forall d :: Lacks(s, d) ==> Lacks(s[1..], d);
    }
  }

  /** A printed text says its base, its parameters and its remark exactly if its base has no query
      and no fragment of its own. */
  lemma PrintedParsesExactly(text: string, link: string, q: Params, remark: string)
    requires IsPrinted(text, link, q, remark)
    ensures IsLinkOf(text, link, q, remark) <==> Lacks(link, '?') && Lacks(link, '#')
  {
    hide Query, LinkText;
    if Lacks(link, '?') && Lacks(link, '#') {
      hide ParseLink;
      var keys :| IsListing(keys, q) && text == LinkText(link, Query(keys, q, 0), remark);
      LinkRoundTrip(link, keys, q, remark);
    }
    CutLacks(text, '#');
    CutLacks(Cut(text, '#').0, '?');
  }

  /** The link of entry k parses back exactly if what the link maker prints for that entry has no
      query and no fragment; a destination with either character is enough to break it. */
  lemma LinkParsesExactly(links: seq<string>, eps: seq<Entry>, params: Params, baseSecurity: string,
                          makeLink: (string, int) -> string, makeRemark: Entry -> string, k: nat)
    requires AreLinks(links, |eps|, eps, params, baseSecurity, makeLink, makeRemark) && k < |eps|
    ensures HasPort(eps[k])
    ensures IsLinkOf(links[k], BaseOf(eps[k], makeLink), ParamsFor(params, eps[k], baseSecurity), makeRemark(eps[k]))
            <==> Lacks(BaseOf(eps[k], makeLink), '?') && Lacks(BaseOf(eps[k], makeLink), '#')
  {
    hide IsLinkOf, IsPrinted, ParamsFor;
    assert IsLinkFor(links[k], eps[k], params, baseSecurity, makeLink, makeRemark);
    PrintedParsesExactly(links[k], BaseOf(eps[k], makeLink), ParamsFor(params, eps[k], baseSecurity),
        makeRemark(eps[k]));
  }

  /** The schemes of the three callers. */
  const SCHEMES := {"vless", "trojan", "ss"}

  /** What they pass: user and destination are printed as they are. */
  function UserLink(scheme: string, user: string, dest: string, port: int): string {
    scheme + "://" + (user + "@" + (dest + ":" + DecimalInt(port)))
  }

  function LinkMaker(scheme: string, user: string): (string, int) -> string {
    (dest: string, port: int) => UserLink(scheme, user, dest, port)
  }

  lemma LacksConcat(a: string, b: string, c: char)
    ensures Lacks(a + b, c) <==> Lacks(a, c) && Lacks(b, c)
  {
    var s := a + b;
    assert forall k :: 0 <= k < |a| ==> s[k] == a[k];
    assert forall k :: 0 <= k < |b| ==> s[|a| + k] == b[k];
  }

  lemma UserAndDestinationDecide(scheme: string, user: string, dest: string, port: int, c: char)
    requires c in "?#" && scheme in SCHEMES
    ensures Lacks(UserLink(scheme, user, dest, port), c) <==> Lacks(user, c) && Lacks(dest, c)
  {
    var tail := ":" + DecimalInt(port);
    LacksConcat(scheme + "://", user + "@" + (dest + tail), c);
    LacksConcat(scheme, "://", c);
    LacksConcat(user + "@", dest + tail, c);
    LacksConcat(user, "@", c);
    LacksConcat(dest, tail, c);
    LacksConcat(":", DecimalInt(port), c);
    assert dest + ":" + DecimalInt(port) == dest + tail;
  }

  // ---------- the parameters of a link, key by key ----------

  lemma {:induction false} TextsMore(items: seq<JsonMaps.Value>, x: JsonMaps.Value)
    ensures Texts(items + [x]) == Texts(items) + if x.Str? then [x.s] else []
    ensures Texts([]) == []
  {
    if items == [] {
      assert [] + [x] == [x];
    } else {
      TextsMore(items[1..], x);
      assert (items + [x])[1..] == items[1..] + [x];
    }
  }

  lemma {:induction false} JoinMore(parts: seq<string>, p: string, sep: string)
    ensures Join(parts + [p], sep) == if parts == [] then p else Join(parts, sep) + sep + p
  {
    if |parts| > 1 {
      JoinMore(parts[1..], p, sep);
      assert (parts + [p])[1..] == parts[1..] + [p];
      assert parts[0] + sep + (Join(parts[1..], sep) + sep + p) == parts[0] + sep + Join(parts[1..], sep) + sep + p;
    } else if |parts| == 1 {
      assert (parts + [p])[1..] == [p];
    } else {
      assert parts + [p] == [p];
    }
  }

  /** The protocols of a link: a text as it is, or the nonempty texts of a list with commas between. */
  lemma AlpnTextMeans(v: JsonMaps.Value)
    ensures v.Str? ==> AlpnText(v) == if v.s == "" then None else Some(v.s)
    ensures v.List? ==>
              var texts := Texts(JsonMaps.NonEmptyTexts(v.items));
              AlpnText(v) == if texts == [] then None else Some(Join(texts, ","))
    ensures !v.Str? && !v.List? ==> AlpnText(v) == None
  {
  }

  /** What an entry's `forceTls` makes of the security of the inbound. */
  function ForceOf(ep: Entry): string { if "forceTls" in ep && ep["forceTls"].Str? then ep["forceTls"].s else "" }

  ghost predicate SameParam(p: Params, q: Params, key: string) {
    (key in p <==> key in q) && (key in p ==> p[key] == q[key])
  }

  ghost predicate FromText(params: Params, ep: Entry, from: string, q: Params, to: string) {
    if from in ep && ep[from].Str? && ep[from].s != "" then to in q && q[to] == ep[from].s else SameParam(params, q, to)
  }

  /** The parameters q of a link: under tls the hints are the entry's where it has them; under none they
      are gone; security is the override if it was there at all; everything else is the inbound's. */
  ghost predicate AreParamsOf(params: Params, ep: Entry, base: string, q: Params) {
    var security := if ForceOf(ep) == "same" then base else ForceOf(ep);
    var alpn := AlpnText(JsonMaps.Field(ep, "alpn"));
    var pins := JsonMaps.Pins(JsonMaps.Field(ep, "pinnedPeerCertSha256"));
    && (forall key :: key !in {"sni", "fp", "alpn", "pcs", "security"} ==> SameParam(params, q, key))
    && ("security" in q <==> "security" in params)
    && ("security" in q ==> q["security"] == if security == "" then params["security"] else security)
    && (if ForceOf(ep) == "none" then "sni" !in q && "fp" !in q && "alpn" !in q && "pcs" !in q
        else if security != "tls" then
          SameParam(params, q, "sni") && SameParam(params, q, "fp") && SameParam(params, q, "alpn")
              && SameParam(params, q, "pcs")
        else
          && FromText(params, ep, "sni", q, "sni") && FromText(params, ep, "fingerprint", q, "fp")
          && (if alpn.Some? then "alpn" in q && q["alpn"] == alpn.value else SameParam(params, q, "alpn"))
          && (if pins.Some? then "pcs" in q && q["pcs"] == Join(Texts(pins.value), ",")
              else SameParam(params, q, "pcs")))
  }

  lemma WithEntryMeans(params: Params, ep: Entry, security: string)
    ensures var q, alpn := WithEntry(params, ep, security), AlpnText(JsonMaps.Field(ep, "alpn"));
            var pins := JsonMaps.Pins(JsonMaps.Field(ep, "pinnedPeerCertSha256"));
            && (security != "tls" ==> q == params)
            && (forall key :: key !in {"sni", "fp", "alpn", "pcs"} ==> SameParam(params, q, key))
            && (security == "tls" ==>
                  && FromText(params, ep, "sni", q, "sni") && FromText(params, ep, "fingerprint", q, "fp")
                  && (if alpn.Some? then "alpn" in q && q["alpn"] == alpn.value else SameParam(params, q, "alpn"))
                  && (if pins.Some? then "pcs" in q && q["pcs"] == Join(Texts(pins.value), ",")
                      else SameParam(params, q, "pcs")))
  {
    hide AlpnText, JsonMaps.Pins, Join, Texts;
  }

  lemma ParamsForMeans(params: Params, ep: Entry, base: string)
    ensures AreParamsOf(params, ep, base, ParamsFor(params, ep, base))
  {
    hide AlpnText, JsonMaps.Pins, Join, Texts, WithEntry;
    var security := SecurityFor(ep, base);
    WithEntryMeans(params, ep, security);
    var w, q := WithEntry(params, ep, security), ParamsFor(params, ep, base);
    forall key | key !in {"sni", "fp", "alpn", "pcs", "security"} ensures SameParam(params, q, key) {
      assert SameParam(params, w, key);
    }
    assert SameParam(params, w, "security");
  }

  predicate IsPlain(s: string) { Lacks(s, '?') && Lacks(s, '#') }

  /** The callers' encodings never bring one of the two characters in: percent-encoding for Trojan
      passwords, unpadded URL-safe base64 for Shadowsocks. A VLESS id is printed as it is. */
  lemma EncodedUserIsPlain(password: string)
    requires IsBytes(password)
    ensures IsPlain(EncodeUserinfo(password))
  {
    UserinfoIsEscape(password);
    EscapeLacks(password, "%20", '?');
    EscapeLacks(password, "%20", '#');
  }

  const RAW_URL := CertificatePin.Encoding(true, false)

  lemma Base64CharIsPlain(v: nat)
    requires v < 64
    ensures Rfc4648.Base64Char(v, true) != '?' && Rfc4648.Base64Char(v, true) != '#'
  {
  }

  lemma Base64UserIsPlain(user: seq<nat>)
    ensures IsPlain(CertificatePin.Print(user, RAW_URL))
  {
    Rfc4648.EncodeFits(user, 6);
    assert JsNumber.Pow2(6) == 64;
    var symbols, text := Rfc4648.Encode(user, 6), CertificatePin.Print(user, RAW_URL);
    assert text == seq(|symbols|, k requires 0 <= k < |symbols| => Rfc4648.Base64Char(symbols[k], true)) + "";
    forall k | 0 <= k < |text| ensures text[k] != '?' && text[k] != '#' {
      Base64CharIsPlain(symbols[k]);
    }
  }

  /** What the link of entry k should say, with the link maker of a caller. */
  ghost predicate ParsesBack(text: string, ep: Entry, params: Params, baseSecurity: string, scheme: string,
                             user: string, makeRemark: Entry -> string)
    requires HasPort(ep)
  {
    var base := UserLink(scheme, user, JsonMaps.Text(ep, "dest"), ep["port"].n);
    IsLinkOf(text, base, ParamsFor(params, ep, baseSecurity), makeRemark(ep))
  }

  /** So for the real link makers: the link of entry k parses back to its base, its own parameters
      and its remark exactly if neither the user nor the destination has a `?` or a `#`. */
  lemma RealLinksParseExactly(links: seq<string>, eps: seq<Entry>, params: Params, baseSecurity: string,
                              scheme: string, user: string, makeRemark: Entry -> string, k: nat)
    requires AreLinks(links, |eps|, eps, params, baseSecurity, LinkMaker(scheme, user), makeRemark)
    requires k < |eps| && scheme in SCHEMES
    ensures HasPort(eps[k])
    ensures ParsesBack(links[k], eps[k], params, baseSecurity, scheme, user, makeRemark)
            <==> IsPlain(user) && IsPlain(JsonMaps.Text(eps[k], "dest"))
  {
    hide IsLinkOf, IsPrinted, ParamsFor, UserLink;
    LinkParsesExactly(links, eps, params, baseSecurity, LinkMaker(scheme, user), makeRemark, k);
    UserAndDestinationDecide(scheme, user, JsonMaps.Text(eps[k], "dest"), eps[k]["port"].n, '?');
    UserAndDestinationDecide(scheme, user, JsonMaps.Text(eps[k], "dest"), eps[k]["port"].n, '#');
  }

  /** For Trojan, whose password is encoded, the destination alone decides. */
  lemma TrojanLinksParseExactly(links: seq<string>, eps: seq<Entry>, params: Params, baseSecurity: string,
                                password: string, makeRemark: Entry -> string, k: nat)
    requires IsBytes(password) && k < |eps|
    requires AreLinks(links, |eps|, eps, params, baseSecurity, LinkMaker("trojan", EncodeUserinfo(password)),
               makeRemark)
    ensures HasPort(eps[k])
    ensures ParsesBack(links[k], eps[k], params, baseSecurity, "trojan", EncodeUserinfo(password), makeRemark)
            <==> IsPlain(JsonMaps.Text(eps[k], "dest"))
  {
    hide AreLinks, ParsesBack, EncodeUserinfo, IsPlain, LinkMaker;
    EncodedUserIsPlain(password);
    RealLinksParseExactly(links, eps, params, baseSecurity, "trojan", EncodeUserinfo(password), makeRemark, k);
  }

  /** So it does for Shadowsocks, whose method and password are in base64. */
  lemma ShadowsocksLinksParseExactly(links: seq<string>, eps: seq<Entry>, params: Params, baseSecurity: string,
                                     user: seq<nat>, makeRemark: Entry -> string, k: nat)
    requires k < |eps|
    requires var encoded := CertificatePin.Print(user, RAW_URL);
             AreLinks(links, |eps|, eps, params, baseSecurity, LinkMaker("ss", encoded), makeRemark)
    ensures HasPort(eps[k])
    ensures ParsesBack(links[k], eps[k], params, baseSecurity, "ss", CertificatePin.Print(user, RAW_URL), makeRemark)
            <==> IsPlain(JsonMaps.Text(eps[k], "dest"))
  {
    hide AreLinks, ParsesBack, CertificatePin.Print, IsPlain, LinkMaker;
    Base64UserIsPlain(user);
    var encoded := CertificatePin.Print(user, RAW_URL);
    RealLinksParseExactly(links, eps, params, baseSecurity, "ss", encoded, makeRemark, k);
  }

  /** At such a destination it does fail, whatever the parameters. */
  lemma OddDestination(text: string, q: Params, remark: string)
    requires IsPrinted(text, UserLink("vless", "id", "a?b", 443), q, remark)
    ensures !IsLinkOf(text, UserLink("vless", "id", "a?b", 443), q, remark)
  {
    hide IsLinkOf, IsPrinted, UserLink;
    assert !Lacks("a?b", '?') by { assert "a?b"[1] == '?'; }
    UserAndDestinationDecide("vless", "id", "a?b", 443, '?');
    PrintedParsesExactly(text, UserLink("vless", "id", "a?b", 443), q, remark);
  }

  /** And with such a VLESS id at an ordinary destination. */
  lemma OddUser(text: string, q: Params, remark: string)
    requires IsPrinted(text, UserLink("vless", "i?d", "host", 443), q, remark)
    ensures !IsLinkOf(text, UserLink("vless", "i?d", "host", 443), q, remark)
  {
    hide IsLinkOf, IsPrinted, UserLink;
    assert !Lacks("i?d", '?') by { assert "i?d"[1] == '?'; }
    UserAndDestinationDecide("vless", "i?d", "host", 443, '?');
    PrintedParsesExactly(text, UserLink("vless", "i?d", "host", 443), q, remark);
  }

  // ---------- the joined text ----------

  lemma {:induction false} SplitPiecesLack(s: string, c: char)
    ensures forall k :: 0 <= k < |JsonMaps.Split(s, c)| ==> Lacks(JsonMaps.Split(s, c)[k], c)
  {
    if s != "" { SplitPiecesLack(s[1..], c); }
  }

  lemma {:induction false} SplitFirst(a: string, rest: string, c: char)
    requires Lacks(a, c)
    ensures JsonMaps.Split(a + [c] + rest, c) == [a] + JsonMaps.Split(rest, c)
  {
    if a == "" {
      assert a + [c] + rest == [c] + rest && ([c] + rest)[1..] == rest;
    } else {
      SplitFirst(a[1..], rest, c);
      assert (a + [c] + rest)[1..] == a[1..] + [c] + rest;
      assert [a[0]] + a[1..] == a;
    }
  }

  lemma {:induction false} SplitWhole(a: string, c: char)
    requires Lacks(a, c)
    ensures JsonMaps.Split(a, c) == [a]
  {
    if a != "" {
      SplitWhole(a[1..], c);
      assert [a[0]] + a[1..] == a;
    }
  }

  lemma {:induction false} SplitOfPlainJoin(parts: seq<string>, c: char)
    requires parts != [] && forall k :: 0 <= k < |parts| ==> Lacks(parts[k], c)
    ensures JsonMaps.Split(Join(parts, [c]), c) == parts
  {
    hide JsonMaps.Split, Lacks;
    if |parts| == 1 {
      SplitWhole(parts[0], c);
    } else {
      var rest := parts[1..];
      SplitOfPlainJoin(rest, c);
      SplitFirst(parts[0], Join(rest, [c]), c);
      assert [parts[0]] + rest == parts;
    }
  }

  /** Splitting a joined text gives its parts back exactly if none of them holds the separator. */
  lemma {:induction false} SplitOfJoin(parts: seq<string>, c: char)
    requires parts != []
    ensures JsonMaps.Split(Join(parts, [c]), c) == parts <==> forall k :: 0 <= k < |parts| ==> Lacks(parts[k], c)
  {
    SplitPiecesLack(Join(parts, [c]), c);
    if forall k :: 0 <= k < |parts| ==> Lacks(parts[k], c) { SplitOfPlainJoin(parts, c); }
  }

  lemma {:induction false} QueryLacksBreak(keys: seq<string>, q: Params, i: nat)
    requires i <= |keys| && ParamsAreBytes(q) && forall k :: 0 <= k < |keys| ==> keys[k] in q
    ensures Lacks(Query(keys, q, i), '\n')
    decreases |keys| - i
  {
    if i < |keys| {
      QueryLacksBreak(keys, q, i + 1);
      EscapeLacks(keys[i], "+", '\n');
      EscapeLacks(q[keys[i]], "+", '\n');
    }
  }

  lemma MarksLackBreak()
    ensures Lacks("", '\n') && Lacks("&", '\n') && Lacks("?", '\n') && Lacks("#", '\n')
  {
  }

  lemma TailLacksBreak(link: string, encoded: string, remark: string)
    requires IsBytes(remark) && Lacks(encoded, '\n') && Lacks(EncodeUserinfo(remark), '\n')
    ensures Lacks(LinkText(link, encoded, remark), '\n') <==> Lacks(link, '\n')
  {
    hide EncodeUserinfo, Lacks;
    var mark := if '?' in link then "&" else "?";
    var query := if encoded == "" then "" else mark + encoded;
    var tail := if remark == "" then "" else "#" + EncodeUserinfo(remark);
    MarksLackBreak();
    LacksConcat(mark, encoded, '\n');
    LacksConcat("#", EncodeUserinfo(remark), '\n');
    LacksConcat(link, query, '\n');
    LacksConcat(link + query, tail, '\n');
  }

  /** A printed text has a line feed exactly if its base has one. */
  lemma PrintedBreaksExactly(text: string, link: string, q: Params, remark: string)
    requires IsPrinted(text, link, q, remark)
    ensures Lacks(text, '\n') <==> Lacks(link, '\n')
  {
    hide Query, EncodeUserinfo, Lacks;
    var keys :| IsListing(keys, q) && text == LinkText(link, Query(keys, q, 0), remark);
    QueryLacksBreak(keys, q, 0);
    UserinfoIsEscape(remark);
    EscapeLacks(remark, "%20", '\n');
    TailLacksBreak(link, Query(keys, q, 0), remark);
  }

  /** Cutting the joined text at its line feeds gives exactly the links if and only if no base has
      a line feed. */
  lemma LinesAreLinksExactly(links: seq<string>, eps: seq<Entry>, params: Params, baseSecurity: string,
                             makeLink: (string, int) -> string, makeRemark: Entry -> string)
    requires AreLinks(links, |eps|, eps, params, baseSecurity, makeLink, makeRemark) && eps != []
    ensures forall k :: 0 <= k < |eps| ==> HasPort(eps[k])
    ensures JsonMaps.Split(Join(links, "\n"), '\n') == links
            <==> forall k :: 0 <= k < |eps| ==> Lacks(BaseOf(eps[k], makeLink), '\n')
  {
    hide IsPrinted, ParamsFor, Lacks, Join;
    forall k | 0 <= k < |eps|
      ensures HasPort(eps[k]) && (Lacks(links[k], '\n') <==> Lacks(BaseOf(eps[k], makeLink), '\n'))
    {
      assert IsLinkFor(links[k], eps[k], params, baseSecurity, makeLink, makeRemark);
      PrintedBreaksExactly(links[k], BaseOf(eps[k], makeLink), ParamsFor(params, eps[k], baseSecurity),
          makeRemark(eps[k]));
    }
    SplitOfJoin(links, '\n');
  }

  /** A link reads scheme, user, destination and port in this order. */
  lemma LinkReads()
    ensures UserLink("vless", "id", "host", 443) == "vless://id@host:443"
  {
    assert Decimal(443) == "443" by { assert Decimal(44) == "44"; }
  }

  /** Section 2.3 of RFC 3986, character by character. */
  lemma UnreservedIsTable(c: char)
    ensures Unreserved(c) <==> c in UPPER || c in LOWER || c in DIGITS || c in "-_.~"
  {
    UpperRange(c);
    LowerRange(c);
    DigitRange(c);
  }

  /** A byte that is not unreserved is a percent sign and its two digits, the high one first. */
  lemma EscapedByte(c: char, space: string)
    requires c < 256 as char && !Unreserved(c) && c != ' '
    ensures var t := EscapeChar(c, space);
            |t| == 3 && t[0] == '%' && 16 * HexValue(t[1]) + HexValue(t[2]) == c as nat
  {
    HexPair(c as nat);
  }
}
