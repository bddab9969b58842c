/** One inbound fans out into one stream per external proxy: `cloneStreamForExternalProxy`,
    `applyExternalProxyTLSToStream` and the loops of the Clash and JSON subscriptions. */
module ExternalProxies {
  import opened JsonMaps
  import opened Options

  /** A stream up to the identity of the three maps the loop may write: the top-level map, its
      TLS settings and their nested settings. Every other map appears as the reference it is. */
  datatype View = View(top: map<string, Value>, tls: Option<map<string, Value>>, settings: Option<map<string, Value>>)

  function Child(m: map<string, Value>, key: string): Obj? {
    if key in m && m[key].Map? then m[key].obj else null
  }

  function Rest(m: map<string, Value>, key: string): map<string, Value> {
    if key in m && m[key].Map? then m - {key} else m
  }

  ghost function TlsOf(o: Obj): Obj? reads o { Child(o.m, "tlsSettings") }

  ghost function SettingsOf(tls: Obj?): Obj? reads tls { if tls == null then null else Child(tls.m, "settings") }

  ghost function TlsView(tls: Obj?): Option<map<string, Value>>
    reads tls
  {
    if tls == null then None else Some(Rest(tls.m, "settings"))
  }

  ghost function SettingsView(settings: Obj?): Option<map<string, Value>>
    reads settings
  {
    if settings == null then None else Some(settings.m)
  }

  ghost function ViewOf(o: Obj): View
    reads o, TlsOf(o), SettingsOf(TlsOf(o))
  {
    View(Rest(o.m, "tlsSettings"), TlsView(TlsOf(o)), SettingsView(SettingsOf(TlsOf(o))))
  }

  /** The maps that the loop may write when it works on o. */
  ghost function Own(o: Obj): set<object>
    reads o, TlsOf(o)
  {
    {o} + (if TlsOf(o) == null then {} else {TlsOf(o)})
    + (if SettingsOf(TlsOf(o)) == null then {} else {SettingsOf(TlsOf(o))})
  }

  /** They are different maps, so that writing one does not change another. */
  ghost predicate Separate(o: Obj)
    reads o, TlsOf(o)
  {
    var t := TlsOf(o);
    t != o && (t != null ==> SettingsOf(t) != t && SettingsOf(t) != o)
  }

  // ---------- what one entry asks for, on values ----------

  predicate SecurityIs(m: map<string, Value>, s: string) { "security" in m && m["security"] == Str(s) }

  /** The `switch extPrxy["forceTls"]`; Clash also drops the reality settings. */
  function Forced(v: View, force: string, clash: bool): View {
    if force == "tls" && !SecurityIs(v.top, "tls") then
      View(v.top["security" := Str("tls")] - {"tlsSettings"}, Some(map[]), None)
    else if force == "none" && !SecurityIs(v.top, "none") then
      var dropped := if clash then {"tlsSettings", "realitySettings"} else {"tlsSettings"};
      View(v.top["security" := Str("none")] - dropped, None, None)
    else v
  }

  function WithTls(v: View): (r: View)
    ensures r.tls.Some?
  {
    if v.tls.Some? then v else View(v.top - {"tlsSettings"}, Some(map[]), None)
  }

  function PutTls(v: View, key: string, x: Value): (r: View)
    requires v.tls.Some?
    ensures r.tls.Some?
  {
    v.(tls := Some(v.tls.value[key := x]))
  }

  function PutSetting(v: View, key: string, x: Value): (r: View)
    requires v.tls.Some?
    ensures r.tls.Some?
  {
    if v.settings.Some? then v.(settings := Some(v.settings.value[key := x]))
    else v.(tls := Some(v.tls.value - {"settings"}), settings := Some(map[key := x]))
  }

  /** Server name and fingerprint. */
  function Named(v: View, ep: map<string, Value>): (r: View)
    requires v.tls.Some?
    ensures r.tls.Some?
  {
    var v1 := if Text(ep, "sni") != "" then PutTls(v, "serverName", Str(Text(ep, "sni"))) else v;
    var fp := Text(ep, "fingerprint");
    if fp != "" then PutSetting(PutTls(v1, "fingerprint", Str(fp)), "fingerprint", Str(fp)) else v1
  }

  /** ALPN list and certificate pins. */
  function Listed(v: View, ep: map<string, Value>): (r: View)
    requires v.tls.Some?
    ensures r.tls.Some?
  {
    var alpn := AlpnList(Field(ep, "alpn"));
    var v1 := if alpn.Some? then PutTls(v, "alpn", List(alpn.value)) else v;
    var pins := Pins(Field(ep, "pinnedPeerCertSha256"));
    if pins.Some? then PutSetting(v1, "pinnedPeerCertSha256", List(pins.value)) else v1
  }

  /** `applyExternalProxyTLSToStream`. */
  function Overridden(v: View, ep: map<string, Value>, security: string): View {
    if security != "tls" then v else Listed(Named(WithTls(v), ep), ep)
  }

  /** The stream that one entry alone makes of the source stream. */
  function StreamFor(v: View, ep: map<string, Value>, overrides: bool, clash: bool): View {
    var f := Forced(v, Text(ep, "forceTls"), clash);
    if overrides then Overridden(f, ep, Text(f.top, "security")) else f
  }

  function DefaultEntry(dest: string, port: int): map<string, Value> {
    map["forceTls" := Str("same"), "dest" := Str(dest), "port" := Num(port), "remark" := Str("")]
  }

  /** The synthetic entry that stands for no external proxy leaves the stream as it is. */
  lemma DefaultKeepsStream(v: View, dest: string, port: int, clash: bool)
    ensures StreamFor(v, DefaultEntry(dest, port), false, clash) == v
  {
  }

  lemma RestOfUpdate(m: map<string, Value>, key: string, k: string, x: Value)
    requires k != key
    ensures Rest(m[k := x], key) == Rest(m, key)[k := x] && Child(m[k := x], key) == Child(m, key)
  {
    assert m[k := x] - {key} == (m - {key})[k := x];
  }

  lemma RestOfChild(m: map<string, Value>, key: string, o: Obj)
    ensures Rest(m[key := Map(o)], key) == m - {key} && Child(m[key := Map(o)], key) == o
    ensures Child(m, key) == null ==> m - {key} == Rest(m, key) - {key}
    ensures Child(m, key) != null ==> m - {key} == Rest(m, key)
  {
    assert m[key := Map(o)] - {key} == m - {key};
  }

  lemma SecurityOfView(o: Obj)
    ensures Text(o.m, "security") == Text(ViewOf(o).top, "security")
  {
  }

  // ---------- the same key by key ----------

  ghost predicate SameAt(a: map<string, Value>, b: map<string, Value>, key: string) {
    (key in a <==> key in b) && (key in a ==> a[key] == b[key])
  }

  ghost predicate Holds(m: map<string, Value>, key: string, x: Value) { key in m && m[key] == x }

  ghost predicate SameBut(a: map<string, Value>, b: map<string, Value>, keys: set<string>) {
    forall key: string :: key !in keys ==> SameAt(a, b, key)
  }

  /** Where the entry has a nonempty text, that is put at the key; otherwise nothing changes there. */
  ghost predicate TextOverrides(ep: map<string, Value>, from: string, a: map<string, Value>, b: map<string, Value>,
                                to: string) {
    if from in ep && ep[from].Str? && ep[from].s != "" then Holds(b, to, ep[from]) else SameAt(a, b, to)
  }

  ghost predicate ListOverrides(list: Option<seq<Value>>, a: map<string, Value>, b: map<string, Value>, to: string) {
    if list.Some? then Holds(b, to, List(list.value)) else SameAt(a, b, to)
  }

  /** `forceTls`: a security other than the wanted one is replaced and the TLS settings start empty or
      go; anything else leaves the stream alone. */
  ghost predicate IsForced(v: View, ep: map<string, Value>, clash: bool, f: View) {
    if Holds(ep, "forceTls", Str("tls")) && !Holds(v.top, "security", Str("tls")) then
      && Holds(f.top, "security", Str("tls")) && f.tls == Some(map[]) && f.settings == None
      && "tlsSettings" !in f.top && SameBut(v.top, f.top, {"security", "tlsSettings"})
    else if Holds(ep, "forceTls", Str("none")) && !Holds(v.top, "security", Str("none")) then
      && Holds(f.top, "security", Str("none")) && f.tls == None && f.settings == None && "tlsSettings" !in f.top
      && (if clash then "realitySettings" !in f.top else SameAt(v.top, f.top, "realitySettings"))
      && SameBut(v.top, f.top, {"security", "tlsSettings", "realitySettings"})
    else f == v
  }

  function OrEmpty(m: Option<map<string, Value>>): map<string, Value> { if m.Some? then m.value else map[] }

  /** The nested settings: fingerprint and pins, everything else as before. */
  ghost predicate AreOverriddenSettings(ep: map<string, Value>, f: View, r: View) {
    var fp := "fingerprint" in ep && ep["fingerprint"].Str? && ep["fingerprint"].s != "";
    var pins := Pins(Field(ep, "pinnedPeerCertSha256"));
    if !fp && pins.None? then r.settings == f.settings
    else
      && r.settings.Some?
      && TextOverrides(ep, "fingerprint", OrEmpty(f.settings), r.settings.value, "fingerprint")
      && ListOverrides(pins, OrEmpty(f.settings), r.settings.value, "pinnedPeerCertSha256")
      && SameBut(OrEmpty(f.settings), r.settings.value, {"fingerprint", "pinnedPeerCertSha256"})
  }

  /** The TLS settings: server name, fingerprint and ALPN, everything else as before. A nested
      `settings` that is no map gives way only to a new map. */
  ghost predicate AreOverriddenTls(ep: map<string, Value>, f: View, r: View) {
    && r.tls.Some?
    && TextOverrides(ep, "sni", OrEmpty(f.tls), r.tls.value, "serverName")
    && TextOverrides(ep, "fingerprint", OrEmpty(f.tls), r.tls.value, "fingerprint")
    && ListOverrides(AlpnList(Field(ep, "alpn")), OrEmpty(f.tls), r.tls.value, "alpn")
    && SameBut(OrEmpty(f.tls), r.tls.value, {"serverName", "fingerprint", "alpn", "settings"})
    && (if f.settings.None? && r.settings.Some? then "settings" !in r.tls.value
        else SameAt(OrEmpty(f.tls), r.tls.value, "settings"))
  }

  /** The override touches a stream exactly if its security is tls. */
  ghost predicate IsOverridden(f: View, ep: map<string, Value>, r: View) {
    if !Holds(f.top, "security", Str("tls")) then r == f
    else
      && (if f.tls.Some? then r.top == f.top else "tlsSettings" !in r.top && SameBut(f.top, r.top, {"tlsSettings"}))
      && AreOverriddenTls(ep, f, r) && AreOverriddenSettings(ep, f, r)
  }

  /** Views whose nested settings exist have a TLS map to be nested in. */
  ghost predicate IsNested(v: View) {
    (v.settings.Some? ==> v.tls.Some? && "settings" !in v.tls.value) && (v.tls.Some? ==> "tlsSettings" !in v.top)
  }

  lemma ViewIsNested(o: Obj)
    ensures IsNested(ViewOf(o))
  {
  }

  /** What an entry makes of a stream, key by key; f is the stream between the switch and the
      override. */
  ghost predicate IsEdited(v: View, ep: map<string, Value>, overrides: bool, clash: bool, r: View) {
    var f := Forced(v, Text(ep, "forceTls"), clash);
    IsForced(v, ep, clash, f) && if overrides then IsOverridden(f, ep, r) else r == f
  }

  lemma ForcedMeans(v: View, ep: map<string, Value>, clash: bool)
    requires IsNested(v)
    ensures IsForced(v, ep, clash, Forced(v, Text(ep, "forceTls"), clash))
    ensures IsNested(Forced(v, Text(ep, "forceTls"), clash))
  {
  }

  lemma NamedMeans(w: View, ep: map<string, Value>)
    requires w.tls.Some? && IsNested(w)
    ensures var r := Named(w, ep);
            && IsNested(r) && r.top == w.top
            && TextOverrides(ep, "sni", w.tls.value, r.tls.value, "serverName")
            && TextOverrides(ep, "fingerprint", w.tls.value, r.tls.value, "fingerprint")
            && SameBut(w.tls.value, r.tls.value, {"serverName", "fingerprint", "settings"})
    ensures var r := Named(w, ep);
            if "fingerprint" in ep && ep["fingerprint"].Str? && ep["fingerprint"].s != "" then
              && r.settings.Some? && "settings" !in r.tls.value
              && Holds(r.settings.value, "fingerprint", ep["fingerprint"])
              && SameBut(OrEmpty(w.settings), r.settings.value, {"fingerprint"})
            else r.settings == w.settings && SameAt(w.tls.value, r.tls.value, "settings")
  {
  }

  lemma ListedMeans(w: View, ep: map<string, Value>)
    requires w.tls.Some? && IsNested(w)
    ensures var r, pins := Listed(w, ep), Pins(Field(ep, "pinnedPeerCertSha256"));
            && r.top == w.top
            && ListOverrides(AlpnList(Field(ep, "alpn")), w.tls.value, r.tls.value, "alpn")
            && SameBut(w.tls.value, r.tls.value, {"alpn", "settings"})
            && (if pins.Some? then
                  && r.settings.Some? && "settings" !in r.tls.value
                  && Holds(r.settings.value, "pinnedPeerCertSha256", List(pins.value))
                  && SameBut(OrEmpty(w.settings), r.settings.value, {"pinnedPeerCertSha256"})
                else r.settings == w.settings && SameAt(w.tls.value, r.tls.value, "settings"))
  {
    hide AlpnList, Pins;
  }

  lemma SameButBoth(a: map<string, Value>, b: map<string, Value>, c: map<string, Value>, j: set<string>, k: set<string>)
    requires SameBut(a, b, j) && SameBut(b, c, k)
    ensures SameBut(a, c, j + k)
  {
    forall key: string | key !in j + k ensures SameAt(a, c, key) {
      assert SameAt(a, b, key) && SameAt(b, c, key);
    }
  }

  lemma SameAtKeys(a: map<string, Value>, b: map<string, Value>, k: set<string>, key: string)
    requires SameBut(a, b, k) && key !in k
    ensures SameAt(a, b, key)
  {
  }

  lemma SameToItself(a: map<string, Value>, keys: set<string>)
    ensures SameBut(a, a, keys)
  {
  }

  lemma SettingsMean(w: View, ep: map<string, Value>, n: View, r: View)
    requires var fp := "fingerprint" in ep && ep["fingerprint"].Str? && ep["fingerprint"].s != "";
             if fp then
               && n.settings.Some? && Holds(n.settings.value, "fingerprint", ep["fingerprint"])
               && SameBut(OrEmpty(w.settings), n.settings.value, {"fingerprint"})
             else n.settings == w.settings
    requires var pins := Pins(Field(ep, "pinnedPeerCertSha256"));
             if pins.Some? then
               && r.settings.Some? && Holds(r.settings.value, "pinnedPeerCertSha256", List(pins.value))
               && SameBut(OrEmpty(n.settings), r.settings.value, {"pinnedPeerCertSha256"})
             else r.settings == n.settings
    ensures AreOverriddenSettings(ep, w, r)
  {
    hide Pins, SameBut;
    var fp := "fingerprint" in ep && ep["fingerprint"].Str? && ep["fingerprint"].s != "";
    var pins := Pins(Field(ep, "pinnedPeerCertSha256"));
    var x, y, z := OrEmpty(w.settings), OrEmpty(n.settings), OrEmpty(r.settings);
    SameToItself(x, {"fingerprint"});
    SameToItself(y, {"pinnedPeerCertSha256"});
    SameButBoth(x, y, z, {"fingerprint"}, {"pinnedPeerCertSha256"});
    assert {"fingerprint"} + {"pinnedPeerCertSha256"} == {"fingerprint", "pinnedPeerCertSha256"};
    SameAtKeys(y, z, {"pinnedPeerCertSha256"}, "fingerprint");
    SameAtKeys(x, y, {"fingerprint"}, "pinnedPeerCertSha256");
  }

  /** The two steps of the override together, on TLS settings that exist. */
  lemma BothMean(w: View, ep: map<string, Value>)
    requires w.tls.Some? && IsNested(w)
    ensures var r := Listed(Named(w, ep), ep);
            r.top == w.top && AreOverriddenTls(ep, w, r) && AreOverriddenSettings(ep, w, r)
  {
    hide AlpnList, Pins, Named, Listed, SameBut;
    var n := Named(w, ep);
    var r := Listed(n, ep);
    NamedMeans(w, ep);
    ListedMeans(n, ep);
    var x, y, z := w.tls.value, n.tls.value, r.tls.value;
    SameButBoth(x, y, z, {"serverName", "fingerprint", "settings"}, {"alpn", "settings"});
    assert {"serverName", "fingerprint", "settings"} + {"alpn", "settings"}
        == {"serverName", "fingerprint", "alpn", "settings"};
    SameAtKeys(y, z, {"alpn", "settings"}, "serverName");
    SameAtKeys(y, z, {"alpn", "settings"}, "fingerprint");
    SameAtKeys(x, y, {"serverName", "fingerprint", "settings"}, "alpn");
    SettingsMean(w, ep, n, r);
  }

  /** TLS settings that are missing count as empty ones. */
  lemma SameOverrides(f: View, w: View, ep: map<string, Value>, r: View)
    requires OrEmpty(f.tls) == OrEmpty(w.tls) && f.settings == w.settings
    ensures AreOverriddenTls(ep, w, r) ==> AreOverriddenTls(ep, f, r)
    ensures AreOverriddenSettings(ep, w, r) ==> AreOverriddenSettings(ep, f, r)
  {
  }

  lemma OverriddenMeans(f: View, ep: map<string, Value>)
    requires IsNested(f)
    ensures IsOverridden(f, ep, Overridden(f, ep, Text(f.top, "security")))
  {
    hide AlpnList, Pins, Named, Listed, AreOverriddenTls, AreOverriddenSettings;
    if Holds(f.top, "security", Str("tls")) {
      BothMean(WithTls(f), ep);
      SameOverrides(f, WithTls(f), ep, Overridden(f, ep, "tls"));
    }
  }

  /** The stream an entry gets is the edited one, key by key. */
  lemma StreamForMeans(v: View, ep: map<string, Value>, overrides: bool, clash: bool)
    requires IsNested(v)
    ensures IsEdited(v, ep, overrides, clash, StreamFor(v, ep, overrides, clash))
  {
    hide Forced, Overridden, IsForced, IsOverridden;
    ForcedMeans(v, ep, clash);
    OverriddenMeans(Forced(v, Text(ep, "forceTls"), clash), ep);
  }

  // ---------- the same in place ----------

  /** `cloneStreamForExternalProxy`. */
  method CloneStream(stream: Obj) returns (out: Obj)
    ensures fresh(Own(out)) && Separate(out)
    ensures ViewOf(out) == ViewOf(stream)
  {
    out := new Obj(stream.m);
    if "tlsSettings" in out.m && out.m["tlsSettings"].Map? {
      var ts := out.m["tlsSettings"].obj;
      var clonedTs := new Obj(ts.m);
      if "settings" in clonedTs.m && clonedTs.m["settings"].Map? {
        var inner := new Obj(clonedTs.m["settings"].obj.m);
        clonedTs.Set("settings", Map(inner));
        RestOfChild(ts.m, "settings", inner);
      }
      out.Set("tlsSettings", Map(clonedTs));
      RestOfChild(stream.m, "tlsSettings", clonedTs);
    }
  }

  method ForceTls(stream: Obj)
    requires Separate(stream) && !SecurityIs(stream.m, "tls")
    modifies Own(stream)
    ensures Separate(stream) && fresh(Own(stream) - old(Own(stream)))
    ensures ViewOf(stream) == Forced(old(ViewOf(stream)), "tls", false)
  {
    stream.Set("security", Str("tls"));
    var empty := new Obj(map[]);
    stream.Set("tlsSettings", Map(empty));
  }

  method ForceNone(stream: Obj, clash: bool)
    requires Separate(stream) && !SecurityIs(stream.m, "none")
    modifies Own(stream)
    ensures Separate(stream) && fresh(Own(stream) - old(Own(stream)))
    ensures ViewOf(stream) == Forced(old(ViewOf(stream)), "none", clash)
  {
    stream.Set("security", Str("none"));
    stream.Delete("tlsSettings");
    if clash { stream.Delete("realitySettings"); }
  }

  method Force(stream: Obj, force: string, clash: bool)
    requires Separate(stream)
    modifies Own(stream)
    ensures Separate(stream) && fresh(Own(stream) - old(Own(stream)))
    ensures ViewOf(stream) == Forced(old(ViewOf(stream)), force, clash)
  {
    if force == "tls" {
      if !SecurityIs(stream.m, "tls") { ForceTls(stream); }
    } else if force == "none" {
      if !SecurityIs(stream.m, "none") { ForceNone(stream, clash); }
    }
  }

  method EnsureTls(stream: Obj) returns (tls: Obj)
    requires Separate(stream)
    modifies Own(stream)
    ensures Separate(stream) && fresh(Own(stream) - old(Own(stream)))
    ensures TlsOf(stream) == tls && ViewOf(stream) == WithTls(old(ViewOf(stream)))
  {
    if "tlsSettings" in stream.m && stream.m["tlsSettings"].Map? {
      tls := stream.m["tlsSettings"].obj;
    } else {
      tls := new Obj(map[]);
      stream.Set("tlsSettings", Map(tls));
    }
  }

  /** `tlsSettings[key] = x` for a key other than `settings`. */
  method PutInTls(ghost stream: Obj, tls: Obj, key: string, x: Value)
    requires Separate(stream) && TlsOf(stream) == tls && key != "settings"
    modifies tls
    ensures Separate(stream) && TlsOf(stream) == tls && Own(stream) == old(Own(stream))
    ensures ViewOf(stream) == PutTls(old(ViewOf(stream)), key, x)
  {
    RestOfUpdate(tls.m, "settings", key, x);
    tls.Set(key, x);
  }

  /** `settings[key] = x`, with a new settings map if there was none. */
  method PutInSettings(ghost stream: Obj, tls: Obj, key: string, x: Value)
    requires Separate(stream) && TlsOf(stream) == tls
    modifies Own(stream)
    ensures Separate(stream) && TlsOf(stream) == tls && fresh(Own(stream) - old(Own(stream)))
    ensures ViewOf(stream) == PutSetting(old(ViewOf(stream)), key, x)
  {
    var settings: Obj;
    if "settings" in tls.m && tls.m["settings"].Map? {
      settings := tls.m["settings"].obj;
    } else {
      settings := new Obj(map[]);
      RestOfChild(tls.m, "settings", settings);
      tls.Set("settings", Map(settings));
    }
    settings.Set(key, x);
  }

  method ApplyNames(ep: map<string, Value>, ghost stream: Obj, tls: Obj)
    requires Separate(stream) && TlsOf(stream) == tls
    modifies Own(stream)
    ensures Separate(stream) && TlsOf(stream) == tls && fresh(Own(stream) - old(Own(stream)))
    ensures ViewOf(stream) == Named(old(ViewOf(stream)), ep)
  {
    hide ViewOf, PutTls, PutSetting;
    if Text(ep, "sni") != "" {
      PutInTls(stream, tls, "serverName", Str(Text(ep, "sni")));
    }
    var fp := Text(ep, "fingerprint");
    if fp != "" {
      PutInTls(stream, tls, "fingerprint", Str(fp));
      PutInSettings(stream, tls, "fingerprint", Str(fp));
    }
  }

  method ApplyLists(ep: map<string, Value>, ghost stream: Obj, tls: Obj)
    requires Separate(stream) && TlsOf(stream) == tls
    modifies Own(stream)
    ensures Separate(stream) && fresh(Own(stream) - old(Own(stream)))
    ensures ViewOf(stream) == Listed(old(ViewOf(stream)), ep)
  {
    hide ViewOf, PutTls, PutSetting, AlpnList, Pins;
    var alpn := AlpnList(Field(ep, "alpn"));
    if alpn.Some? {
      PutInTls(stream, tls, "alpn", List(alpn.value));
    }
    var pins := Pins(Field(ep, "pinnedPeerCertSha256"));
    if pins.Some? {
      PutInSettings(stream, tls, "pinnedPeerCertSha256", List(pins.value));
    }
  }

  /** `applyExternalProxyTLSToStream`. */
  method ApplyToStream(ep: map<string, Value>, stream: Obj, security: string)
    requires Separate(stream)
    modifies Own(stream)
    ensures Separate(stream) && fresh(Own(stream) - old(Own(stream)))
    ensures ViewOf(stream) == Overridden(old(ViewOf(stream)), ep, security)
  {
    hide ViewOf, WithTls, Named, Listed;
    if security != "tls" { return; }
    var tls := EnsureTls(stream);
    ApplyNames(ep, stream, tls);
    ApplyLists(ep, stream, tls);
  }

  /** The edits of one iteration, on the clone. */
  method EditClone(out: Obj, ep: map<string, Value>, overrides: bool, clash: bool)
    requires Separate(out)
    modifies Own(out)
    ensures Separate(out) && fresh(Own(out) - old(Own(out)))
    ensures ViewOf(out) == StreamFor(old(ViewOf(out)), ep, overrides, clash)
  {
    hide Overridden, Forced;
    Force(out, Text(ep, "forceTls"), clash);
    SecurityOfView(out);
    if overrides {
      ApplyToStream(ep, out, Text(out.m, "security"));
    }
  }

  /** The stream part of one iteration of either loop. It changes no map that existed before. */
  method ProcessEntry(stream: Obj, ep: Obj, overrides: bool, clash: bool) returns (out: Obj)
    ensures fresh(Own(out)) && Separate(out)
    ensures ViewOf(out) == StreamFor(old(ViewOf(stream)), old(ep.m), overrides, clash)
    ensures IsEdited(old(ViewOf(stream)), old(ep.m), overrides, clash, ViewOf(out))
  {
    hide StreamFor, IsEdited;
    ViewIsNested(stream);
    StreamForMeans(ViewOf(stream), ep.m, overrides, clash);
    out := CloneStream(stream);
    EditClone(out, ep.m, overrides, clash);
  }

  // ---------- the two loops ----------

  class Inbound {
    var listen: string
    var port: int

    constructor (listen: string, port: int)
      ensures this.listen == listen && this.port == port
    {
      this.listen := listen;
      this.port := port;
    }
  }

  /** What is marshalled or built for one entry. */
  datatype Config = Config(listen: string, port: int, remark: string, stream: View)

  /** The keys `genHy` writes into the stream of a hysteria inbound, if it is one. */
  datatype Hysteria = NotHysteria | Hysteria(settings: Value, finalmask: Option<Value>)

  function WithHysteria(v: View, hy: Hysteria): View {
    if hy.NotHysteria? then v
    else
      var t := v.top["hysteriaSettings" := hy.settings];
      var t1 := if hy.finalmask.Some? then t["finalmask" := hy.finalmask.value] else t;
      v.(top := t1["network" := Str("hysteria")]["security" := Str("tls")])
  }

  /** The entries the source accepts; it panics on any other. */
  ghost predicate WellFormed(ep: map<string, Value>) {
    && "forceTls" in ep && ep["forceTls"].Str? && "dest" in ep && ep["dest"].Str?
    && "remark" in ep && ep["remark"].Str? && "port" in ep && ep["port"].Num?
  }

  function ConfigFor(base: View, ep: map<string, Value>, overrides: bool, clash: bool, hy: Hysteria): Config
    requires WellFormed(ep)
  {
    Config(ep["dest"].s, ep["port"].n, ep["remark"].s, WithHysteria(StreamFor(base, ep, overrides, clash), hy))
  }

  /** The keys a hysteria configuration adds, and the other ones kept. */
  ghost predicate IsFinished(v: View, hy: Hysteria, r: View) {
    if hy.NotHysteria? then r == v
    else
      && r.tls == v.tls && r.settings == v.settings
      && Holds(r.top, "hysteriaSettings", hy.settings) && Holds(r.top, "network", Str("hysteria"))
      && Holds(r.top, "security", Str("tls"))
      && (if hy.finalmask.Some? then Holds(r.top, "finalmask", hy.finalmask.value)
          else SameAt(v.top, r.top, "finalmask"))
      && SameBut(v.top, r.top, {"hysteriaSettings", "network", "security", "finalmask"})
  }

  /** The configuration of an entry, key by key: its own destination, port and remark, and the source
      stream edited by it alone. */
  ghost predicate IsConfig(base: View, ep: map<string, Value>, overrides: bool, clash: bool, hy: Hysteria,
                           config: Config) {
    && Holds(ep, "dest", Str(config.listen)) && Holds(ep, "port", Num(config.port))
        && Holds(ep, "remark", Str(config.remark))
    && var r := StreamFor(base, ep, overrides, clash);
       IsEdited(base, ep, overrides, clash, r) && IsFinished(r, hy, config.stream)
  }

  lemma ConfigForMeans(base: View, ep: map<string, Value>, overrides: bool, clash: bool, hy: Hysteria)
    requires WellFormed(ep) && IsNested(base)
    ensures IsConfig(base, ep, overrides, clash, hy, ConfigFor(base, ep, overrides, clash, hy))
  {
    hide StreamFor, IsEdited;
    StreamForMeans(base, ep, overrides, clash);
    assert IsFinished(StreamFor(base, ep, overrides, clash), hy,
        WithHysteria(StreamFor(base, ep, overrides, clash), hy));
  }

  /** Without external proxies the one configuration is the inbound's own. */
  lemma DefaultConfig(base: View, dest: string, port: int, clash: bool, hy: Hysteria)
    ensures var config := ConfigFor(base, DefaultEntry(dest, port), false, clash, hy);
            config.listen == dest && config.port == port && config.remark == "" && IsFinished(base, hy, config.stream)
  {
    DefaultKeepsStream(base, dest, port, clash);
  }

  method TopKey(out: Obj, key: string, x: Value)
    requires Separate(out) && key != "tlsSettings"
    modifies out
    ensures Separate(out) && Own(out) == old(Own(out))
    ensures ViewOf(out) == old(ViewOf(out)).(top := old(ViewOf(out)).top[key := x])
  {
    RestOfUpdate(out.m, "tlsSettings", key, x);
    out.Set(key, x);
  }

  /** The end of a JSON iteration: `genHy` writes top-level keys of the clone. */
  method FinishHysteria(out: Obj, hy: Hysteria)
    requires Separate(out)
    modifies out
    ensures Separate(out) && Own(out) == old(Own(out))
    ensures ViewOf(out) == WithHysteria(old(ViewOf(out)), hy)
  {
    if hy.NotHysteria? { return; }
    TopKey(out, "hysteriaSettings", hy.settings);
    if hy.finalmask.Some? { TopKey(out, "finalmask", hy.finalmask.value); }
    TopKey(out, "network", Str("hysteria"));
    TopKey(out, "security", Str("tls"));
  }

  /** The external proxies of a stream, or the one synthetic entry that stands for none. */
  method Entries(stream: Obj, defaultDest: string, inbound: Inbound) returns (eps: seq<Obj>, given: bool)
    requires "externalProxy" in stream.m && stream.m["externalProxy"].List? ==>
               forall k :: 0 <= k < |stream.m["externalProxy"].items| ==> stream.m["externalProxy"].items[k].Map?
    ensures given == ("externalProxy" in stream.m && stream.m["externalProxy"].List?
              && stream.m["externalProxy"].items != [])
    ensures given ==> |eps| == |stream.m["externalProxy"].items|
                      && forall k :: 0 <= k < |eps| ==> Map(eps[k]) == stream.m["externalProxy"].items[k]
    ensures !given ==> |eps| == 1 && fresh(eps[0]) && eps[0].m == DefaultEntry(defaultDest, inbound.port)
  {
    given := "externalProxy" in stream.m && stream.m["externalProxy"].List? && stream.m["externalProxy"].items != [];
    if given {
      var items := stream.m["externalProxy"].items;
      eps := seq(|items|, k requires 0 <= k < |items| && items[k].Map? => items[k].obj);
    } else {
      var entry := new Obj(DefaultEntry(defaultDest, inbound.port));
      eps := [entry];
    }
  }

  ghost predicate At(inbound: Inbound, ep: map<string, Value>)
    reads inbound
  {
    WellFormed(ep) && inbound.listen == ep["dest"].s && inbound.port == ep["port"].n
  }

  /** The inbound an iteration works with: a copy for Clash, the shared one, moved along, for JSON. */
  method WorkingInbound(inbound: Inbound, ep: Obj, clash: bool) returns (working: Inbound)
    requires WellFormed(ep.m)
    modifies if clash then {} else {inbound}
    ensures At(working, ep.m) && (if clash then fresh(working) else working == inbound)
  {
    working := inbound;
    if clash { working := new Inbound(inbound.listen, inbound.port); }
    working.listen := ep.m["dest"].s;
    working.port := ep.m["port"].n;
  }

  /** Printing a stream reads the three maps. */
  method Marshal(o: Obj) returns (v: View)
    ensures v == ViewOf(o)
  {
    var tls := Child(o.m, "tlsSettings");
    if tls == null { return View(Rest(o.m, "tlsSettings"), None, None); }
    var settings := Child(tls.m, "settings");
    v := View(Rest(o.m, "tlsSettings"), Some(Rest(tls.m, "settings")),
              if settings == null then None else Some(settings.m));
  }

  /** One iteration. It writes nothing but fresh maps, so it cannot reach the source stream, another
      entry or a stream built earlier; listen and port are read back from the inbound at its end. */
  method OneEntry(stream: Obj, ep: Obj, working: Inbound, overrides: bool, clash: bool, hy: Hysteria)
    returns (config: Config, out: Obj)
    requires WellFormed(ep.m) && At(working, ep.m)
    ensures fresh(Own(out)) && config == ConfigFor(old(ViewOf(stream)), old(ep.m), overrides, clash, hy)
    ensures ViewOf(out) == config.stream
  {
    hide StreamFor, WithHysteria, ViewOf;
    out := ProcessEntry(stream, ep, overrides, clash);
    FinishHysteria(out, hy);
    var view := Marshal(out);
    config := Config(working.listen, working.port, ep.m["remark"].s, view);
  }

  /** The body of the loop: the inbound moves along, then the entry is processed. */
  method NextEntry(stream: Obj, ep: Obj, inbound: Inbound, overrides: bool, clash: bool, hy: Hysteria)
    returns (config: Config)
    requires WellFormed(ep.m)
    modifies if clash then {} else {inbound}
    ensures config == ConfigFor(old(ViewOf(stream)), old(ep.m), overrides, clash, hy)
    ensures !clash ==> At(inbound, old(ep.m))
  {
    hide ConfigFor;
    var working := WorkingInbound(inbound, ep, clash);
    var out;
    config, out := OneEntry(stream, ep, working, overrides, clash, hy);
  }

  /** The loop of `getConfig` (JSON) and, with `clash`, of `getProxies`: entry k gets exactly what
      it would get alone from the source stream as it was before the loop, and no map that existed
      before is written. Only the JSON loop moves the shared inbound along. */
  method ForEachEntry(stream: Obj, eps: seq<Obj>, inbound: Inbound, overrides: bool, clash: bool, hy: Hysteria)
    returns (configs: seq<Config>)
    requires forall k :: 0 <= k < |eps| ==> WellFormed(eps[k].m)
    requires clash ==> hy.NotHysteria?
    modifies if clash then {} else {inbound}
    ensures |configs| == |eps|
    ensures forall k :: 0 <= k < |eps| ==>
              configs[k] == ConfigFor(old(ViewOf(stream)), old(eps[k].m), overrides, clash, hy)
    ensures forall k :: 0 <= k < |eps| ==>
              IsConfig(old(ViewOf(stream)), old(eps[k].m), overrides, clash, hy, configs[k])
    ensures !clash && eps != [] ==> At(inbound, old(eps[|eps| - 1].m))
  {
    hide ConfigFor, WellFormed, IsConfig;
    configs := [];
    ghost var base := ViewOf(stream);
    ViewIsNested(stream);
    for i := 0 to |eps|
      invariant |configs| == i
      invariant ViewOf(stream) == base && forall k :: 0 <= k < |eps| ==> eps[k].m == old(eps[k].m)
      invariant forall k :: 0 <= k < i ==> configs[k] == ConfigFor(base, old(eps[k].m), overrides, clash, hy)
      invariant !clash && i > 0 ==> At(inbound, eps[i - 1].m)
    {
      var config := NextEntry(stream, eps[i], inbound, overrides, clash, hy);
      configs := configs + [config];
    }
    forall k | 0 <= k < |eps| ensures IsConfig(base, old(eps[k].m), overrides, clash, hy, configs[k]) {
      ConfigForMeans(base, old(eps[k].m), overrides, clash, hy);
    }
  }

  ghost predicate IsEntry(item: Value, stream: Obj)
    reads if item.Map? then {item.obj} else {}
  {
    item.Map? && item.obj != stream && WellFormed(item.obj.m)
  }

  lemma WithoutKey(m: map<string, Value>)
    ensures Rest(m - {"externalProxy"}, "tlsSettings") == Rest(m, "tlsSettings") - {"externalProxy"}
    ensures Child(m - {"externalProxy"}, "tlsSettings") == Child(m, "tlsSettings")
  {
    assert m - {"externalProxy"} - {"tlsSettings"} == m - {"tlsSettings"} - {"externalProxy"};
  }

  /** `getProxies` and `getConfig` from the stream on: the only map that existed before and
      changes is the stream itself, and it only loses its list of external proxies. */
  method FanOut(stream: Obj, defaultDest: string, inbound: Inbound, clash: bool, hy: Hysteria)
    returns (configs: seq<Config>, ghost eps: seq<Obj>, ghost given: bool)
    requires "externalProxy" in stream.m && stream.m["externalProxy"].List? ==>
               (forall k :: 0 <= k < |stream.m["externalProxy"].items| ==>
                   IsEntry(stream.m["externalProxy"].items[k], stream))
    requires Separate(stream) && (clash ==> hy.NotHysteria?)
    modifies stream, if clash then {} else {inbound}
    ensures given == old("externalProxy" in stream.m && stream.m["externalProxy"].List?
              && stream.m["externalProxy"].items != [])
    ensures given ==> |eps| == |old(stream.m["externalProxy"].items)|
                      && forall k :: 0 <= k < |eps| ==> Map(eps[k]) == old(stream.m["externalProxy"].items)[k]
    ensures !given ==> |eps| == 1 && eps[0].m == DefaultEntry(defaultDest, old(inbound.port))
    ensures stream.m == old(stream.m) - {"externalProxy"}
    ensures |configs| == |eps|
    ensures forall k :: 0 <= k < |eps| ==> WellFormed(eps[k].m)
    ensures forall k :: 0 <= k < |eps| ==>
              configs[k] == ConfigFor(old(ViewOf(stream)).(top := old(ViewOf(stream)).top - {"externalProxy"}),
                  eps[k].m, given, clash, hy)
    ensures forall k :: 0 <= k < |eps| ==>
              IsConfig(old(ViewOf(stream)).(top := old(ViewOf(stream)).top - {"externalProxy"}), eps[k].m, given, clash,
                  hy, configs[k])
  {
    hide StreamFor, WithHysteria, IsConfig;
    var list, some := Entries(stream, defaultDest, inbound);
    eps, given := list, some;
    WithoutKey(stream.m);
    stream.Delete("externalProxy");
    configs := ForEachEntry(stream, list, inbound, some, clash, hy);
  }
}
