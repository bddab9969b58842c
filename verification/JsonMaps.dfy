/** JSON objects as Go maps: reference cells that can be shared and changed in place. */
module JsonMaps {
  import opened GoStrings
  import opened Options

  datatype Value = Null | Bool(b: bool) | Num(n: int) | Str(s: string) | List(items: seq<Value>) | Map(obj: Obj)

  class Obj {
    var m: map<string, Value>

    constructor (m: map<string, Value>)
      ensures this.m == m
    {
      this.m := m;
    }

    method Set(key: string, v: Value)
      modifies this
      ensures m == old(m)[key := v]
    {
      m := m[key := v];
    }

    method Delete(key: string)
      modifies this
      ensures m == old(m) - {key}
    {
      m := m - {key};
    }
  }

  /** `m[key].(string)` with the zero value when the assertion fails. */
  function Text(m: map<string, Value>, key: string): string {
    if key in m && m[key].Str? then m[key].s else ""
  }

  function Field(m: map<string, Value>, key: string): Value {
    if key in m then m[key] else Null
  }

  /** strings.Split for one character. */
  function Split(s: string, c: char): (parts: seq<string>)
    ensures |parts| >= 1
  {
    if s == "" then [""]
    else
      var rest := Split(s[1..], c);
      if s[0] == c then [""] + rest else [[s[0]] + rest[0]] + rest[1..]
  }

  function NonEmptyTexts(items: seq<Value>): seq<Value> {
    if items == [] then []
    else (if items[0].Str? && items[0].s != "" then [items[0]] else []) + NonEmptyTexts(items[1..])
  }

  function TrimmedTexts(parts: seq<string>): seq<Value> {
    if parts == [] then []
    else (if TrimSpace(parts[0]) != "" then [Str(TrimSpace(parts[0]))] else []) + TrimmedTexts(parts[1..])
  }

  function SomeUnlessEmpty(items: seq<Value>): Option<seq<Value>> {
    if items == [] then None else Some(items)
  }

  /** `externalProxyALPNList`. */
  function AlpnList(v: Value): Option<seq<Value>> {
    match v
    case Str(s) => if s == "" then None else SomeUnlessEmpty(TrimmedTexts(Split(s, ',')))
    case List(items) => SomeUnlessEmpty(NonEmptyTexts(items))
    case _ => None
  }

  /** `externalProxyPins`. */
  function Pins(v: Value): Option<seq<Value>> {
    match v
    case List(items) => SomeUnlessEmpty(NonEmptyTexts(items))
    case _ => None
  }

  // ---------- what the lists hold ----------

  /** Nonempty texts are kept in order and nothing else is. */
  lemma {:induction false} NonEmptyTextsMore(items: seq<Value>, x: Value)
    ensures NonEmptyTexts(items + [x]) == NonEmptyTexts(items) + if x.Str? && x.s != "" then [x] else []
    ensures NonEmptyTexts([]) == []
  {
    if items == [] {
      assert [] + [x] == [x];
    } else {
      NonEmptyTextsMore(items[1..], x);
      assert (items + [x])[1..] == items[1..] + [x];
    }
  }

  lemma {:induction false} TrimmedTextsMore(parts: seq<string>, p: string)
    ensures TrimmedTexts(parts + [p]) == TrimmedTexts(parts) + if TrimSpace(p) != "" then [Str(TrimSpace(p))] else []
    ensures TrimmedTexts([]) == []
  {
    hide TrimSpace;
    if parts == [] {
      assert [] + [p] == [p];
    } else {
      TrimmedTextsMore(parts[1..], p);
      assert (parts + [p])[1..] == parts[1..] + [p];
    }
  }

  lemma {:induction false} SplitWithout(s: string, c: char)
    requires Lacks(s, c)
    ensures Split(s, c) == [s]
  {
    if s != "" {
      SplitWithout(s[1..], c);
      assert [s[0]] + s[1..] == s;
    }
  }

  /** What follows the last separator is the last part. */
  lemma {:induction false} SplitMore(a: string, b: string, c: char)
    requires Lacks(b, c)
    ensures Split(a + [c] + b, c) == Split(a, c) + [b]
  {
    if a == "" {
      SplitWithout(b, c);
      assert a + [c] + b == [c] + b && ([c] + b)[1..] == b;
    } else {
      SplitMore(a[1..], b, c);
      assert (a + [c] + b)[1..] == a[1..] + [c] + b;
    }
  }

  /** The protocols of a text: what stands between commas, trimmed, blanks left out, in order. */
  ghost predicate AreProtocols(s: string, protocols: seq<Value>) { protocols == TrimmedTexts(Split(s, ',')) }

  lemma ProtocolsMore(s: string, p: string, protocols: seq<Value>)
    requires Lacks(p, ',') && AreProtocols(s, protocols)
    ensures AreProtocols(s + "," + p, protocols + if TrimSpace(p) != "" then [Str(TrimSpace(p))] else [])
  {
    SplitMore(s, p, ',');
    TrimmedTextsMore(Split(s, ','), p);
  }

  lemma ProtocolsOfOne(p: string)
    requires Lacks(p, ',')
    ensures AreProtocols(p, if TrimSpace(p) != "" then [Str(TrimSpace(p))] else [])
  {
    SplitWithout(p, ',');
    TrimmedTextsMore([], p);
    assert [] + [p] == [p];
  }

  lemma ProtocolsOfEmpty()
    ensures AreProtocols("", [])
  {
    ProtocolsOfOne("");
  }

  /** The list an entry asks for: the protocols of a text or the nonempty texts of a list, if any. */
  lemma AlpnListMeans(v: Value)
    ensures v.Str? ==> exists protocols :: AreProtocols(v.s, protocols)
                         && AlpnList(v) == if protocols == [] then None else Some(protocols)
    ensures v.List? ==> AlpnList(v) == Pins(v)
                        && Pins(v) == if NonEmptyTexts(v.items) == [] then None else Some(NonEmptyTexts(v.items))
    ensures !v.Str? && !v.List? ==> AlpnList(v) == None
    ensures !v.List? ==> Pins(v) == None
  {
    if v.Str? {
      ProtocolsOfEmpty();
      assert AreProtocols(v.s, TrimmedTexts(Split(v.s, ',')));
    }
  }
}
