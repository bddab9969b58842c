/** `hysteriaPinHex`: the many spellings of a certificate pin collapse to lower-case hex. */
module CertificatePin {
  import opened GoStrings
  import opened JsNumber
  import opened Options
  import opened Rfc4648

  // ---------- hexadecimal ----------

  function HexDigit(v: nat): char
    requires v < 16
  {
    if v < 10 then (48 + v) as char else (97 + v - 10) as char
  }

  predicate IsHexChar(c: char) { '0' <= c <= '9' || 'a' <= c <= 'f' || 'A' <= c <= 'F' }

  predicate IsHex(s: string) { |s| % 2 == 0 && forall k :: 0 <= k < |s| ==> IsHexChar(s[k]) }

  /** hex.EncodeToString. */
  function Hex(bytes: seq<nat>): (s: string)
    requires Fits(bytes, 8)
    ensures |s| == 2 * |bytes|
    ensures forall k :: 0 <= k < |s| ==> '0' <= s[k] <= '9' || 'a' <= s[k] <= 'f'
  {
    assert Pow2(8) == 256;
    seq(2 * |bytes|, k requires 0 <= k < 2 * |bytes| =>
      HexDigit(if k % 2 == 0 then bytes[k / 2] / 16 else bytes[k / 2] % 16))
  }

  /** The value of a hexadecimal digit in either letter case. */
  function HexValue(c: char): int {
    if '0' <= c <= '9' then c as int - '0' as int
    else if 'a' <= c <= 'f' then c as int - 'a' as int + 10
    else if 'A' <= c <= 'F' then c as int - 'A' as int + 10
    else -1
  }

  /** The text spells the bytes: two digits each, the high one first. */
  ghost predicate Spells(s: string, bytes: seq<nat>) {
    |s| == 2 * |bytes|
    && forall k :: 0 <= k < |bytes| ==>
         0 <= HexValue(s[2 * k]) && 0 <= HexValue(s[2 * k + 1])
             && 16 * HexValue(s[2 * k]) + HexValue(s[2 * k + 1]) == bytes[k]
  }

  lemma DigitValue(v: nat)
    requires v < 16
    ensures HexValue(HexDigit(v)) == v
  {
  }

  lemma HexSpells(bytes: seq<nat>)
    requires Fits(bytes, 8)
    ensures Spells(Hex(bytes), bytes)
  {
    assert Pow2(8) == 256;
    forall k | 0 <= k < |bytes|
      ensures HexValue(Hex(bytes)[2 * k]) == bytes[k] / 16 && HexValue(Hex(bytes)[2 * k + 1]) == bytes[k] % 16
    {
      DigitValue(bytes[k] / 16);
      DigitValue(bytes[k] % 16);
    }
  }

  lemma SamePairs(h: string, x: string, n: nat)
    requires |h| == |x| == 2 * n
    requires forall k :: 0 <= k < n ==> LowerChar(h[2 * k]) == x[2 * k] && LowerChar(h[2 * k + 1]) == x[2 * k + 1]
    ensures ToLower(h) == x
  {
    hide LowerChar;
    forall i | 0 <= i < |h| ensures LowerChar(h[i]) == x[i] {
      var k := i / 2;
      assert i == 2 * k || i == 2 * k + 1;
    }
  }

  lemma SameDigits(a: char, b: char, x: char, y: char)
    requires HexValue(a) >= 0 && HexValue(b) >= 0 && HexValue(x) >= 0 && HexValue(y) >= 0
    requires 16 * HexValue(a) + HexValue(b) == 16 * HexValue(x) + HexValue(y)
    requires LowerChar(x) == x && LowerChar(y) == y
    ensures LowerChar(a) == x && LowerChar(b) == y
  {
  }

  /** Only one lower-case text spells given bytes, and lowering the letters of any spelling gives it. */
  lemma SpellingIsHex(h: string, bytes: seq<nat>)
    requires Fits(bytes, 8) && Spells(h, bytes)
    ensures ToLower(h) == Hex(bytes)
  {
    HexSpells(bytes);
    var x := Hex(bytes);
    assert forall i :: 0 <= i < |x| ==> LowerChar(x[i]) == x[i];
    forall k | 0 <= k < |bytes| ensures LowerChar(h[2 * k]) == x[2 * k] && LowerChar(h[2 * k + 1]) == x[2 * k + 1] {
      hide Hex, HexValue, LowerChar;
      SameDigits(h[2 * k], h[2 * k + 1], x[2 * k], x[2 * k + 1]);
    }
    SamePairs(h, x, |bytes|);
  }

  // ---------- the four base64 encodings of Go ----------

  datatype Encoding = Encoding(url: bool, padded: bool)

  /** Encoding.EncodeToString. */
  function Print(bytes: seq<nat>, e: Encoding): string
  {
    EncodeFits(bytes, 6);
    assert Pow2(6) == 64;
    var symbols := Encode(bytes, 6);
    seq(|symbols|, k requires 0 <= k < |symbols| => Base64Char(symbols[k], e.url))
    + if e.padded then seq(3 - (|symbols| + 3) % 4, _ => '=') else ""
  }

  function Body(s: string, padded: bool): Option<string> {
    if !padded then (if |s| % 4 == 1 then None else Some(s))
    else if |s| % 4 != 0 then None
    else if |s| >= 2 && s[|s| - 1] == '=' && s[|s| - 2] == '=' then Some(s[..|s| - 2])
    else if |s| >= 1 && s[|s| - 1] == '=' then Some(s[..|s| - 1])
    else Some(s)
  }

  /** Encoding.DecodeString: line breaks are skipped, bits that do not fill a byte are dropped. */
  function Parse(s: string, e: Encoding): Option<seq<nat>> {
    var body := Body(Without(Without(s, '\r'), '\n'), e.padded);
    if body == None || exists k :: 0 <= k < |body.value| && Base64Value(body.value[k], e.url) == None then None
    else Some(Decode(seq(|body.value|, k requires 0 <= k < |body.value| => Base64Value(body.value[k], e.url).value), 6))
  }

  const ENCODINGS := [Encoding(false, true), Encoding(false, false), Encoding(true, true), Encoding(true, false)]

  /** The first of the encodings from i on that reads s as 32 bytes. */
  function FirstDigest(s: string, i: nat): Option<seq<nat>>
    requires i <= 4
    decreases 4 - i
  {
    if i == 4 then None
    else
      var b := Parse(s, ENCODINGS[i]);
      if b.Some? && |b.value| == 32 then b else FirstDigest(s, i + 1)
  }

  lemma {:induction false} WordFits(symbols: seq<nat>, k: nat)
    requires k < |Decode(symbols, 6)|
    ensures Decode(symbols, 6)[k] < Pow2(8)
  {
    WordRange(Stream(symbols, 6), k * 8, 8);
  }

  lemma ParseFits(s: string, e: Encoding)
    ensures Parse(s, e).Some? ==> Fits(Parse(s, e).value, 8)
  {
    if Parse(s, e).Some? {
      var body := Body(Without(Without(s, '\r'), '\n'), e.padded).value;
      var symbols := seq(|body|, k requires 0 <= k < |body| => Base64Value(body[k], e.url).value);
      forall k | 0 <= k < |Parse(s, e).value| ensures Parse(s, e).value[k] < Pow2(8) {
        WordFits(symbols, k);
      }
    }
  }

  lemma {:induction false} FirstDigestFits(s: string, i: nat)
    requires i <= 4
    ensures FirstDigest(s, i).Some? ==> |FirstDigest(s, i).value| == 32 && Fits(FirstDigest(s, i).value, 8)
    decreases 4 - i
  {
    if i < 4 {
      ParseFits(s, ENCODINGS[i]);
      FirstDigestFits(s, i + 1);
    }
  }

  /** `hysteriaPinHex`. */
  function PinHex(pin: string): string {
    var p := TrimSpace(pin);
    var h := Without(p, ':');
    if |h| == 64 && IsHex(h) then ToLower(h)
    else
      var b := FirstDigest(p, 0);
      FirstDigestFits(p, 0);
      if b.Some? then Hex(b.value) else p
  }

  // ---------- one digest, one form ----------

  /** The form openssl prints: a colon after every two characters but the last. */
  function Fingerprint(h: string): (s: string)
    ensures h != "" ==> s != "" && s[0] == h[0] && s[|s| - 1] == h[|h| - 1]
  {
    if |h| <= 2 then h else h[..2] + ":" + Fingerprint(h[2..])
  }

  lemma WithoutPrefix(x: char, s: string, c: char)
    requires x != c
    ensures Without([x] + s, c) == [x] + Without(s, c)
  {
    assert ([x] + s)[1..] == s;
  }

  lemma WithoutColon(s: string)
    ensures Without(":" + s, ':') == Without(s, ':')
  {
    assert (":" + s)[1..] == s;
  }

  lemma {:induction false} FingerprintWithoutColons(h: string)
    requires forall k :: 0 <= k < |h| ==> h[k] != ':'
    ensures Without(Fingerprint(h), ':') == h
  {
    hide Without;
    if |h| > 2 {
      FingerprintWithoutColons(h[2..]);
      var rest := Fingerprint(h[2..]);
      WithoutPrefix(h[0], [h[1]] + (":" + rest), ':');
      WithoutPrefix(h[1], ":" + rest, ':');
      assert Fingerprint(h) == [h[0]] + ([h[1]] + (":" + rest));
      WithoutColon(rest);
      assert [h[0]] + ([h[1]] + h[2..]) == h;
    }
  }

  lemma CaseOfHex(x: char, y: char)
    requires LowerChar(x) == y && ('0' <= y <= '9' || 'a' <= y <= 'f')
    ensures IsHexChar(x) && x != ':' && !IsSpace(x)
  {
  }

  /** Hex in either letter case, bare or as a fingerprint, becomes the lower-case hex. */
  lemma PinOfHex(digest: seq<nat>, h: string)
    requires Fits(digest, 8) && |digest| == 32 && ToLower(h) == Hex(digest)
    ensures PinHex(h) == Hex(digest) && PinHex(Fingerprint(h)) == Hex(digest)
  {
    hide Hex, FirstDigest, Without, TrimSpace, Fingerprint;
    assert |h| == |ToLower(h)| == 64;
    forall k | 0 <= k < 64 ensures IsHexChar(h[k]) && h[k] != ':' && !IsSpace(h[k]) {
      CaseOfHex(h[k], Hex(digest)[k]);
    }
    FingerprintWithoutColons(h);
    TrimNothing(h);
    TrimNothing(Fingerprint(h));
  }

  function Values(body: string, url: bool): (values: seq<nat>)
    requires forall k :: 0 <= k < |body| ==> Base64Value(body[k], url).Some?
  {
    seq(|body|, k requires 0 <= k < |body| => Base64Value(body[k], url).value)
  }

  lemma PrintedBody(digest: seq<nat>, e: Encoding, f: Encoding) returns (body: string)
    requires Fits(digest, 8) && |digest| == 32
    ensures |body| == 43 == |Encode(digest, 6)| && Print(digest, e) == body + (if e.padded then "=" else "")
    ensures forall k :: 0 <= k < |Print(digest, e)| ==> Print(digest, e)[k] != '\r' && Print(digest, e)[k] != '\n'
    ensures forall k :: 0 <= k < 43 ==> body[k] != '=' && Base64Value(body[k], e.url) == Some(Encode(digest, 6)[k])
    ensures forall k :: 0 <= k < 43 ==>
              Base64Value(body[k], f.url) == None || Base64Value(body[k], f.url) == Some(Encode(digest, 6)[k])
  {
    EncodeFits(digest, 6);
    assert Pow2(6) == 64;
    CountFits(32, 6);
    var symbols := Encode(digest, 6);
    body := seq(43, k requires 0 <= k < 43 => Base64Char(symbols[k], e.url));
    forall k | 0 <= k < 43
      ensures Base64Value(body[k], f.url) == None || Base64Value(body[k], f.url) == Some(symbols[k])
      ensures Base64Value(body[k], e.url) == Some(symbols[k])
    {
      Base64ValueOfChar(symbols[k], e.url, f.url);
    }
  }

  lemma NoBreaks(text: string)
    requires forall k :: 0 <= k < |text| ==> text[k] != '\r' && text[k] != '\n'
    ensures Without(Without(text, '\r'), '\n') == text
  {
  }

  lemma PadIsNoSymbol(url: bool)
    ensures Base64Value('=', url) == None
  {
  }

  /** A 43-symbol text, padded or not, has only one possible body. */
  lemma BodyOfText(text: string, body: string, e: Encoding, f: Encoding)
    requires |body| == 43 && text == body + (if e.padded then "=" else "")
    requires forall k :: 0 <= k < 43 ==> body[k] != '='
    ensures e.padded == f.padded ==> Body(text, f.padded) == Some(body)
    ensures e.padded && !f.padded ==> Body(text, f.padded) == Some(text) && Base64Value(text[43], f.url) == None
    ensures !e.padded && f.padded ==> Body(text, f.padded) == None
  {
    assert |text| == if e.padded then 44 else 43;
    PadIsNoSymbol(f.url);
    assert body + "" == body;
    if e.padded {
      assert text[43] == '=' && text[42] == body[42] && text[..43] == body;
    }
  }

  /** Whichever encoding accepts a printed digest reads the digest back. */
  lemma ParseOfPrint(digest: seq<nat>, e: Encoding, f: Encoding)
    requires Fits(digest, 8) && |digest| == 32
    ensures Parse(Print(digest, e), f).Some? ==> Parse(Print(digest, e), f).value == digest
    ensures Parse(Print(digest, e), e).Some?
  {
    hide Decode, Encode, Print;
    var body := PrintedBody(digest, e, f);
    var text := Print(digest, e);
    NoBreaks(text);
    RoundTrip(digest, 6);
    BodyOfText(text, body, e, e);
    BodyOfText(text, body, e, f);
    assert Values(body, e.url) == Encode(digest, 6);
    if Parse(text, f).Some? {
      assert Values(body, f.url) == Encode(digest, 6);
    }
  }

  lemma {:induction false} FirstDigestOfPrint(digest: seq<nat>, e: Encoding, i: nat)
    requires Fits(digest, 8) && |digest| == 32 && i <= 4
    requires exists j :: i <= j < 4 && ENCODINGS[j] == e
    ensures FirstDigest(Print(digest, e), i) == Some(digest)
    decreases 4 - i
  {
    if i < 4 {
      ParseOfPrint(digest, e, ENCODINGS[i]);
      if Parse(Print(digest, e), ENCODINGS[i]) == None {
        assert exists j :: i + 1 <= j < 4 && ENCODINGS[j] == e;
        FirstDigestOfPrint(digest, e, i + 1);
      }
    }
  }

  lemma TextShape(digest: seq<nat>, e: Encoding)
    requires Fits(digest, 8) && |digest| == 32
    ensures 43 <= |Print(digest, e)| <= 44
    ensures forall k :: 0 <= k < |Print(digest, e)| ==> !IsSpace(Print(digest, e)[k]) && Print(digest, e)[k] != ':'
  {
    CountFits(32, 6);
  }

  /** All four base64 spellings of a digest become its lower-case hex. */
  lemma PinOfBase64(digest: seq<nat>, e: Encoding)
    requires Fits(digest, 8) && |digest| == 32
    ensures PinHex(Print(digest, e)) == Hex(digest)
  {
    var text := Print(digest, e);
    EncodeFits(digest, 6);
    assert Pow2(6) == 64;
    CountFits(32, 6);
    TextShape(digest, e);
    assert ENCODINGS[(if e.url then 2 else 0) + (if e.padded then 0 else 1)] == e;
    FirstDigestOfPrint(digest, e, 0);
    TrimNothing(text);
  }

  lemma LowerHex(h: string)
    requires IsHex(h)
    ensures forall k :: 0 <= k < |h| ==> '0' <= ToLower(h)[k] <= '9' || 'a' <= ToLower(h)[k] <= 'f'
  {
  }

  predicate IsLowerHex(s: string) { |s| == 64 && forall k :: 0 <= k < 64 ==> '0' <= s[k] <= '9' || 'a' <= s[k] <= 'f' }

  lemma AlreadyHex(s: string)
    requires IsLowerHex(s)
    ensures PinHex(s) == s
  {
    hide FirstDigest;
    TrimNothing(s);
    assert Without(s, ':') == s;
    assert ToLower(s) == s;
  }

  /** Normalising twice changes nothing, whatever the string. */
  lemma PinIdempotent(pin: string)
    ensures PinHex(PinHex(pin)) == PinHex(pin)
  {
    hide FirstDigest;
    var p := TrimSpace(pin);
    var h := Without(p, ':');
    FirstDigestFits(p, 0);
    if |h| == 64 && IsHex(h) {
      LowerHex(h);
      AlreadyHex(ToLower(h));
    } else if FirstDigest(p, 0).Some? {
      AlreadyHex(Hex(FirstDigest(p, 0).value));
    } else {
      TrimIdempotent(pin);
    }
  }

  /** Hex of 32 bytes, or base64 of 32 bytes in one of the four encodings. */
  predicate Recognised(pin: string) {
    var h := Without(TrimSpace(pin), ':');
    (|h| == 64 && IsHex(h)) || FirstDigest(TrimSpace(pin), 0).Some?
  }

  predicate HasOuterBlank(pin: string) { pin != "" && (IsSpace(pin[0]) || IsSpace(pin[|pin| - 1])) }

  lemma HexIsLower(h: string)
    requires |h| == 64 && IsHex(h)
    ensures IsLowerHex(ToLower(h))
  {
    LowerHex(h);
  }

  lemma DigestIsLower(digest: seq<nat>)
    requires Fits(digest, 8) && |digest| == 32
    ensures IsLowerHex(Hex(digest))
  {
  }

  lemma LowerIsRecognised(p: string)
    ensures IsLowerHex(p) ==> |Without(p, ':')| == 64 && IsHex(Without(p, ':'))
  {
    assert IsLowerHex(p) ==> Without(p, ':') == p;
  }

  /** The result is the lower-case hex of 32 bytes exactly for what is recognised; anything else
      comes back trimmed. */
  lemma PinShape(pin: string)
    ensures Recognised(pin) <==> IsLowerHex(PinHex(pin))
    ensures !Recognised(pin) ==> PinHex(pin) == TrimSpace(pin)
  {
    hide FirstDigest, TrimSpace, Without, ToLower, IsHex, IsLowerHex, Hex;
    var p := TrimSpace(pin);
    FirstDigestFits(p, 0);
    if |Without(p, ':')| == 64 && IsHex(Without(p, ':')) {
      HexIsLower(Without(p, ':'));
    } else if FirstDigest(p, 0).Some? {
      DigestIsLower(FirstDigest(p, 0).value);
    } else {
      LowerIsRecognised(p);
    }
  }

  /** What is not recognised comes back unchanged exactly if no blank surrounds it. */
  lemma UnrecognisedUnchanged(pin: string)
    requires !Recognised(pin)
    ensures PinHex(pin) == pin <==> !HasOuterBlank(pin)
  {
    PinShape(pin);
    if !HasOuterBlank(pin) { TrimNothing(pin); }
  }

  /** Over all strings: the lower-case hex pins and the unrecognised strings without a surrounding
      blank are the ones that stay as they are. */
  lemma UnchangedExactly(pin: string)
    ensures PinHex(pin) == pin <==> IsLowerHex(pin) || (!Recognised(pin) && !HasOuterBlank(pin))
  {
    hide PinHex;
    PinShape(pin);
    if IsLowerHex(pin) { AlreadyHex(pin); }
    if !Recognised(pin) { UnrecognisedUnchanged(pin); }
  }

  lemma ShortParse(s: string, e: Encoding)
    requires |s| < 43
    ensures Parse(s, e).Some? ==> |Parse(s, e).value| < 32
  {
    var t := Without(Without(s, '\r'), '\n');
    assert |t| < 43;
    var body := Body(t, e.padded);
    assert body.Some? ==> |body.value| < 43;
  }

  /** Nothing shorter than 43 characters decodes to 32 bytes. */
  lemma {:induction false} ShortIsNoDigest(s: string, i: nat)
    requires i <= 4 && |s| < 43
    ensures FirstDigest(s, i) == None
    decreases 4 - i
  {
    if i < 4 {
      ShortParse(s, ENCODINGS[i]);
      ShortIsNoDigest(s, i + 1);
    }
  }

  /** Such a blank is lost, although the string is not recognised. */
  lemma BlankIsLost()
    ensures !Recognised(" x") && PinHex(" x") == "x"
  {
    hide PinHex;
    assert TrimLeft(" x") == "x" by { assert " x"[1..] == "x"; }
    assert TrimSpace(" x") == "x";
    assert Without("x", ':') == "x";
    ShortIsNoDigest("x", 0);
    PinShape(" x");
  }

  /** However a digest is spelled in hex, bare or as a fingerprint, in either letter case, the result
      spells the digest. */
  lemma PinOfHexSpells(digest: seq<nat>, h: string)
    requires Fits(digest, 8) && |digest| == 32 && Spells(h, digest)
    ensures Spells(PinHex(h), digest) && Spells(PinHex(Fingerprint(h)), digest)
    ensures IsLowerHex(PinHex(h)) && PinHex(Fingerprint(h)) == PinHex(h)
  {
    hide PinHex, Fingerprint, Spells, Hex;
    SpellingIsHex(h, digest);
    PinOfHex(digest, h);
    HexSpells(digest);
    DigestIsLower(digest);
  }

  /** However it is spelled in base64, the result spells the digest. */
  lemma PinOfBase64Spells(digest: seq<nat>, e: Encoding)
    requires Fits(digest, 8) && |digest| == 32
    ensures Spells(PinHex(Print(digest, e)), digest) && IsLowerHex(PinHex(Print(digest, e)))
  {
    hide PinHex, Print, Spells, Hex;
    PinOfBase64(digest, e);
    HexSpells(digest);
    DigestIsLower(digest);
  }

  lemma AfterThree(a: char, b: char, rest: string)
    ensures var s := [a, b] + ":" + rest;
            && |s| == 3 + |rest| && s[0] == a && s[1] == b && s[2] == ':'
            && forall i :: 3 <= i < 3 + |rest| ==> s[i] == rest[i - 3]
  {
  }

  lemma FingerprintUnfold(h: string)
    requires |h| > 2
    ensures Fingerprint(h) == [h[0], h[1]] + ":" + Fingerprint(h[2..])
  {
    assert h[..2] == [h[0], h[1]];
  }

  /** A fingerprint of m pairs is the hex with a colon after every pair but the last. */
  lemma {:induction false} FingerprintShape(h: string, m: nat, k: nat)
    requires |h| == 2 * m && k < m
    ensures |Fingerprint(h)| == 3 * m - 1
    ensures Fingerprint(h)[3 * k] == h[2 * k] && Fingerprint(h)[3 * k + 1] == h[2 * k + 1]
    ensures k + 1 < m ==> Fingerprint(h)[3 * k + 2] == ':'
  {
    if m > 1 {
      var tail := h[2..];
      FingerprintShape(tail, m - 1, if k == 0 then 0 else k - 1);
      FingerprintUnfold(h);
      hide Fingerprint;
      AfterThree(h[0], h[1], Fingerprint(tail));
    }
  }
}
