# Verified model of the panel's core

This project models the parts of the L-UI panel that compute rather than move data: key
generation and encoders of the frontend, subscription output of the hub, the small pruned state
machines that guard logins, node requests, online clients and IP limits, and the pollers and
schedulers around them. Each module follows one component of the repository. Code that changes
fields, arrays or maps in place is a class or a method with frames, proved against a function on
values; what the code is for is then proved of that function, as a lemma, a round trip, or an
invariant of every run.

## Modules

- `JsNumber`, `Field`, `Limbs`, `Carry`, `Multiply`, `Elements`, `Rfc7748`, `MontgomeryStep`,
  `LadderStep`, `Invert`, `Fermat`, `Pack`, `Scalar`, `PublicKey`: X25519 by hand on sixteen doubles.
  Every double operation goes through a function whose precondition is exactness below 2^53, and
  every `|`, `^`, `&`, `>>` is ToInt32 and bit-by-bit. The reference is the pseudocode of section 5
  of RFC 7748.
- `Rfc4648`, `Base64`, `Base32`: the arithmetic base64 encoder and the streaming base32 encoder.
- `Ascii`, `GoStrings`, `CertificatePin`, `JsonMaps`, `ExternalProxies`, `ProxyNames`, `SortedKeys`,
  `ShareLinks`: subscription output. JSON maps are heap objects, so aliasing is what is proved about.
- `NodeAuth`, `ReplayCache`, `LoginLimiter`, `OnlineTracker`, `IpLimit`: time-windowed state, each
  against a specification over the whole history.
- `TrafficDeltas`, `Doubles`, `Reconnect`, `TestLanes`: counters and schedulers, as steps over all runs.
- `Options`, `Sequences`: the optional value and the set of a sequence that several modules use.

## What the proofs found

- The skew test multiplies seconds into an int64 duration. For an age of 9223372037 s the product is
  negative and the test passes (`NodeAuth.SkewOverflows`); `NodeAuth.SkewIsWindowExactly` and
  `ReplayCache.AtMostOnceExactly` give the exact bounds.
- The doc comment of `hysteriaPinHex` says unrecognised input is returned unchanged; the code returns
  it without surrounding blanks, so it is unchanged exactly if it has none
  (`CertificatePin.UnrecognisedUnchanged`, `CertificatePin.BlankIsLost`).
- An inbound and an outbound that share a tag overwrite each other's bytes in a traffic report
  (`TrafficDeltas.SharedTagHides`); a poll reports every tag in full exactly if such pairs count the
  same (`TrafficDeltas.AllShownExactly`).
- A remote node with id 0 would hide the local group (`OnlineTracker.GroupsMatchList`,
  `OnlineTracker.HiddenGroup`).
- If a stored IP list has an IP twice, the merge may keep the older time (`IpLimit.MergeOfDuplicates`);
  it never does exactly if the last entry of each IP is its newest (`IpLimit.MergeIsNewestExactly`),
  and one enforced scan that stores leaves only such lists (`IpLimit.RunStores`).
- Links print the destination of an entry, and VLESS links the client's id, as they are. A link parses
  back exactly if neither has a `?` or a `#` (`ShareLinks.RealLinksParseExactly`,
  `ShareLinks.OddDestination`, `ShareLinks.OddUser`); for Trojan and Shadowsocks, which encode the user
  part, the destination alone decides.
- The joined links can be told apart exactly if no base has a line feed (`ShareLinks.LinesAreLinksExactly`).
- `connect()` called while the old socket is closing leaves `isConnected` set although the new socket
  is still connecting, because the old close event is then ignored (`Reconnect.StaleHappens`,
  `Reconnect.StaleExactly`).
- A message above the size limit is meant to close the connection with code 1009. Browsers accept only
  1000 and 3000 to 4999 and throw, the exception is swallowed, and the connection stays open
  (`Reconnect.OversizedClosesNothing`, `Reconnect.StaysLiveExactly`).
- The jitter factor is meant to stay below 1.25. In doubles it rounds up to 1.25 for random numbers
  from 1 - 2^-52 on (`Reconnect.JitterBelowExactly`).
- The loop over external proxies needs no tree shape of the stream: the clone keeps its three maps apart
  (`ExternalProxies.ForEachEntry`). Only the deletion of `externalProxy` before it needs the three maps of
  the source stream to be different objects (`ExternalProxies.FanOut`).

## Model

| member | source | states |
|---|---|---|
| `JsNumber.AndMask` | frontend/src/utils/index.ts:413-418 | `x & (2^k - 1)` is x mod 2^k for every integer x, negative ones and ones beyond 32 bits included (ECMA-262 section 7.1.6) |
| `JsNumber.XorExchange` | frontend/src/utils/index.ts:424-426 | two 32-bit integers exchanged through their exclusive or come out exchanged exactly |
| `JsNumber.OrDisjoint` | frontend/src/utils/index.ts:218 | bitwise or with a number that fits in cleared low bits adds it, modulo 2^32 |
| `Carry.StepValue` | frontend/src/utils/index.ts:413-418 | one carry never changes the number modulo p, the wrap-around carry of limb 15 (times 38) included |
| `Carry.FromRange` | frontend/src/utils/index.ts:413-418 | how far the carries of the rest of a pass can travel: limbs 1..15 become proper digits, limb 0 moves by 38 times the last carry |
| `Carry.FromValue` | frontend/src/utils/index.ts:413-418 | a whole pass keeps the number modulo p |
| `Carry.PassWide` | frontend/src/utils/index.ts:413-418 | limbs below 2^44 in size: after one pass limbs 1..15 are proper 16-bit digits and limb 0 is below 2^34 in size |
| `Carry.PassMiddle` | frontend/src/utils/index.ts:413-418 | the second pass reaches the reduced range: limb 0 in [-38, 65573], the others in [0, 65535] |
| `Carry.PassReduced` | frontend/src/utils/index.ts:393-395 | one more pass on a reduced element leaves sixteen proper digits |
| `Carry.PropagateLimb` | frontend/src/utils/index.ts:415-416 | one iteration of `carry` in place, with an exact double sum and a mask that is right for limbs wider than 32 bits |
| `Carry.Propagate` | frontend/src/utils/index.ts:413-418 | `carry` in place is one pass |
| `Multiply.AddRow` | frontend/src/utils/index.ts:441 | one row of the schoolbook product adds x times the number of b at its weight; every accumulator stays in its bound |
| `Multiply.Fold` | frontend/src/utils/index.ts:443 | the fold by 38 keeps the number modulo p and every limb below 2^44 |
| `Multiply.Multmod` | frontend/src/utils/index.ts:438-447 | `multmod`, with o aliasing a or b or both: the product modulo p, in the reduced range, from factors that are a reduced element or one sum or difference of two; no double exceeds 2^53 |
| `Multiply.CarryTwice` | frontend/src/utils/index.ts:445-446 | two passes bring any folded product into the reduced range without changing it modulo p |
| `Elements.AddLimbs` | frontend/src/utils/index.ts:430-432 | `add` under aliasing is addition modulo p, and the coercion to int32 is exact |
| `Elements.SubtractLimbs` | frontend/src/utils/index.ts:434-436 | `subtract` under aliasing is subtraction modulo p, and the coercion to int32 is exact |
| `Elements.MultiplyLimbs` | frontend/src/utils/index.ts:438-447 | `multmod` is multiplication in the field and re-establishes the reduced range |
| `Elements.Cswap` | frontend/src/utils/index.ts:420-428 | the branch-free exchange exchanges the two arrays exactly when b is 1 and leaves both when it is 0 |
| `Rfc7748.DecodeScalarIdempotent` | frontend/src/utils/index.ts:459-462 | clamping a clamped key changes nothing (so a generated private key and its re-clamped copy have one public key); a clamped scalar is a multiple of 8 with highest bit 254 |
| `MontgomeryStep.ScheduleIsStep` | frontend/src/utils/index.ts:481-498 | the 18 calls of an iteration compute the step of the pseudocode in section 5 of RFC 7748 |
| `MontgomeryStep.StepIsOnCurve` | frontend/src/utils/index.ts:481-498 | one step is the x-coordinate doubling on y^2 = x^3 + 486662 x^2 + x, (x^2 - z^2)^2 over 4xz(x^2 + 486662 xz + z^2), and the differential addition 4(xu - zv)^2 over 4 x1 (uz - vx)^2, modulo p |
| `MontgomeryStep.DeferredSwap` | frontend/src/utils/index.ts:477-501 | exchange, step, exchange back for any number of bits ends in the same state as the deferred exchange of the RFC |
| `LadderStep.FirstHalf` | frontend/src/utils/index.ts:481-488 | the first eight calls on aliased arrays leave the squares and cross products, in range |
| `LadderStep.SecondHalf` | frontend/src/utils/index.ts:489-498 | the last ten calls leave the new coordinates, in range |
| `PublicKey.LadderIteration` | frontend/src/utils/index.ts:479-500 | one loop iteration is exchange, step, exchange back on the field elements |
| `PublicKey.LadderLoop` | frontend/src/utils/index.ts:477-501 | the 255 iterations read bits 254..0 of the scalar and fold the step over them |
| `Invert.ExponentStep` | frontend/src/utils/index.ts:452-455 | each round doubles the exponent and adds 1 except at bits 2 and 4 |
| `Invert.ExponentEnds` | frontend/src/utils/index.ts:452-455 | the exponent starts at 1 and ends at p - 2 |
| `Invert.PowerAdd` | frontend/src/utils/index.ts:449-457 | powers in the field add exponents, the law behind square-and-multiply |
| `Invert.InvertLimbs` | frontend/src/utils/index.ts:449-457 | `invert`, also in place, computes z^(p-2) |
| `Fermat.PowerInverts` | frontend/src/utils/index.ts:449-457 | if p is prime, what `invert` computes is the multiplicative inverse of every nonzero element |
| `Fermat.QuotientIsUnique` | frontend/src/utils/index.ts:502-503 | the coordinate returned is then exactly the one q with q z2 = x2 |
| `Pack.Borrow` | frontend/src/utils/index.ts:399-405 | `(x >> 16) & 1` is the borrow of a limb difference and `& 0xffff` the digit that goes with it |
| `Pack.Difference` | frontend/src/utils/index.ts:397-404 | the borrow chain computes t - p limb by limb and returns its sign as 0 or 1 |
| `Pack.SubtractOnce` | frontend/src/utils/index.ts:396-406 | one round subtracts p exactly if the number is at least p |
| `Pack.SignOfDifference` | frontend/src/utils/index.ts:402-403 | the top limb alone decides whether t - p is negative |
| `Pack.Normalise` | frontend/src/utils/index.ts:392-395 | three passes leave sixteen proper digits of the same field element |
| `Pack.TwiceIsEnough` | frontend/src/utils/index.ts:396-406 | two conditional subtractions reach the representative in [0, p) for every number below 2^256 = 2p + 38 |
| `Pack.PackBytes` | frontend/src/utils/index.ts:388-411 | `pack` writes the unique representative in [0, p) as 32 little-endian bytes |
| `Scalar.LittleEndianInjective` | frontend/src/utils/index.ts:407-410 | 32 bytes are determined by their number, so the written key is the only canonical one |
| `Scalar.Clamp` | frontend/src/utils/index.ts:459-462 | `clamp` on bytes is decodeScalar25519 of RFC 7748 on the number |
| `Scalar.ReadsBit` | frontend/src/utils/index.ts:478 | `(z[i >>> 3] >>> (i & 7)) & 1` is bit i of the scalar |
| `PublicKey.Gf` | frontend/src/utils/index.ts:380-386 | `gf` returns a fresh element; writes past the sixteenth limb are ignored |
| `PublicKey.PadNumber` | frontend/src/utils/index.ts:475 | missing bytes read as 0, so the number of the copy is the number of the bytes that are there |
| `PublicKey.LoadScalar` | frontend/src/utils/index.ts:475-476 | the number of the copy is decodeScalar25519 of the number that the first 32 bytes of the key itself stand for, byte 0 the lowest, for every length of the key |
| `PublicKey.GeneratePublicKey` | frontend/src/utils/index.ts:464-506 | `generatePublicKey` returns the 32-byte little-endian canonical encoding of X25519(k, 9) of RFC 7748, where k is decodeScalar25519 of the number that the first 32 bytes of the key stand for, for every key of every length |
| `Rfc4648.RoundTrip` | frontend/src/utils/index.ts:520-554 | decoding the bit regrouping of RFC 4648 undoes encoding for every byte string and every symbol width up to 8 |
| `Rfc4648.StreamOfEncode` | frontend/src/utils/index.ts:208-232 | the bits of the symbols are the bits of the bytes followed by zeros |
| `Rfc4648.AlphabetsAreTables` | frontend/src/utils/index.ts:528-532 | the standard and the URL-safe alphabet, character by character |
| `Base64.CodeIsTable` | frontend/src/utils/index.ts:528-532 | the arithmetic without branches equals the alphabet of section 4 of RFC 4648 for all 64 values |
| `Base64.Sextets` | frontend/src/utils/index.ts:521-526 | the shifts, ors and masks give the four six-bit groups of three bytes |
| `Base64.EncodeGroup` | frontend/src/utils/index.ts:520-534 | four characters are written at the offset, nothing else changes, and a view past the end ignores its writes |
| `Base64.SymbolOfKey` | frontend/src/utils/index.ts:536-545 | symbol k of a 32-byte key is the one the arithmetic computes, the short last group included |
| `Base64.KeyTextIsBase64` | frontend/src/utils/index.ts:536-545 | the 44 characters are the padded base64 of section 4 of RFC 4648 |
| `Base64.KeyToBase64` | frontend/src/utils/index.ts:536-545 | `keyToBase64` of every 32-byte key is its RFC 4648 text, and `atob` reads it back |
| `Base64.KeyFromBase64` | frontend/src/utils/index.ts:547-554 | `keyFromBase64` returns the bytes `atob` returns, or fails when it fails |
| `Base64.AtobOfText` | frontend/src/utils/index.ts:547-554 | reading back the RFC 4648 text gives every byte string unchanged |
| `Base64.AtobRefuses` | frontend/src/utils/index.ts:547-554 | one character anywhere that is no symbol, no padding and no space makes the decoding fail |
| `Base64.AtobSkips` | frontend/src/utils/index.ts:547-554 | tab, line feed, form feed, carriage return and blank are skipped wherever they stand |
| `Base32.ByteEnters` | frontend/src/utils/index.ts:218-219 | shifting a byte into the unmasked 32-bit buffer keeps the unwritten low bits right although the rest wraps |
| `Base32.SymbolLeaves` | frontend/src/utils/index.ts:221-224 | `(buffer >>> bits) & 31` is the next five unwritten bits |
| `Base32.TailSymbol` | frontend/src/utils/index.ts:227-229 | the last bits come out shifted up and zero-filled |
| `Base32.Base32String` | frontend/src/utils/index.ts:208-232 | the encoder equals unpadded section 6 of RFC 4648 for every byte string of any length |
| `Base32.ParseOfText` | frontend/src/utils/index.ts:208-232 | that text decodes back to the bytes |
| `CertificatePin.PinOfHex` | hub/sub/subService.go:966-984 | hex in either letter case, bare or as a colon-separated fingerprint, becomes the lower-case hex of its 32 bytes |
| `CertificatePin.ParseOfPrint` | hub/sub/subService.go:973-982 | whichever of the four base64 encodings accepts a printed digest reads that digest |
| `CertificatePin.PinOfBase64` | hub/sub/subService.go:973-982 | all four base64 spellings of a 32-byte digest become one and the same lower-case hex |
| `CertificatePin.PinOfBase64Spells` | hub/sub/subService.go:973-982 | reading the result back with the value of each hex digit, 16 times the first of a pair plus the second, gives byte k of the digest, for every k and every base64 spelling |
| `CertificatePin.PinOfHexSpells` | hub/sub/subService.go:966-978 | a digest spelled in hex in any mixture of cases, bare or as a fingerprint, comes out as lower-case hex that spells the same digest |
| `CertificatePin.FingerprintShape` | hub/sub/subService.go:967 | a fingerprint of m pairs has the pairs of the hex in order and a colon after each but the last |
| `CertificatePin.PinIdempotent` | hub/sub/subService.go:966-984 | normalising twice is normalising once, on every string |
| `CertificatePin.PinShape` | hub/sub/subService.go:966-984 | the result is 64 lower-case hex characters if and only if the pin is recognised (hex or base64 of 32 bytes); otherwise it is the trimmed input |
| `CertificatePin.UnrecognisedUnchanged` | hub/sub/subService.go:966-984 | an unrecognised pin comes back unchanged if and only if no blank surrounds it |
| `CertificatePin.UnchangedExactly` | hub/sub/subService.go:966-984 | over all strings, the pins that stay as they are are exactly the lower-case hex ones and the unrecognised ones without a surrounding blank |
| `CertificatePin.BlankIsLost` | hub/sub/subService.go:966-984 | a pin, one blank and a letter, that is not recognised and still changes |
| `ExternalProxies.CloneStream` | hub/sub/subService.go:1091-1103 | the clone has fresh maps wherever the loop may write and the same contents |
| `ExternalProxies.ApplyToStream` | hub/sub/subService.go:1105-1137 | the in-place edits on maps equal the edits on values, and write only the three maps of that stream |
| `ExternalProxies.Force` | hub/sub/subClashService.go:159-171 | the forceTls switch in place equals the switch on values |
| `ExternalProxies.ForcedMeans` | hub/sub/subClashService.go:159-171 | a wanted `tls` or `none` that the stream does not have becomes its security, and its TLS settings are then empty or gone (for Clash under `none` the reality settings too); no other key changes, and any other value changes nothing |
| `ExternalProxies.OverriddenMeans` | hub/sub/subService.go:1105-1137 | a stream whose security is not tls is left alone; otherwise server name, fingerprint (in both maps), ALPN and pins are those of the entry where it has them and the old ones where it has none, and every other key of all three maps stays |
| `ExternalProxies.StreamForMeans` | hub/sub/subClashService.go:158-176 | both together, for every stream and every entry |
| `ExternalProxies.ConfigForMeans` | hub/sub/subJsonService.go:171-215 | listen, port and remark of a configuration are dest, port and remark of the entry, and its stream is the edited one, finished for hysteria where that applies |
| `ExternalProxies.ProcessEntry` | hub/sub/subJsonService.go:169-191 | one entry changes no map that existed before; the fresh stream is the source stream with exactly the keys edited that the entry asks for (`StreamForMeans`) |
| `ExternalProxies.ForEachEntry` | hub/sub/subJsonService.go:169-216 | over any list and order of well-formed entries configuration k has the destination, port and remark of entry k and the unchanged source stream edited key by key as entry k alone asks; the JSON loop leaves the shared inbound at the last entry |
| `ExternalProxies.OneEntry` | hub/sub/subJsonService.go:171-215 | one iteration writes only fresh maps and reads listen and port back from its working inbound, which for JSON is the shared one |
| `ExternalProxies.WorkingInbound` | hub/sub/subClashService.go:154-156 | the working inbound is a copy for Clash and the shared inbound, moved to the entry, for JSON |
| `ExternalProxies.NextEntry` | hub/sub/subJsonService.go:171-215 | whatever an earlier entry left in the shared inbound, the configuration is made from the entry and the source stream |
| `ExternalProxies.FanOut` | hub/sub/subClashService.go:130-183 | from the stream on: every configuration is its entry (or the synthetic one), key by key, and the only change to what existed is the removal of externalProxy |
| `ExternalProxies.FinishHysteria` | hub/sub/subJsonService.go:411-455 | the keys `genHy` writes land in the clone only |
| `ExternalProxies.DefaultKeepsStream` | hub/sub/subClashService.go:141-147 | the synthetic default entry leaves the stream as it is |
| `ExternalProxies.DefaultConfig` | hub/sub/subClashService.go:141-156 | without external proxies the one configuration has the default address and the port of the inbound, no remark, and its stream |
| `JsonMaps.AlpnListMeans` | hub/sub/subService.go:1171-1235 | the protocols of a text are its trimmed nonempty pieces between commas, those of a list and the pins are its nonempty texts in order; if none is left, the entry asks for nothing |
| `ProxyNames.CandidatesDiffer` | hub/sub/subClashService.go:109-115 | a base and its numbered forms are pairwise different |
| `ProxyNames.TriedSize` | hub/sub/subClashService.go:109-115 | n - 1 tries are n - 1 different names, the measure that ends the unbounded loop |
| `ProxyNames.FreeName` | hub/sub/subClashService.go:109-115 | the loop ends and returns the first candidate that is not taken |
| `GoStrings.DecimalRoundTrip` | hub/sub/subClashService.go:114 | the printed number reads back as the number, so different numbers print differently |
| `GoStrings.NoLeadingZero` | hub/sub/subClashService.go:114 | only 0 is printed with a leading zero |
| `ProxyNames.EnsureUniqueProxyNames` | hub/sub/subClashService.go:102-119 | every proxy map gets only a new name, the first free candidate after the names before it |
| `ProxyNames.NameNotEmpty` | hub/sub/subClashService.go:102-128 | no name is empty |
| `ProxyNames.NameShape` | hub/sub/subClashService.go:102-128 | each name is its base if that is free, otherwise base, hyphen and the smallest number from 2 on that is; the base is the own name, for an unnamed proxy type-server-port, and for one without type or server `proxy-` and its position from 1 |
| `ProxyNames.NamesDiffer` | hub/sub/subClashService.go:102-119 | all names are pairwise different |
| `ProxyNames.NameKept` | hub/sub/subClashService.go:102-119 | a name is kept if and only if it is nonempty and no earlier proxy took it |
| `ProxyNames.OtherKeysKept` | hub/sub/subClashService.go:102-119 | no key but the name changes |
| `ProxyNames.StableUnderRepetition` | hub/sub/subClashService.go:102-119 | a second pass changes nothing |
| `ShareLinks.UnescapeOfEscape` | hub/sub/subService.go:514-516 | percent-decoding undoes url.QueryEscape on every byte string |
| `ShareLinks.UserinfoIsEscape` | hub/sub/subService.go:514-516 | replacing plus signs after escaping is escaping blanks as %20 |
| `ShareLinks.UserinfoRoundTrip` | hub/sub/subService.go:514-516 | the encoded user info decodes to the original whatever the decoder makes of a plus sign |
| `ShareLinks.UserinfoIsTriplets` | hub/sub/subService.go:514-516 | its output is unreserved characters and upper-case percent triplets only (section 2.1 of RFC 3986) |
| `ShareLinks.EscapedByte` | hub/sub/subService.go:514-516 | an escaped byte is a percent sign and two digits that read back as the byte, the high one first |
| `ShareLinks.UnreservedIsTable` | hub/sub/subService.go:514-516 | the characters left alone are exactly those of section 2.3 of RFC 3986 |
| `ShareLinks.ParseOfQuery` | hub/sub/subService.go:1303-1311 | parsing a printed query gives its parameters back in order |
| `ShareLinks.LinkRoundTrip` | hub/sub/subService.go:1288-1321 | a link whose base has no `?` and no `#` parses back to its base, its parameters and its remark |
| `ShareLinks.AppendQueryAndFragment` | hub/sub/subService.go:1288-1321 | whatever the map iteration order, the text is the link with exactly the selected parameters (security overridden, TLS hints removed as asked) in ascending order |
| `ShareLinks.SameLink` | hub/sub/subService.go:1288-1321 | there is only one such text, so the iteration order never shows |
| `ShareLinks.PrintedParsesExactly` | hub/sub/subService.go:1288-1321 | such a text parses back to its base, its parameters and its remark if and only if its base has no `?` and no `#` |
| `ShareLinks.OneLink` | hub/sub/subService.go:1333-1354 | the link of one entry is its base with exactly its own parameters and its remark, whatever the base |
| `ShareLinks.ParamsForMeans` | hub/sub/subService.go:1288-1354 | key by key: a `security` parameter takes the override unless that is `same` or absent; under tls sni, fp, alpn and pcs are those of the entry where it has them; under a forced `none` these four are gone; everything else is the shared value |
| `ShareLinks.WithEntryMeans` | hub/sub/subService.go:1049-1066 | unless the security is tls an entry changes no parameter; otherwise it sets the four it has and no other |
| `ShareLinks.AlpnTextMeans` | hub/sub/subService.go:1146-1168 | a text is passed on as it is, the nonempty texts of a list with commas between, and an empty one not at all |
| `ShareLinks.BuildExternalProxyLinks` | hub/sub/subService.go:1323-1357 | for every link maker, link k is the base of entry k with the parameters that entry k alone makes of the shared ones and the remark of entry k; the links are joined by line feeds |
| `ShareLinks.LinkParsesExactly` | hub/sub/subService.go:1323-1357 | link k parses back to those if and only if what the link maker prints for entry k has no `?` and no `#` |
| `ShareLinks.LinkReads` | hub/sub/subService.go:438-449 | scheme, user, destination and port stand in this order |
| `ShareLinks.RealLinksParseExactly` | hub/sub/subService.go:438-449 | for the link makers of the callers (scheme, user, destination, port): link k parses back if and only if neither the user nor the destination of entry k has a `?` or a `#` |
| `ShareLinks.TrojanLinksParseExactly` | hub/sub/subService.go:463-501 | for Trojan, whose password is encoded, if and only if the destination has neither |
| `ShareLinks.ShadowsocksLinksParseExactly` | hub/sub/subService.go:545-566 | for Shadowsocks, whose user part is base64, if and only if the destination has neither |
| `ShareLinks.Base64UserIsPlain` | hub/sub/subService.go:560 | unpadded URL-safe base64 never brings either character into the base |
| `ShareLinks.OddUser` | hub/sub/subService.go:404-445 | a VLESS id with a question mark for which no link parses back, at an ordinary destination |
| `ShareLinks.SplitOfJoin` | hub/sub/subService.go:1356 | splitting a joined text gives its parts back if and only if none holds the separator |
| `ShareLinks.PrintedBreaksExactly` | hub/sub/subService.go:1288-1321 | a printed link has a line feed if and only if its base has one |
| `ShareLinks.LinesAreLinksExactly` | hub/sub/subService.go:1323-1357 | cutting the joined text at line feeds gives exactly the links if and only if no base has a line feed |
| `ShareLinks.EncodedUserIsPlain` | hub/sub/subService.go:463 | an encoded password never brings either character into the base |
| `ShareLinks.OddDestination` | hub/sub/subService.go:443-445 | a destination with a question mark for which no link parses back |
| `SortedKeys.Sort` | hub/sub/subService.go:1303 | the sorted key list holds exactly the keys in ascending byte order |
| `SortedKeys.AscendingUnique` | hub/sub/subService.go:1303 | a set of keys has only one ascending listing |
| `SortedKeys.BelowMeans` | hub/sub/subService.go:1303 | ascending means a prefix first, otherwise by the first character that differs |
| `NodeAuth.SkewIsWindow` | internal/nodeauth/nodeauth.go:51-57 | for ages a duration can express the skew test is exactly a distance of at most 300 s between now and the timestamp |
| `NodeAuth.SkewOverflows` | internal/nodeauth/nodeauth.go:51-57 | one second beyond, the int64 product is negative and the request passes |
| `NodeAuth.SkewIsWindowExactly` | internal/nodeauth/nodeauth.go:51-57 | the test is that window for all ages up to a bound if and only if the bound is at most 9223372036 s |
| `NodeAuth.CanonicalInjective` | internal/nodeauth/nodeauth.go:25-33 | requests with one-line methods, and one-line paths or one-line nonces, that sign the same string agree in method, path, body digest, timestamp and nonce |
| `GoStrings.TrimCutsBlanks` | internal/nodeauth/nodeauth.go:27-31 | trimming takes all blanks off both ends and nothing else |
| `GoStrings.CasesAreTables` | internal/nodeauth/nodeauth.go:27 | the change of case goes letter by letter and leaves everything else |
| `ReplayCache.Guard.AcceptReplay` | hub/web/controller/api.go:137-155 | the sweep in any order leaves exactly the entries not older than ten minutes; a key is accepted exactly if none is left for it, and is then remembered |
| `ReplayCache.Guard.VerifySigned` | hub/web/controller/api.go:109-135 | accepted requests carry the keyed code of their five lines, the digest of the body and every header, and lie inside the window; conversely every such request whose key the swept table does not have is accepted; otherwise the table is only swept or left alone |
| `ReplayCache.GenuineExactly` | internal/nodeauth/nodeauth.go:25-60 | the check passes if and only if every header is present, the digest is that of the body in either letter case, the timestamp is positive, and the trimmed signature is the keyed code of upper-case method, path, body digest, decimal timestamp and nonce on five lines |
| `ReplayCache.KeysAgreeExactly` | hub/web/controller/api.go:138-142 | under one secret equal keys mean equal trimmed nonces; secrets without a bar never share a key |
| `ReplayCache.StaysInTable` | hub/web/controller/api.go:137-155 | an accepted request stays in the table until the clock is more than ten minutes past its timestamp |
| `ReplayCache.NeverTwice` | hub/web/controller/api.go:109-155 | over any run with nondecreasing clock below the year 2262 and at most 300 s between the two readings no (secret, nonce, timestamp) is accepted twice |
| `ReplayCache.TwiceWhenSlow` | hub/web/controller/api.go:137-155 | a run with 301 s between the readings that accepts one request twice |
| `ReplayCache.TwiceWhenLate` | internal/nodeauth/nodeauth.go:51-57 | a run past the last expressible age that accepts one request twice |
| `ReplayCache.AtMostOnceExactly` | hub/web/controller/api.go:109-155 | at-most-once acceptance holds over all runs if and only if the delay is at most 300 s (or the clock ends by 601, before any entry can expire) and the clock is at most 9223372037 |
| `ReplayCache.SweptIsRemembered` | hub/web/controller/api.go:144-152 | after the sweep the table knows exactly the keys of earlier accepted requests whose timestamps are at most ten minutes old |
| `ReplayCache.AcceptedExactly` | hub/web/controller/api.go:109-155 | over the whole history a request is accepted if and only if it is genuine, inside the window, has a key, and no accepted request with that key has a timestamp at most ten minutes old |
| `LoginLimiter.PruneCounts` | hub/web/controller/login_limiter.go:93-99 | on sorted times dropping the old prefix counts what a scan of everything counts |
| `LoginLimiter.PrunedRecordCounts` | hub/web/controller/login_limiter.go:93-99 | a pruned record pruned again counts exactly the failures of the whole history in the window |
| `LoginLimiter.AllowedAgrees` | hub/web/controller/login_limiter.go:41-60 | pruning and deletion inside `allow` keep every key in agreement with the history and refuse exactly when it does |
| `LoginLimiter.FailedAgrees` | hub/web/controller/login_limiter.go:62-81 | recording a failure keeps agreement and blocks exactly when the history does |
| `LoginLimiter.SucceededAgrees` | hub/web/controller/login_limiter.go:83-87 | deleting the record on success keeps agreement |
| `LoginLimiter.PruneLoginFailures` | hub/web/controller/login_limiter.go:93-99 | the loop returns the suffix from the first time not before the cutoff |
| `LoginLimiter.Limiter.Allow` | hub/web/controller/login_limiter.go:41-60 | refuses if and only if now is before the end of the latest block no success has cleared, and returns that end; the full history is untouched |
| `LoginLimiter.Limiter.RegisterFailure` | hub/web/controller/login_limiter.go:62-81 | blocks if and only if at least the maximum of failures since the last success or block lie in the window, counted over the full history |
| `LoginLimiter.Limiter.RegisterSuccess` | hub/web/controller/login_limiter.go:83-87 | clears the key and nothing else |
| `LoginLimiter.KeysAgreeExactly` | hub/web/controller/login_limiter.go:89-91 | two logins share a record if and only if the trimmed addresses and the lower-case trimmed names are equal |
| `LoginLimiter.SinceLastReset` | hub/web/controller/login_limiter.go:62-87 | the failures that can count are all those of the key after its last success or block |
| `LoginLimiter.CountIsCardinality` | hub/web/controller/login_limiter.go:93-99 | how many count is the number of positions whose time is at or after the cutoff |
| `LoginLimiter.LatestBlock` | hub/web/controller/login_limiter.go:41-81 | a key is blocked until the cooldown after its latest blocking failure, if no success came after that, and not at all if there is none |
| `OnlineTracker.RefreshAgrees` | xray/process.go:338-372 | stamping and pruning keep the table exact for everything ever reported |
| `OnlineTracker.TableIsRecent` | xray/process.go:338-372 | the table holds x if and only if some refresh less than grace ago reported x |
| `OnlineTracker.Process.RefreshLocalOnline` | xray/process.go:338-372 | afterwards the two lists are exactly the emails and tags active at some refresh less than grace before now, whatever was pruned, and each online email comes with all tags of a refresh that reported it |
| `OnlineTracker.SameTickTogether` | xray/process.go:338-372 | whatever email is online, some refresh less than grace ago reported it and all tags of that refresh are active |
| `OnlineTracker.Process.GetOnlineClients` | xray/process.go:254-283 | the union of the local and all remote lists, each email once |
| `OnlineTracker.Process.GetOnlineClientsByNode` | xray/process.go:291-310 | the nonempty groups by node |
| `OnlineTracker.GroupsByNode` | xray/process.go:291-310 | the local group is under 0 unless a nonempty remote one is, each nonempty remote one under its id, and nothing else is there |
| `OnlineTracker.Process.SetNodeOnlineClients` | xray/process.go:377-384 | replaces the list of one node and nothing else |
| `OnlineTracker.Process.ClearNodeOnlineClients` | xray/process.go:389-393 | drops one node and nothing else |
| `OnlineTracker.Process.GetActiveInboundsByNode` | xray/process.go:318-330 | the local active tags under the number 0, or nothing |
| `OnlineTracker.GroupsMatchList` | xray/process.go:254-310 | the groups hold exactly the emails of the flat list if and only if no remote node with id 0 hides local emails |
| `OnlineTracker.HiddenGroup` | xray/process.go:291-310 | an input in which it does hide one |
| `IpLimit.MergeClientIps` | hub/web/job/check_client_ip_job.go:205-222 | the two loops compute the merge |
| `IpLimit.MergeIsNewest` | hub/web/job/check_client_ip_job.go:205-222 | if the last stored entry of each IP is its newest, the merge holds exactly the IPs seen and not stale, each with its newest time |
| `IpLimit.MergeIsNewestExactly` | hub/web/job/check_client_ip_job.go:205-222 | a stored list merges so with every observation, cutoff and IP if and only if the last entry of each of its IPs is the newest one |
| `IpLimit.MergeOfDuplicates` | hub/web/job/check_client_ip_job.go:205-222 | a stored list with an IP twice in which the older time wins |
| `IpLimit.MergeIsFresh` | hub/web/job/check_client_ip_job.go:205-222 | nothing in a merge is stale, whatever was stored |
| `IpLimit.StaleInNumbers` | hub/web/job/check_client_ip_job.go:38 | an entry up to 1800 s old stays with its time, an older one goes |
| `IpLimit.PartitionLiveIps` | hub/web/job/check_client_ip_job.go:224-238 | the two lists are the observed and the other part of the merge, sorted, each IP once |
| `IpLimit.Job.Update` | hub/web/job/check_client_ip_job.go:341-425 | banned, kept and historical split the merge: at most the limit is kept, every banned time is at most every kept one; the bans, the stored list and the answer follow, nothing is stored if the log cannot be opened, and the call is a step of the runs below |
| `IpLimit.SplitIsExact` | hub/web/job/check_client_ip_job.go:366-411 | the three groups are disjoint and together the merge |
| `IpLimit.ScanStores` | hub/web/job/check_client_ip_job.go:404-411 | after one enforced scan every stored IP is unique and not stale, whatever was stored before |
| `IpLimit.RunStores` | hub/web/job/check_client_ip_job.go:205-425 | every enforced scan that stores, anywhere in a run, leaves a list without duplicates and stale entries, whatever was stored before, so the merge of the next scan is exact |
| `IpLimit.RunUnique` | hub/web/job/check_client_ip_job.go:314-425 | a run that mixes enforced scans, plain recordings and failures to open the log has each IP once in every list from the first writing scan on, and every merge carries the newest times |
| `IpLimit.NothingInvented` | hub/web/job/check_client_ip_job.go:205-425 | every stored entry of any run was there at the start or observed with that very time |
| `Reconnect.WebSocketClient.Connect` | frontend/src/api/websocket.ts:37-44 | the call in place is the step on states |
| `Reconnect.WebSocketClient.Disconnect` | frontend/src/api/websocket.ts:46-55 | the call in place is the step on states |
| `Reconnect.WebSocketClient.HandleClose` | frontend/src/api/websocket.ts:110-116 | the listener in place is the step on states, its guard included |
| `Reconnect.WebSocketClient.HandleTimer` | frontend/src/api/websocket.ts:179-183 | the timer callback in place is the step on states, which opens a socket (`TimerReconnects`) |
| `Reconnect.WebSocketClient.ScheduleReconnect` | frontend/src/api/websocket.ts:165-184 | the method in place is the step on states |
| `Reconnect.StepSafe` | frontend/src/api/websocket.ts:37-191 | every call, event and timer keeps: at most one timer, a timer only while the current socket is neither open nor connecting, no live socket but the current one, attempts at most ten |
| `Reconnect.RunIsSafe` | frontend/src/api/websocket.ts:37-191 | so does every state of every run |
| `Reconnect.TimerReconnects` | frontend/src/api/websocket.ts:179-183 | a timer that fires leaves exactly one new socket, connecting and current, and no timer; if the constructor throws, no socket and exactly one timer |
| `Reconnect.FiringReconnects` | frontend/src/api/websocket.ts:179-183 | so it does at every firing of every run |
| `Reconnect.ConnectConnects` | frontend/src/api/websocket.ts:37-44 | `connect` brings about the same unless the current socket is open or connecting, and then nothing |
| `Reconnect.SocketEvents` | frontend/src/api/websocket.ts:93-116 | an open event of the current socket sets `isConnected` and resets the counter, a close event drops the socket and leaves exactly one timer, and neither event of another socket does anything |
| `Reconnect.DisconnectDisconnects` | frontend/src/api/websocket.ts:46-55 | `disconnect` starts to close the current socket if it is live, and leaves no socket, no timer and no attempts |
| `Reconnect.NothingUntilConnect` | frontend/src/api/websocket.ts:46-55 | after `disconnect` and until `connect` no socket is made, no timer waits and none is live, whatever events still arrive |
| `Reconnect.NeverStuck` | frontend/src/api/websocket.ts:110-116 | from `connect` until `disconnect` there is always a socket or a timer |
| `Reconnect.DelayOfStep` | frontend/src/api/websocket.ts:165-184 | in doubles, a timer waits at least 0.75 and at most 1.25 times its base, strictly less if and only if the random number is below 1 - 2^-52 |
| `Reconnect.JitterBelowExactly` | frontend/src/api/websocket.ts:177 | the rounded product stays below 1.25 times the base exactly for those random numbers |
| `Reconnect.AttemptsCountFailures` | frontend/src/api/websocket.ts:169-176 | the counter is the number of reconnects scheduled since the last open or `disconnect`, capped at ten |
| `Reconnect.WaitOfFailure` | frontend/src/api/websocket.ts:165-184 | so every wait of every run follows from that number alone |
| `Reconnect.BaseTable` | frontend/src/api/websocket.ts:169-177 | 1, 2, 4, 8, 16 s, five times 30 s, then 60 s for ever |
| `Reconnect.OversizedClosesNothing` | frontend/src/api/websocket.ts:127-136 | an oversized message leaves the connection as it is, because browsers refuse the close code 1009 |
| `Reconnect.StepEnds` | frontend/src/api/websocket.ts:37-116 | a step ends a live socket if and only if the socket moves on by itself or is the one `disconnect` closes |
| `Reconnect.StaysLiveExactly` | frontend/src/api/websocket.ts:37-191 | over runs a live socket stays live if and only if nothing in between ends it so: no replacement, timer, event or oversized message does |
| `Doubles.RoundedBetween` | frontend/src/api/websocket.ts:177 | rounding to a spacing never leaves an interval whose ends are multiples of it |
| `Doubles.RoundedBelow` | frontend/src/api/websocket.ts:177 | more than half a spacing below such a multiple, the rounded value stays below it |
| `Reconnect.BasesRise` | frontend/src/api/websocket.ts:169-176 | while attempts fail the base never falls |
| `Reconnect.StaleExactly` | frontend/src/api/websocket.ts:37-44 | `isConnected` never claims a socket that is still connecting if and only if no socket is made while it is set |
| `Reconnect.StaleHappens` | frontend/src/api/websocket.ts:37-44 | a run (open, closing, `connect`) in which it does |
| `TrafficDeltas.XrayApi.GetTraffic` | xray/api.go:283-323 | the loop in place computes the last values and both tables |
| `TrafficDeltas.DeltaInPoll` | xray/api.go:307-321 | with unique names each delta of a poll is measured from the previous poll |
| `TrafficDeltas.TagReported` | xray/api.go:325-349 | a counted statistic of a tag is reported in full if no later counted one writes the same field |
| `TrafficDeltas.FieldShowsLastWriter` | xray/api.go:325-349 | the field of a counted statistic shows its delta if and only if its last counted writer has the same delta |
| `TrafficDeltas.AllShownExactly` | xray/api.go:307-349 | a poll reports every tag in full if and only if no inbound and outbound of one tag count different numbers of bytes in one direction |
| `TrafficDeltas.UserReported` | xray/api.go:352-367 | a counted statistic of a client is reported in full |
| `TrafficDeltas.TagsExactly` | xray/api.go:325-349 | a tag is in the table if and only if it is not `api` and something was counted for it, and it is called an inbound if and only if the first statistic counted for it is of an inbound |
| `TrafficDeltas.SharedTagHides` | xray/api.go:325-349 | an input in which an outbound hides the bytes of the inbound of its tag |
| `TrafficDeltas.NeverOverReported` | xray/api.go:307-321 | over any polls and restarts the reported sum is natural and at most the bytes counted |
| `TrafficDeltas.Telescopes` | xray/api.go:307-321 | without restarts the sum is the last minus the first observed value |
| `TrafficDeltas.PollContinues` | xray/api.go:308-309 | the last values that GetTraffic keeps from poll to poll are those of the readings in order |
| `TrafficDeltas.TableIsReported` | xray/api.go:307-321 | the table of a poll holds exactly what the poll adds to the sum of a client |
| `TrafficDeltas.TagTableIsReported` | xray/api.go:307-349 | for a tag it does so if and only if the last counted writer of the field has the same delta |
| `TestLanes.BuildQueues` | frontend/src/hooks/useXraySetting.ts:309-322 | the two queues hold, in order and once each, exactly the entries the rule sends there |
| `TestLanes.OneLaneOrSkipped` | frontend/src/hooks/useXraySetting.ts:311-322 | each entry is in one queue once, or in none exactly if the rule skips it |
| `TestLanes.LanesHold` | frontend/src/hooks/useXraySetting.ts:309-322 | the http lane holds an entry if and only if it is not skipped and the mode is http or it is a UDP outbound, the tcp lane if and only if it is neither |
| `TestLanes.RuleOfEntry` | frontend/src/hooks/useXraySetting.ts:311-322 | the rule in terms of protocol, tag, network and mode: skipped, http lane or tcp lane |
| `TestLanes.Lane.constructor` | frontend/src/hooks/useXraySetting.ts:323-331 | starting a lane hands the first min(concurrency, length) items to as many workers |
| `TestLanes.Lane.Resume` | frontend/src/hooks/useXraySetting.ts:325-329 | a worker whose test returned takes the next item or ends |
| `TestLanes.ReturnedPartition` | frontend/src/hooks/useXraySetting.ts:325-329 | a step keeps queue, in-flight and done a partition of the items, and no worker idle while the queue has any |
| `TestLanes.RunPartitions` | frontend/src/hooks/useXraySetting.ts:323-333 | that holds at every moment of every interleaving of both lanes, and each step finishes one test |
| `TestLanes.InFlightBound` | frontend/src/hooks/useXraySetting.ts:330-333 | at most eight tcp and one http test are in flight, and exactly so many while items wait |
| `TestLanes.AllRunsDrain` | frontend/src/hooks/useXraySetting.ts:330-333 | no run is longer than the number of items, and a run cannot go on if and only if every item has been handed over and returned |
| `TestLanes.EveryOutboundOnce` | frontend/src/hooks/useXraySetting.ts:304-337 | at the end each outbound has been handed to `testOutbound` exactly once, or not at all exactly if the rule skips it |

## Left out

- Cryptography: SHA-256 and HMAC are uninterpreted functions; random bytes, random jitter and clocks are inputs. Secret-independent timing is not modelled.
- Primality of 2^255 - 19 and the group law of the curve: primality is a hypothesis of `Fermat.PowerInverts` and `Fermat.QuotientIsUnique`; the RFC pseudocode is the specification of the ladder, and `MontgomeryStep.StepIsOnCurve` gives its step as the usual doubling and differential addition; that these are multiples of a point is not proved.
- generateKeypair, generatePrivateKey and the random helpers: thin wrappers around what is modelled.
- Base64.KeyToBase64: keys are sequences of bytes rather than typed-array views; `atob` follows the forgiving decoder of the WHATWG Infra standard.
- ExternalProxies.ForEachEntry: what `buildProxy`, `genVnext`, `genVless`, `genServer` and `genRemark` print from a stream is not modelled; an iteration ends with the contents of the three maps it may write. Proxies that `buildProxy` leaves empty are not dropped. Go lists of type []string do not occur in decoded JSON and have no constructor.
- ExternalProxies.FanOut: an entry that is not well-formed makes the source panic; such entries are excluded by a precondition.
- ProxyNames.EnsureUniqueProxyNames: the proxies are required to be different map objects, as `getProxies` builds them; what %v prints for other types is a given string.
- ShareLinks.AppendQueryAndFragment: strings are byte strings (characters below 256); the parameter map is a value, since `cloneStringMap` makes a fresh one for every link.
- ShareLinks.BuildExternalProxyLinks: a port that is no number makes the source panic and is excluded by a precondition. The vmess JSON links and the hysteria links are left out.
- NodeAuth.CanonicalInjective: needs one-line methods, and one-line paths or one-line nonces, as HTTP request lines and header fields give them; the digest stays uninterpreted.
- ReplayCache.Guard.VerifySigned: header lookup, trimming and ParseInt come before the model, which takes the parsed headers; EqualFold is ASCII case folding.
- LoginLimiter.Limiter.Allow: clocks are nondecreasing natural numbers with 0 as the zero time; letters outside ASCII keep their case in keys.
- OnlineTracker.Process.RefreshLocalOnline: the mutex is modelled by whole method calls; clock and grace are unbounded integers. That returned slices are copies is not modelled.
- IpLimit.Job.Update: database failures, the log text and the temporary disconnection are not modelled; the settings lookup is one flag and the limit.
- TrafficDeltas.XrayApi.GetTraffic: statistics arrive with parsed names (the regular expressions are not modelled), and a failed query makes no reading.
- TrafficDeltas.NeverOverReported: is about the reported deltas of each statistic; what the table shows of them is `TableIsReported` and `TagTableIsReported`.
- Reconnect.RunIsSafe: listeners do not call back into the client; a pending timer may fire at any time, so the truncation of delays to whole milliseconds does not matter; messages are modelled only as far as their size. `send`, `on`, `off` and parsing are left out.
- TestLanes.AllRunsDrain: every call of `testOutbound` is taken to return, as it catches its errors and returns at once for a missing entry; the React state it writes and the `testingAll` flag are left out.
- HTTP handlers, gRPC, SQL, exec, the installer, the terminal interface and React components: input, output and wrappers without a property of their own.
