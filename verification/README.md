# cookiesession in Dafny

A model of the Go package `cookiesession`, a stateless session mechanism for
HTTP servers. A session (a validity flag, a timestamp, three 128-bit
identifiers SID, UID and RealUID, and opaque State bytes) travels in a cookie
whose value is `base64(nonce ‖ secretbox.Seal(key, nonce, encoding))`. The model
covers two parts:

- **The session codec** (`SessionCodec`). `MarshalBinary` writes the fixed layout:
  8 bytes of big-endian Unix seconds, SID, UID and RealUID at 16 bytes each, then
  State with no length prefix. `UnmarshalBinary` reads it back into a receiver.
- **The store** (`CookieStore`). `New` derives the key. `Get` turns a cookie into
  a trusted session or a fresh anonymous one. `Save` stamps the session and builds
  the cookie. `Clear` builds the deletion cookie.

The collaborators are records of total functions, passed in as arguments:
base64, the secretbox Seal/Open pair, the key derivation and `uuid.FromBytes`.
The laws the proofs need are ghost predicates, and the lemmas that use them
require them. `Primitives.SealOpens` says Open inverts Seal under the same key
and nonce. `Primitives.DecodesEncoding` says base64 decoding inverts encoding.
`Uuid.Faithful` says any 16 bytes parse to themselves. Each predicate has a
concrete inhabitant (`TaggingBox`, `LatinCodec`, `FromBytes`), so none of them
is vacuous.

Other inputs also become arguments:
- The clock is an `Instant`, in nanoseconds since the Unix epoch.
- The random nonce of `Save` is an `Option<Nonce>`. `None` means crypto/rand failed.
- The fresh SID of `Get` is an `Option<UUID>`. `None` means `uuid.NewV4` failed, so `uuid.Must` panics.
- The request is reduced to the value of the cookie named after the store (`None` when absent).

`Get` returns `Returned(session)` or `Panicked(cause)`, because the Go code has
two inputs on which it panics instead of returning a session.

Modules: `Wrappers` (Option, Result), `Bytes` (bytes, big-endian, int64/uint64
conversions), `Clock` (the parts of package time used), `Uuid`, `Primitives`,
`SessionCodec`, `CookieStore`.

## Model

| member | source | states |
|---|---|---|
| `SessionCodec.MarshalBinary` | cookiesession.go:60-70 | The output is 56 + \|State\| bytes long. Its first eight bytes read back with `Uint64` give the uint64 bit pattern of the Unix seconds. SID sits at 8..24, UID at 24..40, RealUID at 40..56, and State fills 56 to the end. It cannot fail. |
| `SessionCodec.UnmarshalBinary` | cookiesession.go:30-58 | Input shorter than 56 bytes gives `TooShort`. Every error leaves the receiver unchanged. On success Valid is true, the time is `time.Unix(int64(Uint64(data)), 0)`: the first eight bytes read big-endian and then reinterpreted as signed seconds, and State is exactly `data[56..]` (empty at length 56). At 56 bytes or more it succeeds iff the parser accepts all three 16-byte windows, a parse failure is returned as `BadIdentifier`, and on success the identifiers are the parser's results. With a faithful parser it succeeds iff the length is at least 56, and the identifiers are the windows themselves. |
| `SessionCodec.UnmarshalMarshal` | cookiesession.go:30-70 | Decoding an encoding reproduces SID, UID, RealUID and State byte for byte, with the time truncated to the second and Valid true, whatever the receiver held before. |
| `SessionCodec.MarshalUnmarshal` | cookiesession.go:30-70 | Re-encoding a decoded session gives back exactly the bytes decoded. |
| `Bytes.Uint64` | cookiesession.go:51 | `binary.BigEndian.Uint64` is the big-endian unsigned value of the first eight bytes. |
| `Bytes.PutUint64` | cookiesession.go:63 | `binary.BigEndian.PutUint64` writes eight bytes. `Uint64RoundTrip` ties their content to the value. |
| `Bytes.Uint64RoundTrip` | cookiesession.go:63 | `PutUint64` then `Uint64` is the identity on 64-bit values. `Uint64` then `PutUint64` gives back the first eight bytes. |
| `Bytes.BeValueOfBeBytes` | cookiesession.go:63 | Reading back an n-byte big-endian representation gives the value written (by induction on n). |
| `Bytes.BeBytesOfBeValue` | cookiesession.go:51 | Writing out the big-endian value of a byte sequence at its own width gives the sequence back (by induction). |
| `Bytes.AsUint64` | cookiesession.go:63 | `uint64(x)` is congruent to x modulo 2^64 and is x itself for non-negative x. |
| `Bytes.AsInt64` | cookiesession.go:51 | `int64(u)` is congruent to u modulo 2^64 and is negative exactly when the top bit of u is set. |
| `Bytes.Int64Reinterpretation` | cookiesession.go:51 | Converting uint64→int64 and int64→uint64 are inverse on their ranges. |
| `Clock.UnixSeconds` | cookiesession.go:63 | `Time.Unix` is the whole number of seconds at or before the instant. |
| `Clock.FromUnix` | cookiesession.go:51 | `time.Unix(sec, 0)` is a whole-second instant whose Unix seconds are sec. |
| `Clock.Sub` | cookiesession.go:119 | `Time.Sub` is the exact difference when it fits a Duration, and saturates at the bounds otherwise. |
| `Clock.WholeSeconds` | cookiesession.go:145 | `TTL / time.Second` truncates toward zero: for a non-negative TTL it is the floor, and for a negative TTL it is a non-positive value within a second above it. |
| `Uuid.FromBytes` | cookiesession.go:35-47 | `uuid.FromBytes` succeeds exactly on 16 bytes and returns them. |
| `Uuid.FromBytesIsFaithful` | cookiesession.go:35-47 | The library parser accepts every 16-byte window, so the three parse errors in UnmarshalBinary cannot occur. |
| `CookieStore.New` | cookiesession.go:79-91 | The key is the derivation of the secret. Name, Secret and TTL are stored. HttpOnly and Secure start false. |
| `CookieStore.Reject` | cookiesession.go:96 | The rejection value is the zero Session carrying the fresh SID, with Valid false. When no SID can be generated it panics instead. |
| `CookieStore.Unseal` | cookiesession.go:106-123 | Once the value is at least a nonce long, it never panics on slicing. A valid result opened under the key and the first 24 bytes, decoded to that session, and is no older than the TTL. |
| `CookieStore.Get` | cookiesession.go:93-124 | Every invalid result is the anonymous session with the freshly generated SID. A valid result came from a present cookie that opens under the store key and decodes to that session, and is no older than the TTL. The slicing panic happens iff the value base64-decodes to fewer than 24 bytes. The generation panic happens only when no fresh SID exists. |
| `CookieStore.RejectionPathsConverge` | cookiesession.go:94-121 | A missing cookie, a base64 failure, an Open failure, a decode failure and an expired timestamp all give the same `Reject(freshSid)`. |
| `CookieStore.ExpiryIsStrict` | cookiesession.go:119-123 | A cookie that opens and decodes is returned iff `Sub(now, Time) <= TTL`. Equality is accepted and anything larger is rejected. |
| `CookieStore.NeverTrustedPastTtl` | cookiesession.go:119-123 | A session Get trusts is at most TTL old. The only exception is a TTL equal to the largest Duration. |
| `CookieStore.Save` | cookiesession.go:126-150 | It fails iff no nonce was drawn, and then no cookie is set. Otherwise the session is the input with Time set to now and nothing else changed. The cookie has the store's name and flags, Path "/", Expires = now + TTL and MaxAge = TTL in whole seconds, truncated. |
| `CookieStore.SavedCookiePrefix` | cookiesession.go:127-146 | Under the base64 law alone, the saved value decodes to bytes whose first 24 are the nonce. |
| `CookieStore.SavedCookieLayout` | cookiesession.go:127-146 | The saved value base64-decodes to bytes whose first 24 are the nonce. The rest opens under the key and nonce to the encoding of the stamped session. |
| `CookieStore.DistinctNoncesDistinctValues` | cookiesession.go:127-146 | Under the base64 law alone, two saves with different nonces give different cookie values. |
| `CookieStore.SaveThenGet` | cookiesession.go:93-150 | Get of the cookie Save made returns the saved session (Valid true, time cut to the second) iff the time since that second is at most the TTL. Otherwise it rejects. |
| `CookieStore.SubSecondSaveShortensTtl` | cookiesession.go:119 | A cookie saved at 0.5 s with a one-second TTL is rejected at 1.4 s, although only 0.9 s have passed since the save. |
| `CookieStore.SameSecretInteroperates` | cookiesession.go:79-91 | Two stores made by New from the same secret share a key. Each reads what the other saved, within the reader's TTL. |
| `CookieStore.Clear` | cookiesession.go:152-162 | The cookie has the store's name and flags, Path "/", an empty value, Expires at the Unix epoch and MaxAge -1. It takes no session. |
| `CookieStore.ClearTargetsSavedCookie` | cookiesession.go:139-161 | Clear's cookie has the same name, path and flags as Save's, so it replaces it. A saved cookie with a TTL of at least a second has a positive MaxAge. |
| `CookieStore.EmptyCookiePanics` | cookiesession.go:106-109 | When base64 decodes "" to no bytes, as standard base64 does, Get panics on a cookie with an empty value, such as a client sending `Cookie: <name>=`. The guarded Get rejects it. |
| `CookieStore.GetGuarded` | cookiesession.go:101-112 | The corrected Get never panics on slicing. |
| `CookieStore.GuardedAgreesWithGet` | cookiesession.go:101-112 | The guarded Get equals Get wherever Get does not panic on a short value. Where Get panics, the guarded Get returns the anonymous session. |
| `CookieStore.SaveThenGetGuarded` | cookiesession.go:93-150 | The end-to-end law of `SaveThenGet` holds for the guarded Get as well. |

## Findings

| source | as written | input that shows it | evidently intended | confidence | as-written member | corrected member |
|---|---|---|---|---|---|---|
| cookiesession.go:106-109 | `encrypted[:24]` and `encrypted[24:]` slice the base64-decoded cookie value without checking its length. | A client sending `Cookie: <name>=` or `Cookie: <name>=AAAA`, whose value base64-decodes to fewer than 24 bytes (standard base64 decodes "" to no bytes and no error). The slice is out of range and the request panics. The empty value is the one `Clear` sets, but `Clear` also sets Max-Age 0 and an epoch Expires, so a conforming client deletes that cookie rather than sending it back. | Reject like every other malformed cookie (lines 101-104, 110-112): return the anonymous session. | high; not executed | `CookieStore.Get`, `CookieStore.EmptyCookiePanics` | `CookieStore.GetGuarded`, `CookieStore.GuardedAgreesWithGet`, `CookieStore.SaveThenGetGuarded` |

Where the intended behaviour and the code differ, the model follows the code.
Besides the panic above, there is one more difference. The stored timestamp is
truncated to whole seconds (line 63), and Get measures age from that second
(line 119). So a cookie can be rejected up to one second before a full TTL has
passed since the save. It is never accepted after the TTL, except when the TTL is the
largest Duration: `Time.Sub` saturates there, so a cookie of any age is accepted
(`NeverTrustedPastTtl` states this exception).
`SubSecondSaveShortensTtl` shows this with concrete values.

## Left out

- Key derivation: SHA-256 in `New` (lines 79-91) is the `Kdf` argument. Only its determinism is used.
- Encryption: XSalsa20-Poly1305 inside secretbox is abstract, constrained only by `SealOpens`. Tamper detection, cross-key isolation and confidentiality are cryptographic assumptions that cannot be proved in this model. The 16-byte authenticator overhead is not modelled.
- Base64: `encoding/base64` (section 4 of RFC 4648) is abstract, constrained only by `DecodesEncoding`. `EmptyCookiePanics` states separately the one fact of the real decoder it needs, that "" decodes to no bytes.
- Randomness: the values from `uuid.NewV4` and `crypto/rand` are arguments. Their uniqueness and unpredictability are probabilistic and not modelled.
- `uuid.FromBytes` is in a library that is not part of this model. `UnmarshalBinary` takes any parser. `Uuid.FromBytes` records the length check the library performs.
- net/http: `r.Cookie`'s header parsing and value sanitising are not modelled (the request is the optional cookie value). Nor is `http.SetCookie`'s serialisation of Expires and MaxAge (a negative MaxAge is sent as `Max-Age=0`).
- time.Time: the monotonic reading and the location are not modelled. Instants are exact integers, so overflow in `Time.Add` is not modelled. Neither is the int64 wrap inside `time.Unix`, which adds 62135596800 to the seconds and so overflows only for seconds within 62135596800 of the int64 maximum. In that window Go's `Get` sees a far-past time and rejects the cookie, while the model's `Get` sees a far-future time and accepts it, unless the TTL is the largest Duration, where both accept.
- `SessionCodec.UnmarshalMarshal` requires the Unix seconds of the session time to fit in int64. Go times below -2^63 Unix seconds exist; `Time.Unix` wraps there and `time.Unix` wraps back, so Go's round trip holds there while the model's does not, because `Clock.FromUnix` does not wrap. `Save` stamps the clock, which never reaches that range.
- The error branch of `Save` after `MarshalBinary` (lines 134-137) is unreachable, because `MarshalBinary` never fails. The model has no such branch.
- A nil State and an empty State are both the empty sequence.
- `Store.Secret` is kept in the record but nothing reads it.
