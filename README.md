# Webhook request validation and dispatch

A model of `handle` and `signRequestBody` in
`modules/webhook/lambdas/webhook/src/webhook/handler.ts`, the Lambda that
receives GitHub webhook deliveries for the self-hosted runner scaler. The
handler:

1. adds a lowercase alias for every header name, in place (`headers.dfy`,
   module `Headers`, method `LowercaseKeys`);
2. answers 500 when `x-hub-signature` is absent or empty, and 500 when the
   decrypted webhook secret is `undefined`;
3. computes `sha1=` + hex(HMAC-SHA1(secret, body)) (`signature.dfy`, module
   `Signature`) and answers 401 when the claimed signature differs;
4. for a `check_run` event with action `created` and status `queued`, sends
   one `ActionRequest` to the queue; every other verified event is ignored with
   200 (`handler.dfy`, module `Webhook`, method `Handle`).

The outside world enters `Handle` as an `Environment`: the secret the decrypt
call yields (`None` stands for `undefined`), the keyed hash as a function
`Mac = (string, string) -> Digest` (20-byte digests), the JSON parser as a
function returning `None` where `JSON.parse` throws, and whether the queue
submission succeeds. `Handle` returns the outcome (`Status(code)` or
`Thrown(fault)` for a rejected promise), the outside calls made in order
(`Decrypt`, `ComputeSignature`, `Send(request)`), and the header map as the
loop leaves it, since the caller's object is mutated.

The enumeration order of `for...in` is a parameter `order` listing exactly
the header names. When one name arrives under several spellings, the value
left under the lowercase name is the one of the last differently-cased
spelling enumerated; `Headers.Normalized` states this declaratively, and
`LowercaseKeys` is proved to compute it.

Behaviour of the code worth knowing, all of it modelled:

- The comparison at handler.ts:35 is `!==`, not a constant-time comparison;
  the model uses plain string equality.
- `!signature` (handler.ts:19) rejects an empty header as well as an absent
  one, with 500 (`Webhook.HasSignature`).
- The comparison is exact: a signature written with uppercase hex digits is
  rejected with 401 (`Signature.SignatureMatches`).

## Model

| member | source | states |
|---|---|---|
| `Headers.Lower` | modules/webhook/lambdas/webhook/src/webhook/handler.ts:15 | `key.toLowerCase()` keeps the length and turns each ASCII capital into its small letter, leaving every other character as it is |
| `Headers.LowerIdempotent` | modules/webhook/lambdas/webhook/src/webhook/handler.ts:15 | lowercasing an already lowercased name changes nothing |
| `Headers.LastAliasIndex` | modules/webhook/lambdas/webhook/src/webhook/handler.ts:14-16 | finds the last enumerated key whose lowercase spelling is a given name and that differs from it, and reports none only when no such key exists |
| `Headers.NormalizedStep` | modules/webhook/lambdas/webhook/src/webhook/handler.ts:15 | one iteration `headers[key.toLowerCase()] = headers[key]` extends the declarative result by one enumerated key |
| `Headers.LowercaseKeys` | modules/webhook/lambdas/webhook/src/webhook/handler.ts:13-16 | the loop leaves exactly the declarative normalised headers |
| `Headers.NothingRemoved` | modules/webhook/lambdas/webhook/src/webhook/handler.ts:14-16 | no header is removed and every name is also present in lowercase |
| `Headers.ValueFromSameName` | modules/webhook/lambdas/webhook/src/webhook/handler.ts:14-16 | every value after the loop was sent under some spelling of the same name |
| `Headers.MixedCaseUnchanged` | modules/webhook/lambdas/webhook/src/webhook/handler.ts:14-16 | an entry whose name is not lowercase keeps its value |
| `Headers.SingleSpellingFound` | modules/webhook/lambdas/webhook/src/webhook/handler.ts:13-18 | a header sent under one spelling is found with its value under the lowercase name |
| `Headers.CapitalisedSignatureFound` | modules/webhook/lambdas/webhook/src/webhook/handler.ts:13-18 | a signature sent as `X-Hub-Signature` is found under `x-hub-signature` |
| `Headers.NormalizedIdempotent` | modules/webhook/lambdas/webhook/src/webhook/handler.ts:14-16 | a second run of the loop, enumerating the keys in insertion order, changes nothing |
| `Signature.SignRequestBody` | modules/webhook/lambdas/webhook/src/webhook/handler.ts:8-10 | the signature is `sha1=` and 40 hex digits that read back as the HMAC of the body under the key |
| `Signature.HexByte` | modules/webhook/lambdas/webhook/src/webhook/handler.ts:9 | a byte is written as two lowercase hex digits, high nibble first, that read back as the byte |
| `Signature.Hex` | modules/webhook/lambdas/webhook/src/webhook/handler.ts:9 | `digest('hex')` writes two characters per byte, all lowercase hex digits |
| `Signature.UnhexHex` | modules/webhook/lambdas/webhook/src/webhook/handler.ts:9 | reading back a hex digest gives the digest |
| `Signature.HexUnhex` | modules/webhook/lambdas/webhook/src/webhook/handler.ts:9 | a string that reads back as a digest is that digest's hex encoding |
| `Signature.ParseSignatureCanonical` | modules/webhook/lambdas/webhook/src/webhook/handler.ts:9 | a header reads back as a digest exactly when it is `sha1=` followed by that digest in lowercase hex |
| `Signature.SignatureMatches` | modules/webhook/lambdas/webhook/src/webhook/handler.ts:34-38 | the claimed signature equals the computed one exactly when it carries the HMAC of the body under the secret |
| `Signature.SignatureDeterminesDigest` | modules/webhook/lambdas/webhook/src/webhook/handler.ts:8-10 | two secrets sign a body alike exactly when their HMACs of it are equal |
| `Webhook.HasSignature` | modules/webhook/lambdas/webhook/src/webhook/handler.ts:18-19 | the signature counts as present exactly when the lowercased headers hold `x-hub-signature` with a non-empty value, so `!signature` rejects absent and empty alike |
| `Webhook.Handle` | modules/webhook/lambdas/webhook/src/webhook/handler.ts:12-60 | headers are left normalised; calls happen in the order decrypt, HMAC, send; a missing or empty signature gives 500 with no call; an undefined secret gives 500 with no HMAC; a mismatch gives 401 with no send; exactly one request, with fields from the payload, is submitted iff the event is verified, is `check_run`, `created`, `queued` and has an installation; a missing installation, an unparsable body or a failed send rejects; every other verified event gives 200 with no send |

## Left out

- HMAC-SHA1 (RFC 2104, FIPS 180-4) is a parameter; only its 20-byte output length is used. That different secrets give different signatures is a cryptographic claim and is not proved; `Signature.SignatureDeterminesDigest` reduces it to the digests.
- Timing of the comparison: not expressible, and the code does not compare in constant time.
- KMS decryption, `process.env` reads and the `../kms` module are not part of this model: the secret is an input. A decrypt call that throws instead of yielding `undefined` is not modelled.
- The SQS transport (`../sqs`) is not part of this model: a submission is a recorded call that succeeds or fails.
- `JSON.parse` is a parameter; payload fields other than those read are not modelled, and the payload type's required fields (`check_run`, `repository`, `repository.owner`) are taken as present.
- Console logging and async scheduling: the awaits are sequential calls.
- Header values that are arrays of strings: values are plain strings.
- Case mapping beyond ASCII: header names are ASCII tokens, so `toLowerCase` is modelled on ASCII letters only.
- `for...in` may also visit the keys the loop adds; each such visit writes a value under its own name and changes nothing, which the model does not enumerate separately.
- Headers.LowercaseKeys: treats the header object as a plain dictionary. In JavaScript, a name whose lowercase spelling is `__proto__` (such as `__Proto__`) makes line 15 assign through the inherited `__proto__` setter, which ignores a string, so no own `__proto__` entry is created; the model adds one. Status codes and sends are unaffected.
- Headers.Normalized: for the same reason, lists `__proto__` among the lowercased names when a differently-cased spelling of it was sent, which the JavaScript object does not do.
- Headers.NothingRemoved: its second clause, that every name is also present in lowercase, does not hold in JavaScript for spellings of `__proto__` other than `__proto__` itself.
- Headers.NormalizedIdempotent: holds for a second enumeration in insertion order (the first order followed by the added lowercase names), not for an arbitrary order, because the last spelling enumerated decides the value.
