# SIWE nonce and address validator — verified model

This project models `verifySiweMessage`, the wallet sign-in validator of the
mini-app. The validator receives a wallet-auth payload and the nonce the
server issued for the session. The payload carries a Sign-In with Ethereum
(SIWE) `message`, a `signature` and an `address`. The validator:

1. checks that the payload, its message, its signature and its address are
   each present and non-empty, in that order;
2. splits the message on `'\n'` and takes the first line starting with `Nonce:`;
3. compares that line's trimmed remainder, exactly, with the expected nonce;
4. reports the lower-cased address, taken from the first `address:` line or,
   failing that, from the payload's `address` field.

The signature is only checked for non-emptiness; no cryptographic
verification happens in this function. The message is not parsed by the
EIP-4361 grammar: the code does ad hoc line-prefix matching, and the model
follows the code.

Files:

- `options.dfy`: `Option`, standing in for fields that may be `undefined`.
- `js_strings.dfy`: the JavaScript primitives the validator calls, over
  `seq<char>`. They are `split` on one character, `startsWith`, `indexOf`,
  first-occurrence `replace`, `trim` (with ECMAScript's whitespace and
  line-terminator set), `toLowerCase`, `Array.prototype.find` with a
  `startsWith` test, and JavaScript truthiness of an optional string.
- `siwe_verify.dfy`: the payload and `VerifyResult` datatypes, the validator,
  and a declarative reference definition (`Meets`). `Meets` states the
  intended result with index quantifiers instead of `find`, `replace` and
  truthiness. The file also has the property lemmas and three worked
  examples (a valid message, a nonce mismatch, a missing nonce line).

The validator is a pure function of its two inputs. The `async` wrapper never
awaits, so the model is a plain function and is deterministic by construction.

A note on behaviour: the expected nonce is not checked for emptiness. With an
empty expected nonce, a message whose first `Nonce:` line has nothing after
the key is accepted (`EmptyNonceAcceptsBareNonceLine`). Nothing in the
repository calls this validator. The sign-in provider in
`my-app/src/app/api/auth/auth.ts` does reject an empty nonce (line 21), but
it then calls the wallet SDK's own `verifySiweMessage` (imported on line 1,
called on line 26), not this one. So the empty-nonce case is not guarded for
callers of this function.

## Model

| member | source | states |
|---|---|---|
| `SiweVerify.VerifySiweMessage` | my-app/src/app/_lib/auth/verify.ts:15-56 | Every result is well shaped: an invalid result has an error and no data, and a valid one has data and no error. A valid result implies all four fields were present, and its address has no upper-case letters. |
| `SiweVerify.VerifyMeetsReference` | my-app/src/app/_lib/auth/verify.ts:15-56 | The validator meets the declarative definition `Meets`. The first missing field decides the error. Otherwise the first `Nonce:` line decides validity, by exact equality of its trimmed value, and the address comes from the first `address:` line or the payload. |
| `SiweVerify.ReferenceDeterminesResult` | my-app/src/app/_lib/auth/verify.ts:15-56 | `Meets` admits exactly one result for each input, and that result is the validator's. |
| `SiweVerify.FieldsCheckedInOrder` | my-app/src/app/_lib/auth/verify.ts:20-26 | Each of the four field errors is returned exactly when that field is the first one absent or empty, in the order payload, message, signature, address. |
| `SiweVerify.ErrorTextsDistinct` | my-app/src/app/_lib/auth/verify.ts:20-42 | The five fixed error texts are pairwise distinct, and a nonce-mismatch text equals none of them, so every failure is distinguishable by its text. |
| `SiweVerify.FailureAfterFieldChecks` | my-app/src/app/_lib/auth/verify.ts:28-56 | Once all four fields are present, a result is either valid, the missing-nonce error, or a mismatch error. |
| `SiweVerify.MissingNonceLine` | my-app/src/app/_lib/auth/verify.ts:29-33 | With all fields present, "No nonce found in message" is returned exactly when no line of the message starts with `Nonce:`. |
| `SiweVerify.NonceDecidesValidity` | my-app/src/app/_lib/auth/verify.ts:35-56 | With all fields present and `i` the first `Nonce:` line, the result is valid exactly when that line's trimmed value equals the expected nonce, character for character. |
| `SiweVerify.MessageAddress` | my-app/src/app/_lib/auth/verify.ts:45-51 | The address taken from the message or the payload contains no upper-case letters. |
| `SiweVerify.MessageAddressReported` | my-app/src/app/_lib/auth/verify.ts:45-51 | The extracted address is the lower-cased value of the first `address:` line, or the lower-cased payload address when there is no such line. |
| `SiweVerify.ReportedAddressUnique` | my-app/src/app/_lib/auth/verify.ts:45-51 | The line-by-line description of the reported address allows only one address. |
| `SiweVerify.ValidMeansNonceMatched` | my-app/src/app/_lib/auth/verify.ts:28-43 | A valid result implies all fields were present and the first `Nonce:` line's value equals the expected nonce. |
| `SiweVerify.MismatchErrorNamesBoth` | my-app/src/app/_lib/auth/verify.ts:41 | The mismatch text starts with "Nonce mismatch." and contains both the received nonce and the expected nonce. |
| `SiweVerify.MismatchNamesBothNonces` | my-app/src/app/_lib/auth/verify.ts:38-42 | On a mismatch the result is invalid, and its error contains both the nonce taken from the message and the expected nonce. |
| `SiweVerify.OnlyFirstNonceLineMatters` | my-app/src/app/_lib/auth/verify.ts:29-35 | Two messages whose lines agree up to a `Nonce:` line get the same verdict and error, whatever lines follow. They get identical results when an `address:` line is also among the shared lines. |
| `SiweVerify.SameFoundLine` | my-app/src/app/_lib/auth/verify.ts:30 | `find` returns the same line for two line lists that agree on a prefix containing a matching line. |
| `SiweVerify.SuccessReportsAddress` | my-app/src/app/_lib/auth/verify.ts:45-51 | On success the reported address is the lower-cased value of the first `address:` line, or the lower-cased payload address when no line starts with `address:`. Lower-casing it again leaves it unchanged. |
| `SiweVerify.SignatureContentIgnored` | my-app/src/app/_lib/auth/verify.ts:23-24 | Replacing one non-empty signature with another leaves the result unchanged. |
| `SiweVerify.FoundLineValue` | my-app/src/app/_lib/auth/verify.ts:30-35 | `line.replace(key, "").trim()` applied to the first line found by `key` equals that line with the key cut off and then trimmed. |
| `SiweVerify.ExampleAccepted` | my-app/src/app/_lib/auth/verify.ts:28-56 | Message "Sign in / address: 0xABC...123 / Nonce: abc123XY" with expected nonce "abc123XY" is valid with address "0xabc...123". |
| `SiweVerify.ExampleRejected` | my-app/src/app/_lib/auth/verify.ts:38-42 | The same message with expected nonce "different" is invalid, with the mismatch text for "abc123XY" and "different". |
| `SiweVerify.ExampleNoNonce` | my-app/src/app/_lib/auth/verify.ts:29-33 | A message without a `Nonce:` line is invalid with "No nonce found in message". |
| `SiweVerify.EmptyNonceAcceptsBareNonceLine` | my-app/src/app/_lib/auth/verify.ts:35-51 | With an empty expected nonce, the message "Nonce:" is accepted and the lower-cased payload address is reported. |
| `JsStrings.Truthy` | my-app/src/app/_lib/auth/verify.ts:20-26 | An optional string is truthy exactly when it is present and non-empty, since `undefined` and `""` are the falsy values a string field can take. |
| `JsStrings.StartsWith` | my-app/src/app/_lib/auth/verify.ts:30 | `s.startsWith(p)` holds exactly when `p` is no longer than `s` and the first characters of `s`, as many as `p` has, spell `p`. |
| `JsStrings.Split` | my-app/src/app/_lib/auth/verify.ts:29 | `split("\n")` always yields at least one line, no line contains the separator, and joining the lines with the separator gives back the message. |
| `JsStrings.SplitJoin` | my-app/src/app/_lib/auth/verify.ts:29 | Splitting the join of separator-free lines gives those lines back, so `split` is a bijection onto such line lists. |
| `JsStrings.IndexOf` | my-app/src/app/_lib/auth/verify.ts:35 | `indexOf` returns an occurrence of the pattern, and no occurrence lies before it; None means there is no occurrence at all. |
| `JsStrings.ReplaceFirst` | my-app/src/app/_lib/auth/verify.ts:35 | `replace` leaves the string unchanged when the pattern does not occur. Otherwise the length changes by the length of the replacement minus the length of the pattern; `ReplaceAtFirstOccurrence` gives the contents. |
| `JsStrings.ReplaceAtFirstOccurrence` | my-app/src/app/_lib/auth/verify.ts:35 | When the pattern occurs at `i` and at no earlier position, `replace` keeps the text before `i`, inserts the replacement, and keeps the text after the occurrence. |
| `JsStrings.ReplaceLeadingOccurrence` | my-app/src/app/_lib/auth/verify.ts:35 | Under `startsWith`, replacing the first occurrence of the key by `""` drops exactly the key's characters from the front. |
| `JsStrings.TrimStart` | my-app/src/app/_lib/auth/verify.ts:35 | The result is a suffix of the input, everything dropped is whitespace, and the result does not start with whitespace. |
| `JsStrings.TrimEnd` | my-app/src/app/_lib/auth/verify.ts:35 | The result is a prefix of the input, everything dropped is whitespace, and the result does not end with whitespace. |
| `JsStrings.Trim` | my-app/src/app/_lib/auth/verify.ts:35 | The result is no longer than the input and neither starts nor ends with whitespace. |
| `JsStrings.TrimShape` | my-app/src/app/_lib/auth/verify.ts:35 | What trim keeps is a block of the input with only whitespace before and after it. |
| `JsStrings.TrimOfPadded` | my-app/src/app/_lib/auth/verify.ts:35 | Trim is determined by that decomposition: whitespace, then a trimmed block, then whitespace, trims to the block. |
| `JsStrings.TrimIdempotent` | my-app/src/app/_lib/auth/verify.ts:35 | Trimming twice equals trimming once. |
| `JsStrings.ToLower` | my-app/src/app/_lib/auth/verify.ts:50-51 | The result has the input's length and no upper-case letters. Each character is either unchanged or the lower-case form of an upper-case input letter. |
| `JsStrings.ToLowerFixpoint` | my-app/src/app/_lib/auth/verify.ts:50-51 | Lower-casing leaves a string unchanged exactly when it has no upper-case letters, so lower-casing is idempotent. |
| `JsStrings.FirstIndex` | my-app/src/app/_lib/auth/verify.ts:30 | The index returned points at a line starting with the prefix, and no earlier line starts with it. None means no line does. |
| `JsStrings.FindStartingWith` | my-app/src/app/_lib/auth/verify.ts:46-48 | `find` returns None exactly when no line starts with the prefix. Otherwise it returns a line of the list, and that line starts with the prefix. |
| `JsStrings.FindIsFirst` | my-app/src/app/_lib/auth/verify.ts:30 | When line `i` starts with the prefix and no earlier line does, `find` returns line `i`: the result is the first matching line. |
| `JsStrings.FoundLineIsTruthy` | my-app/src/app/_lib/auth/verify.ts:32 | For a non-empty prefix, the truthiness test on the result of `find` is the same as "a line was found". |
| `JsStrings.FirstIndexOfSharedPrefix` | my-app/src/app/_lib/auth/verify.ts:30 | Line lists that agree on a prefix containing a matching line have the same first matching index, and it lies in that prefix. |

## Left out

- The `catch` block (verify.ts:57-64) is not modelled. With string inputs none of `split`, `find`, `startsWith`, `replace`, `trim` or `toLowerCase` can throw, so the block cannot be reached.
- The `console.error` logging in that block is left out; it is I/O.
- The payload's `status` and `version` fields are not modelled; the validator never reads them.
- Payload fields are modelled as absent or a string. A field of another runtime type (a number, say) is not modelled, since the payload type declares them as strings.
- JsStrings.ToLower: models ASCII lower-casing only, which is weaker than JavaScript's full Unicode `toLowerCase`. Ethereum addresses are ASCII hex, so the property that matters, that the reported address has no upper-case letters, is stated for ASCII letters.
- JsStrings.Trim: characters are Unicode scalar values, while JavaScript strings are UTF-16 code units. Every character `trim` strips is in the Basic Multilingual Plane, so trimming agrees. Code units of unpaired surrogates are not modelled.
- JsStrings.ReplaceFirst: the `$` substitution patterns of a JavaScript replacement string are not modelled. The validator only replaces with `""`.
- Nonce issuance (my-app/src/app/api/nonce/route.ts) is left out: random UUID generation and cookie handling are randomness and I/O. The nonce is an opaque string input to the validator.
- Cryptographic signature verification is not part of this function, and the model does not add it. `SignatureContentIgnored` states that the signature is read only for presence.
- The sign-in provider, the proof-verification route, the wallet and verify buttons, the MiniKit provider, the token dashboard and the configuration files are left out. They wrap external SDKs, remote services, React state or floating-point formatting. The sign-in provider calls the SDK's own `verifySiweMessage`, not this one.
