# Seven small Chromium components, modelled and verified in Dafny

This project models seven small, sequential pieces of Chromium. It proves
what each one accepts, rejects and keeps.

- **CTAP2 PIN protocol messages** (`Pin`, with `Utf8`, `Cbor`, `Cbc`,
  `Bytes`). Covers:
  - the PIN validator (4 to 63 bytes, valid UTF-8, at least four code
    points, no trailing zero byte);
  - the authenticatorClientPIN command envelope;
  - the parsers for the retries, key-agreement, empty and PIN-token replies;
  - the COSE key checks of sections 7.1 and 13.1.1 of RFC 8152;
  - the 16-byte pinAuth;
  - the reset request.

  CBOR values form an abstract datatype. The CBOR reader and writer, the
  block cipher, HMAC-SHA-256 and the point-on-curve test are function
  parameters.
- **Cache Storage dispatcher** (`CacheStorage`). Covers:
  - the batch-operation validator;
  - the origin check;
  - how the mojo adapters turn backend errors into replies.
- **Weak identifier map** (`WeakIdentifierMap`). It maps objects to
  identifiers in both directions. Its counter wraps from the largest 32-bit
  signed value back to 1.
- **Update-client validators** (`UpdateClient`). Covers:
  - the 5xx test;
  - the brand and installer-attribute checks;
  - the secure-URL filter;
  - the custom installer-error offset.
- **Site-engagement score buckets** (`SiteEngagement`, with `Decimal` for
  the decimal form of a number). Covers:
  - the bucket counts;
  - the percentages reported per bucket;
  - the bucket histogram names.
- **Address-form fill logger** (`AddressFormEventLogger`). It is a small
  state machine whose output is the trace of form events it logs.
- **Test sign-in client** (`TestSigninClient`). Covers:
  - the constructor's flags;
  - the sign-out decision;
  - the first-in, first-out queue of delayed network calls.

Each operation is a function or method with a contract. Each contract has a
partner: an inverse (parse after encode, decrypt after encrypt, decode after
encode), an invariant the operation keeps, or an independent reference
definition, tied to it by a lemma.

## Model

| member | source | states |
|---|---|---|
| Pin.IsValidIffText | device/fido/pin.cc:57-66 | A PIN is valid exactly when it is 4 to 63 bytes, decodes as UTF-8 to valid characters, has at least four code points, and its last code point is not zero. |
| Pin.ValidPinIsEncodedText | device/fido/pin.cc:62-66 | A valid PIN is precisely the UTF-8 encoding of the text it decodes to. |
| Pin.EncodedTextIsValidPin | device/fido/pin.cc:62-66 | Any text of at least four valid characters, not ending in U+0000, whose encoding is 4 to 63 bytes, encodes to a valid PIN. |
| Pin.ValidFromText | device/fido/pin.cc:62-66 | A byte string is a valid PIN when it decodes to such a text and has the right byte length. |
| Utf8.AdvancesTimesIffRemaining | device/fido/pin.cc:57-60 | On well-formed UTF-8 the character iterator can advance k times exactly when at least k code points remain. |
| Utf8.FourCodepointsIffDecodedLength | device/fido/pin.cc:57-60 | The four-code-point test holds exactly when the decoded text has at least four code points. |
| Utf8.StepOnWellFormed | device/fido/pin.cc:57-60 | One step of the iterator over well-formed UTF-8 consumes exactly one decoded code point. |
| Utf8.DecodeEncode | device/fido/pin.cc:62-66 | Decoding the UTF-8 encoding of any sequence of Unicode scalar values gives the sequence back. |
| Utf8.EncodeDecode | device/fido/pin.cc:62-66 | A byte string that decodes is the encoding of what it decodes to, so decoding is injective. |
| Utf8.LastByteZeroIffLastCodePointZero | device/fido/pin.cc:62-66 | In well-formed UTF-8 the last byte is zero exactly when the last code point is U+0000, so the byte test and the text test agree. |
| Pin.SubcommandCodeRoundTrip | device/fido/pin.cc:35-41 | Each subcommand's code maps back to that subcommand; codes outside 1..5 name none. |
| Pin.EmplaceAll | device/fido/pin.cc:71-88 | Adding entries to a map never overwrites a key already present, and the first entry with a new key wins. |
| Pin.CommandMap | device/fido/pin.cc:45-52 | A command's map holds protocol version 1 under key 1, the subcommand's code under key 2, and otherwise only the extra entries' keys. |
| Pin.EncodePinCommand | device/fido/pin.cc:71-88 | An encoded PIN command is the authenticatorClientPIN byte followed by the CBOR encoding of the command map. |
| Pin.PinCommandRoundTrip | device/fido/pin.cc:71-88 | Reading an encoded command back gives the subcommand and the map it was built from. |
| Pin.RetriesRequest | device/fido/pin.cc:90-92 | The getRetries request is the command byte followed by the map {1: 1, 2: 1}. |
| Pin.KeyAgreementRequest | device/fido/pin.cc:122-124 | The getKeyAgreement request is the command byte followed by the map {1: 1, 2: 2}. |
| Pin.ResetRequest | device/fido/pin.cc:396-398 | A reset request is the single authenticatorReset byte. |
| Pin.ResetIsNotPinCommand | device/fido/pin.cc:396-398 | A reset request is never read as a PIN command. |
| Pin.ReplyMap | device/fido/pin.cc:97-110 | A reply is refused when empty; otherwise its first byte is skipped, and it is accepted exactly when the rest reads as a CBOR map. |
| Pin.ReplyMapIgnoresStatus | device/fido/pin.cc:97-110 | The status byte never influences what a reply parses to. |
| Pin.ParseRetries | device/fido/pin.cc:97-120 | The retries reply parses exactly when its map holds an unsigned integer under key 3, and the retry count is that integer. |
| Pin.RetriesRoundTrip | device/fido/pin.cc:97-120 | A reply that carries a retry count, with any status byte, parses to that count. |
| Pin.HasCoseParametersAll | device/fido/pin.cc:177-189 | The parameter loop succeeds exactly when every listed label holds the listed integer. |
| Pin.RequiredCoseParametersMeaning | device/fido/pin.cc:177-189 | A COSE key passes the parameter check exactly when it has key type 2, algorithm -25 and curve 1. |
| Pin.ParseCoseKey | device/fido/pin.cc:177-218 | A COSE key is accepted only with the required parameters, 32-byte x and y byte strings under labels -2 and -3, and a point on the curve; every refusal names a failed condition. |
| Pin.ReplyCoseKey | device/fido/pin.cc:155-175 | The key-agreement reply yields a COSE key exactly when its map holds a map under key 1. |
| Pin.ParseKeyAgreement | device/fido/pin.cc:155-218 | A key-agreement reply parses exactly when it holds a map under key 1 that passes the COSE key checks, and the result is that key's coordinates; an empty reply is refused. |
| Pin.KeyAgreementAccepted | device/fido/pin.cc:155-218 | An accepted key agreement came from a COSE key with key type 2, algorithm -25, curve 1, and 32-byte coordinates on the curve, which the result carries. |
| Pin.KeyAgreementRoundTrip | device/fido/pin.cc:155-218 | A reply carrying a well-formed P-256 COSE key parses to exactly that key's coordinates. |
| Pin.PlatformCoseKeyRoundTrip | device/fido/pin.cc:264-272 | A COSE key laid out as the client lays out its own, with algorithm -25, passes the client's own parser and gives back its coordinates. |
| Pin.PlatformCoseKeyAsWrittenRejected | device/fido/pin.cc:264-272 | The client's COSE key as written, with algorithm 2, is refused by the client's own parser whatever its coordinates. |
| Pin.ParseEmpty | device/fido/pin.cc:328-338 | An empty reply parses exactly when the buffer is the status byte alone. |
| Pin.ParseToken | device/fido/pin.cc:443-483 | A token reply parses exactly when key 2 holds a byte string whose length is a whole number of AES blocks; the token then has that length. |
| Pin.TokenRoundTrip | device/fido/pin.cc:443-483 | A token encrypted with AES-CBC under the shared key and a zero IV parses back to that token. |
| Cbc.DecryptEncrypt | device/fido/pin.cc:469-480 | CBC decryption with the block cipher's inverse undoes CBC encryption under the same IV. |
| Pin.PinAuth | device/fido/pin.cc:485-497 | pinAuth is always 16 bytes: the first half of HMAC-SHA-256 of the client-data hash under the PIN token. |
| CacheStorage.ValidBatchOperations | content/browser/cache_storage/cache_storage_dispatcher_host.cc:53-74 | A batch is valid exactly when it is non-empty, every operation has the first one's type, that type is defined, and a delete comes alone. Empty batches and batches starting with an undefined operation are refused. |
| CacheStorage.OriginCanAccessCacheStorage | content/browser/cache_storage/cache_storage_dispatcher_host.cc:46-48 | Only a non-opaque origin may use Cache Storage, and such an origin may exactly when it is secure. |
| CacheStorage.OpenCacheStorage | content/browser/cache_storage/cache_storage_dispatcher_host.cc:434-442 | Storage is opened exactly when the context and its manager exist and the origin may use Cache Storage. |
| CacheStorage.RefusedOriginFindsNothing | content/browser/cache_storage/cache_storage_dispatcher_host.cc:284-303 | For an origin that may not use Cache Storage, asking whether a cache exists always answers "not found". |
| CacheStorage.MatchAllReply | content/browser/cache_storage/cache_storage_dispatcher_host.cc:125-135 | matchAll treats "not found" like success and returns the responses; any other error becomes a status. |
| CacheStorage.MatchAll | content/browser/cache_storage/cache_storage_dispatcher_host.cc:117-147 | matchAll on a closed cache returns an empty list. On an open cache it returns the backend's responses when the backend reports success or "not found", and the backend's error as a status otherwise. |
| CacheStorage.MatchReply | content/browser/cache_storage/cache_storage_dispatcher_host.cc:98-104 | match reports any error as a status; on success it hands on the response as it is, a null one included. |
| CacheStorage.Match | content/browser/cache_storage/cache_storage_dispatcher_host.cc:90-115 | match on a closed cache reports "not found". On an open cache, any backend error becomes the status, and a success hands on the backend's response, null or not. |
| CacheStorage.ClosedHandleMatchVersusMatchAll | content/browser/cache_storage/cache_storage_dispatcher_host.cc:90-147 | On a closed cache, match reports "not found" while matchAll reports an empty list. |
| CacheStorage.Batch | content/browser/cache_storage/cache_storage_dispatcher_host.cc:182-211 | An invalid batch is a bad message and never reaches the cache; a valid one gets "not found" on a closed cache and is otherwise forwarded unchanged. |
| CacheStorage.HasReply | content/browser/cache_storage/cache_storage_dispatcher_host.cc:289-291 | When the cache is absent the answer is "not found", whatever error came in. |
| CacheStorage.Has | content/browser/cache_storage/cache_storage_dispatcher_host.cc:284-303 | has reports "not found" without storage or without the cache. For an existing cache the answer is the backend's error, passed through. |
| WeakIdentifierMap.Empty | third_party/blink/renderer/core/dom/weak_identifier_map.h:66-69 | A new map holds nothing and satisfies the invariant. |
| WeakIdentifierMap.Next | third_party/blink/renderer/core/dom/weak_identifier_map.h:58-64 | The next identifier is always in 1..2^31-1, never 0 or negative; after the maximum it wraps to 1; the counter stores it. |
| WeakIdentifierMap.NextCountsUp | third_party/blink/renderer/core/dom/weak_identifier_map.h:58-64 | Below the maximum the next identifier is the last one plus one. |
| WeakIdentifierMap.Put | third_party/blink/renderer/core/dom/weak_identifier_map.h:71-78 | Put succeeds exactly when the identifier is free; a failed put changes nothing, and a successful one adds the pair to both directions. |
| WeakIdentifierMap.PutKeepsValid | third_party/blink/renderer/core/dom/weak_identifier_map.h:71-78 | A successful put keeps the two directions inverse to each other. |
| WeakIdentifierMap.Lookup | third_party/blink/renderer/core/dom/weak_identifier_map.h:41-43 | Lookup finds an object exactly for identifiers that are in use. |
| WeakIdentifierMap.Identifier | third_party/blink/renderer/core/dom/weak_identifier_map.h:30-39 | A mapped object keeps its identifier and nothing changes. A new object gets the first value the counter hands out that is free: every value handed out before it was taken, and when the counter's next value is free, that value is chosen. The counter is left at the chosen identifier, which is in 1..2^31-1 and added in both directions. Either way, looking the identifier up gives the object. |
| WeakIdentifierMap.DistanceInjective | third_party/blink/renderer/core/dom/weak_identifier_map.h:58-64 | Two identifiers are the same number of counter steps away exactly when they are the same identifier, because the wrapping counter visits each of 1..2^31-1 once per turn. |
| WeakIdentifierMap.DistanceStep | third_party/blink/renderer/core/dom/weak_identifier_map.h:58-64 | Short of a full turn, the value after an identifier is one counter step further away than it. |
| WeakIdentifierMap.SkipTaken | third_party/blink/renderer/core/dom/weak_identifier_map.h:33-37 | When the search meets a taken identifier, it is not the free one, that value joins the known-taken values, and the search moves one step on without passing the free identifier. |
| WeakIdentifierMap.ObjectDestroyed | third_party/blink/renderer/core/dom/weak_identifier_map.h:80-85 | A destroyed object and its identifier leave both directions, and every other entry is unchanged; an unmapped object changes nothing. |
| WeakIdentifierMap.ObjectDestroyedKeepsValid | third_party/blink/renderer/core/dom/weak_identifier_map.h:80-85 | Removing an object keeps the invariant, and lookups of the other identifiers are unchanged. |
| WeakIdentifierMap.ValidSizesAgree | third_party/blink/renderer/core/dom/weak_identifier_map.h:71-85 | Whenever the invariant holds, the two directions have the same size. |
| WeakIdentifierMap.FreeIdentifierExists | third_party/blink/renderer/core/dom/weak_identifier_map.h:33-37 | While fewer than 2^31-1 identifiers are taken, a free one exists, so the search for one ends. |
| UpdateClient.IsHttpServerError | components/update_client/utils.h:53-54 | A status code is a server error exactly when it is in 500..599. |
| UpdateClient.IsValidBrand | components/update_client/utils.h:71-72 | A brand is valid exactly when it is four ASCII letters. |
| UpdateClient.IsValidInstallerAttribute | components/update_client/utils.h:74-77 | An attribute is valid exactly when its name has 1 to 256 characters from [-_a-zA-Z0-9] and its value has at most 256 characters from [-.,;+_=a-zA-Z0-9]. |
| UpdateClient.Matches | components/update_client/utils.h:71-77 | The scan accepts exactly the strings the anchored bounded repetition of one character class matches. |
| UpdateClient.RemoveUnsecureUrls | components/update_client/utils.h:79-80 | No URL without a cryptographic scheme survives the filter. |
| UpdateClient.RemoveUnsecureUrlsCounts | components/update_client/utils.h:79-80 | Every secure URL is kept as many times as it occurred, and every other URL is gone. |
| UpdateClient.RemoveUnsecureUrlsKeepsOrder | components/update_client/utils.h:79-80 | The filter keeps the URLs' order: filtering a list in two parts gives the filtered parts one after the other. |
| UpdateClient.SecureUrlsKept | components/update_client/utils.h:79-80 | A list of secure URLs passes through unchanged. |
| UpdateClient.RemoveUnsecureUrlsIdempotent | components/update_client/utils.h:79-80 | Filtering twice is the same as filtering once. |
| UpdateClient.ToInstallerResult | components/update_client/utils.h:91-101 | A component's error lands at the custom base plus the error, with the given extended error. |
| UpdateClient.ToInstallerResultRoundTrip | components/update_client/utils.h:91-101 | The component's error can be read back from the result, the extended error defaults to 0, and distinct errors give distinct results. |
| SiteEngagement.BucketKeysAscending | chrome/browser/engagement/site_engagement_metrics.cc:19-20 | There are eleven bucket keys, exactly 0, 10, ..., 100, in ascending order. |
| SiteEngagement.LowerBound | chrome/browser/engagement/site_engagement_metrics.cc:97-99 | The lower bound of a score in ascending keys is the smallest key at least the score, or nothing when every key is below it. |
| SiteEngagement.BucketOf | chrome/browser/engagement/site_engagement_metrics.cc:97-101 | The corrected lookup of the finding below, without the cut to an int: a score falls in a bucket exactly when it is at most 100, and the bucket is the smallest key at least the score. |
| SiteEngagement.BucketOfInRange | chrome/browser/engagement/site_engagement_metrics.cc:97-101 | Under the corrected lookup, every score in (10i-10, 10i] lands in bucket 10i. |
| SiteEngagement.BucketOfAsWritten | chrome/browser/engagement/site_engagement_metrics.cc:97-101 | The lookup the source performs truncates the score toward zero first. A score gets a bucket exactly when it is below 101, and the bucket is a key at least the truncated score. |
| SiteEngagement.BucketOfAsWrittenInRange | chrome/browser/engagement/site_engagement_metrics.cc:97-101 | As written, bucket 10i (i in 1..10) takes exactly the scores from 10i-9 up to but excluding 10i+1. |
| SiteEngagement.BucketOfAsWrittenZero | chrome/browser/engagement/site_engagement_metrics.cc:97-101 | As written, bucket 0 takes every score below 1, negative ones included. |
| SiteEngagement.AsWrittenMisplacesFractions | chrome/browser/engagement/site_engagement_metrics.cc:97-101 | The score 10.5 is counted in bucket 10 as written, though the smallest key at least 10.5 is 20. |
| SiteEngagement.AsWrittenAgreesOnWholeScores | chrome/browser/engagement/site_engagement_metrics.cc:97-101 | For whole-number scores the truncating lookup and the intended bucket agree. |
| SiteEngagement.InitialCounts | chrome/browser/engagement/site_engagement_metrics.cc:87-89 | Every bucket key starts with a count of 0, which is the tally of no scores. |
| SiteEngagement.TallyStep | chrome/browser/engagement/site_engagement_metrics.cc:92-102 | Counting one more score raises the count of its bucket under the truncating lookup by one, and leaves the other buckets alone. |
| SiteEngagement.CountBuckets | chrome/browser/engagement/site_engagement_metrics.cc:87-102 | Each bucket's count is the number of scores the truncating lookup puts in it. |
| SiteEngagement.CountsAddUp | chrome/browser/engagement/site_engagement_metrics.cc:92-102 | The bucket counts add up to the number of scores below 101, so never to more than the number of scores. |
| SiteEngagement.FractionsCountedBelow | chrome/browser/engagement/site_engagement_metrics.cc:92-102 | The counting follows the truncation: 10.5 is counted in bucket 10 and not in bucket 20, and 100.5 is counted in bucket 100. |
| SiteEngagement.Share | chrome/browser/engagement/site_engagement_metrics.cc:104-111 | A bucket's share is its percentage of the scores rounded down: v·n ≤ 100·count < (v+1)·n. It lies in 0..100 whenever the count is at most the number of scores. |
| SiteEngagement.SharesBounded | chrome/browser/engagement/site_engagement_metrics.cc:92-111 | Every bucket's reported percentage of the truncating counts lies in 0..100, and the counts never exceed the number of scores. |
| SiteEngagement.RecordEngagementScores | chrome/browser/engagement/site_engagement_metrics.cc:82-113 | No scores yield no samples. Otherwise there is one sample per bucket, in key order, named after the key, whose value is the bucket's count under the truncating lookup times 100, divided by the number of scores. The value is always in 0..100. |
| SiteEngagement.BucketHistogramName | chrome/browser/engagement/site_engagement_metrics.cc:104-106 | A bucket's histogram name is the common base followed by text that parses back to the bucket's key. |
| SiteEngagement.GetEngagementBucketHistogramNames | chrome/browser/engagement/site_engagement_metrics.cc:150-160 | There is one name per bucket key, in key order, each formed from the base and that key. |
| SiteEngagement.BucketHistogramNamesDistinct | chrome/browser/engagement/site_engagement_metrics.cc:150-160 | The eleven names are pairwise distinct, and the i-th name's suffix reads as 10i. |
| Decimal.NumberToString | chrome/browser/engagement/site_engagement_metrics.cc:155-157 | The decimal form of a number is non-empty, all digits, and has a leading zero only for zero itself. |
| Decimal.ParseNumberToString | chrome/browser/engagement/site_engagement_metrics.cc:155-157 | Parsing the decimal form of a number gives the number back. |
| Decimal.NumberToStringInjective | chrome/browser/engagement/site_engagement_metrics.cc:155-157 | Different numbers have different decimal forms. |
| AddressFormEventLogger.Initial | components/autofill/core/browser/metrics/address_form_event_logger.cc:16-21 | A new logger has logged no fill and no events. The constructor leaves the flags to the base logger, whose initial values (no fill logged) are taken as stated here. |
| AddressFormEventLogger.OnDidFillSuggestion | components/autofill/core/browser/metrics/address_form_event_logger.cc:25-54 | A fill records the sync state and logs the fill event matching the record type. On the first fill only, it also logs the matching filled-once event and records whether the data came from the server; later fills leave that alone. |
| AddressFormEventLogger.OnDidSeeFillableDynamicForm | components/autofill/core/browser/metrics/address_form_event_logger.cc:56-60 | Records the sync state and logs exactly the dynamic-form event. |
| AddressFormEventLogger.OnDidRefill | components/autofill/core/browser/metrics/address_form_event_logger.cc:62-65 | Records the sync state and logs exactly the refill event. |
| AddressFormEventLogger.OnSubsequentRefillAttempt | components/autofill/core/browser/metrics/address_form_event_logger.cc:67-71 | Records the sync state and logs exactly the change-after-refill event. |
| AddressFormEventLogger.LogWithSyncState | components/autofill/core/browser/metrics/address_form_event_logger.cc:56-71 | The three single-event handlers append one event, record the sync state, and leave the fill flags alone. |
| AddressFormEventLogger.RunTrace | components/autofill/core/browser/metrics/address_form_event_logger.cc:25-71 | After any sequence of calls on a new logger, each event occurs once per call that logs it, plus one filled-once event for the first fill. The fill flag is set exactly when some fill happened, the server flag follows the first fill, and the sync state is the last call's. |
| AddressFormEventLogger.AtMostOneFilledOnce | components/autofill/core/browser/metrics/address_form_event_logger.cc:43-50 | Across any run, exactly one filled-once event is logged if there was a fill and none otherwise, and it matches the first fill's record type. |
| AddressFormEventLogger.FirstFillIsKept | components/autofill/core/browser/metrics/address_form_event_logger.cc:43-47 | Once a fill is logged the flag never goes back, the server flag is fixed, and earlier events are never changed. |
| TestSigninClient.New | components/signin/core/browser/test_signin_client.cc:15-19 | A new client allows cookies and sign-out, does not delay calls, and has nothing queued. |
| TestSigninClient.PreSignOut | components/signin/core/browser/test_signin_client.cc:29-35 | The decision is to allow sign-out exactly when sign-out is allowed. |
| TestSigninClient.AreSigninCookiesAllowed | components/signin/core/browser/test_signin_client.cc:68-70 | Cookies are reported allowed exactly when the flag says so. |
| TestSigninClient.DelayNetworkCall | components/signin/core/browser/test_signin_client.cc:80-86 | While delayed, a call joins the back of the queue and nothing runs. Otherwise it runs at once and the queue is unchanged. |
| TestSigninClient.SetNetworkCallsDelayed | components/signin/core/browser/test_signin_client.cc:50-58 | Switching delays on runs nothing and keeps the queue; switching them off runs every queued call in order and empties the queue. |
| TestSigninClient.RunAll | components/signin/core/browser/test_signin_client.cc:54-55 | Running the queue appends its calls, front first, to those already run. |
| TestSigninClient.PreGaiaLogout | components/signin/core/browser/test_signin_client.cc:96-100 | The logout callback runs exactly when there is one; with none, nothing changes. |
| TestSigninClient.NetworkCallsFirstInFirstOut | components/signin/core/browser/test_signin_client.cc:50-86 | From a new client, the calls that ran followed by those still queued are exactly the calls submitted, in order. While delays are off the queue is empty. |

## Left out

- Only the CTAP2 PIN, Cache Storage, identifier-map, update-client,
  site-engagement, address-form logger and test sign-in client logic is
  modelled. The guarded-page allocator's POSIX shim,
  components/gwp_asan/client/guarded_page_allocator_posix.cc, only wraps
  `mmap`, `mprotect` and `munmap`, and it is not part of this model.
- ECDH, AES-256-CBC block encryption, HMAC-SHA-256, SHA-256 and the
  point-on-curve test are foreign calls into BoringSSL. They are function
  parameters. Only the CBC chaining and zero IV around the block cipher are
  modelled.
- CBOR byte serialisation is not part of this model. CBOR values are a
  datatype, and the reader and writer are parameters. Round trips assume
  the reader reads back what the writer wrote.
- Only the PIN command envelope is modelled for the setPIN, changePIN and
  getPINToken request encoders. Their payloads need a fresh random ECDH
  key, AES and HMAC, which are outside the model. The one exception is the
  layout of the client's own COSE key, kept for the finding below.
- Constants the shown files use but define elsewhere are taken as follows:
  - the PIN length bounds, 4 and 63 bytes;
  - the command bytes, 0x06 and 0x07;
  - the AES block size, 16;
  - the SHA-256 digest size, 32;
  - the custom installer-error base, 100;
  - the 32-bit signed identifier type.
- `base::IsStringUTF8` is modelled as well-formed UTF-8 whose code points
  are all valid characters. Valid characters exclude surrogates and the
  noncharacters U+FDD0..U+FDEF and U+xFFFE/U+xFFFF.
- The UTF-8 iterator's behaviour on ill-formed input is not modelled. Its
  only caller checks well-formedness first.
- UMA and UKM histogram emission, `base::RecordAction` and the UKM
  fill logger are side effects outside the model. The model keeps only the
  bucket counts, the samples and the trace of logged form events.
- SiteEngagement: the "score is zero" epsilon histogram is floating-point
  reporting with no effect on the buckets, so it is left out. Scores are
  exact reals.
- SiteEngagement.BucketOfAsWritten: a score too large for `int`, where the
  truncating conversion is undefined, is not modelled.
- SiteEngagement.Share / SiteEngagement.RecordEngagementScores: counts and
  products are unbounded integers. In the source a bucket count is an `int`,
  and `count * 100` is also computed in `int` before it is converted to
  `size_t` for the division. That signed `int` overflow is not modelled: the
  increment, and `count * 100` once a bucket holds more than 21,474,836
  scores. The stated bounds hold only while the counts stay below that.
- SiteEngagement.BucketOf: the corrected lookup is proved on its own
  (BucketOfInRange), but the bucket counts and samples are stated only for
  the lookup as written. A corrected counting pipeline is not modelled.
- WeakIdentifierMap: garbage collection of weak members is modelled only
  as explicit `ObjectDestroyed` calls. `SetLastIdForTesting` and the size
  query for tests are left out.
- WeakIdentifierMap.Identifier: requires a free identifier to exist for a
  new object. When all 2^31-1 identifiers are taken, the source's search
  loops forever.
- WeakIdentifierMap.Put: requires the object to be unmapped. The source
  asserts this with a `DCHECK` after inserting.
- Several Cache Storage adapters are mojo plumbing with no validation, so
  they are left out:
  - the two keys adapters;
  - delete, open and set-side-data;
  - the storage-wide match.

  Their error mapping follows the same patterns as the modelled match,
  matchAll and has. The backend is a function parameter. `MakeErrorStorage`
  is modelled as the storage error code.
- The callbacks of the test sign-in client are opaque values. Running one
  is recorded by appending it to the list of calls that ran. A callback
  that re-enters the client is not modelled.
- UpdateClient.IsValidBrand: `^[a-zA-Z]{4}?$` is read with standard
  regular-expression semantics. A `?` after `{4}` only makes the repetition
  lazy, so exactly four letters are required. The implementation file is
  not part of this model. A reading that made the four letters optional
  would also accept the empty brand.
- UpdateClient.IsHttpServerError: only its documented meaning, a status in
  the 5xx class, is modelled. Its implementation is not part of this model.
- UpdateClient.RemoveUnsecureUrls: a URL is modelled by its scheme alone,
  and only https and wss count as cryptographic. URL parsing and
  canonicalisation are left out.
- UpdateClient.ToInstallerResult: the enum-to-int cast is modelled as an
  unbounded integer. The custom base's value comes from a header that is
  not part of this model.

## Findings

| source | as written | input that shows it | evidently intended | confidence | as-written member | corrected member |
|---|---|---|---|---|---|---|
| device/fido/pin.cc:264-272 | The client's own COSE key puts algorithm 2 under label 3 (lines 266-267). The comment beside it names ECDH-ES with HKDF-SHA-256. | Any key the client builds: the client's own key-agreement check (lines 177-189) requires -25 under label 3 and refuses it. | Algorithm -25, as in section 13.1.1 of RFC 8152 and the parser. | medium, not executed | Pin.PlatformCoseKeyAsWrittenRejected | Pin.PlatformCoseKeyRoundTrip |
| chrome/browser/engagement/site_engagement_metrics.cc:97-101 | `lower_bound` on a map with `int` keys converts the `double` score to `int` first, truncating it. | The score 10.5 is counted in bucket 10, and 100.5 in bucket 100. | The smallest bucket key at least the score: bucket 20 for 10.5, and no bucket for 100.5. That is what `lower_bound` on the score means. | medium, not executed | SiteEngagement.AsWrittenMisplacesFractions | SiteEngagement.BucketOfInRange |

The bucket counts, the shares and the recorded samples follow the code as
written, through the truncating lookup. The corrected lookup is defined and
proved beside it, but no counting is built on it.
