# Athena common UDFs: compression, clickstream decoding and AES-GCM envelopes

This project models the user-defined functions of `AthenaUDFHandler`, the
Lambda handler behind Athena's `athena_common_udfs` source:

- `compress` / `decompress`: zlib (DEFLATE) compression with Base64 text on
  the compressed side. A `Deflater` or `Inflater` is driven step by step
  into a reused 4096-byte buffer.
- `decompress_clickstream_common_fields`, `_attribute_fields` and
  `_user_fields`: Base64 GZIP text is decompressed and read line by line.
  The lines are joined with no separator, and the result is parsed as a
  JSON list of one record shape and written back.
- `encrypt` / `decrypt`: AES-256-GCM under a key fetched by secret name.
  The envelope is the 12-byte IV followed by the ciphertext and its 16-byte
  tag, carried as Base64 text.

Every public operation returns null for a null first argument, before it
does any other work. For `encrypt` and `decrypt`, that includes not asking
the secrets manager for anything.

Modules:

- `UdfTypes` (`types.dfy`): bytes, `Option` for nullable references,
  `Result` with one `Failure` kind per exception.
- `Base64` (`base64.dfy`): `java.util.Base64`'s basic encoder and decoder.
  - Both use the alphabet of section 4 of RFC 4648.
  - The decoder accepts an unpadded final unit.
  - It rejects a character outside the alphabet, misplaced padding and
    anything after the padding.
  - It does not check the unused low bits.
- `Codec` (`codec.dfy`): `compress` and `decompress` as methods with the
  source's loops.
  - `Deflater` and `Inflater` are classes whose state is the chunks or
    steps their remaining calls produce.
  - The zlib engine itself is a `ZlibEngine` parameter.
- `Clickstream` (`clickstream.dfy`):
  - a `BufferedReader` class whose `ReadLine` follows `readLine`'s rules
    for "\n", "\r\n" and a lone "\r";
  - the line-joining loop, proved to delete every line break;
  - the three wrappers, as one method taking the record shape.
- `AeadEnvelope` (`envelope.dfy`):
  - `encrypt` and `decrypt` as methods over a `SecretsManager` class, which
    records every request, and a `ByteBuffer` class over an array;
  - the GCM parameter specs;
  - AES-GCM as an `Aead` parameter.

The engines the source calls (zlib, GZIP with UTF-8 decoding, Jackson,
AES-GCM) are function-valued parameters. The properties that need them
state their hypotheses as predicates:

- `ZlibEngine.DeflateFits` and `ZlibEngine.InflateFits`: no call writes
  more than the 4096-byte buffer holds.
- `InflateStops`: the inflater halts on the decoded input. A step halts it
  when it throws, finishes the stream, or writes nothing into a non-empty
  buffer. Every inflater run over finite input halts, so this holds of
  `java.util.zip` too. It is required of that one input, not of the engine.
- `ZlibEngine.Inverts`: inflating what was deflated finishes with the
  original bytes.
- `Aead.Valid`: under a 256-bit key, open undoes seal, seal adds a 16-byte
  tag, and input too short for a tag is rejected.

## Model

All source cells are lines of
`athena-udfs/src/main/java/com/amazonaws/athena/connectors/udfs/AthenaUDFHandler.java`.

| member | source | states |
|---|---|---|
| Base64.SextetOf | athena-udfs/src/main/java/com/amazonaws/athena/connectors/udfs/AthenaUDFHandler.java:142 | a character the decoder accepts is the alphabet character of the index it maps to |
| Base64.Encode | athena-udfs/src/main/java/com/amazonaws/athena/connectors/udfs/AthenaUDFHandler.java:126 | the encoder writes 4 characters for every started group of 3 bytes, padding included |
| Base64.DecodeEncode | athena-udfs/src/main/java/com/amazonaws/athena/connectors/udfs/AthenaUDFHandler.java:126-142 | decoding what the encoder wrote gives back exactly the bytes, for every byte string |
| Base64.EncodeInjective | athena-udfs/src/main/java/com/amazonaws/athena/connectors/udfs/AthenaUDFHandler.java:310 | two byte strings with the same Base64 text are equal |
| Base64.DecodeRejectsDanglingCharacter | athena-udfs/src/main/java/com/amazonaws/athena/connectors/udfs/AthenaUDFHandler.java:142 | a text of length 4n+1 is always rejected, which is IllegalArgumentException in the source |
| Base64.AlphabetPrefix | athena-udfs/src/main/java/com/amazonaws/athena/connectors/udfs/AthenaUDFHandler.java:142 | the number of leading characters of the text that are in the Base64 alphabet: all before it are, the one at it (if any) is not |
| Base64.DecodeAccepts | athena-udfs/src/main/java/com/amazonaws/athena/connectors/udfs/AthenaUDFHandler.java:142 | `Decode` (the JDK basic decoder) succeeds exactly on `Acceptable` texts: alphabet characters followed only by padding, no single dangling character, and one '=' only after three characters of the last unit, two only after two; anything outside the alphabet, misplaced padding or text after the padding is IllegalArgumentException; on success it yields 3 bytes per full unit and 1 or 2 for a partial last unit (unpadded last unit accepted, low bits unchecked) |
| Codec.FirstStop | athena-udfs/src/main/java/com/amazonaws/athena/connectors/udfs/AthenaUDFHandler.java:152-158 | the index it returns is the first inflate call that halts the inflater (a throw, finished(), or zero bytes written), and no earlier call halts it |
| Codec.Deflater.Deflate | athena-udfs/src/main/java/com/amazonaws/athena/connectors/udfs/AthenaUDFHandler.java:113 | deflate writes the next chunk at the start of the buffer, returns its length (at most 4096), leaves the rest of the buffer as it was, and drops it from the pending chunks |
| Codec.Inflater.Inflate | athena-udfs/src/main/java/com/amazonaws/athena/connectors/udfs/AthenaUDFHandler.java:153 | inflate either throws DataFormatException, leaving buffer and flags as they were, or writes the next chunk at the start of the buffer, leaves the rest of the buffer unchanged, and sets finished() and needsInput() |
| Codec.Compress | athena-udfs/src/main/java/com/amazonaws/athena/connectors/udfs/AthenaUDFHandler.java:96-127 | null gives null; otherwise the loop until finished() collects exactly the concatenation of every chunk the Deflater writes, and that is Base64-encoded |
| Codec.CompressDecodes | athena-udfs/src/main/java/com/amazonaws/athena/connectors/udfs/AthenaUDFHandler.java:110-126 | the compressed text Base64-decodes to exactly the Deflater's whole output |
| Codec.DecompressAsWritten | athena-udfs/src/main/java/com/amazonaws/athena/connectors/udfs/AthenaUDFHandler.java:136-174 | as written: null gives null; bad Base64 is IllegalBase64; otherwise the loop's outcome is the source's truncation rule applied to the inflate steps (for a run that does not stall) |
| Codec.Decompress | athena-udfs/src/main/java/com/amazonaws/athena/connectors/udfs/AthenaUDFHandler.java:136-174 | the same loop, corrected: a call that writes nothing ends it with InputTruncated (needsInput()) or DictionaryRequired unless it finished the stream; its outcome is the corrected rule |
| Codec.DrainAsWrittenAt | athena-udfs/src/main/java/com/amazonaws/athena/connectors/udfs/AthenaUDFHandler.java:152-158 | the loop as written stops at the first stopping call: MalformedDeflate if it threw, InputTruncated if it wrote nothing and needs input (even if it finished), otherwise everything written so far |
| Codec.DrainAt | athena-udfs/src/main/java/com/amazonaws/athena/connectors/udfs/AthenaUDFHandler.java:152-158 | the corrected loop: a finishing call always yields everything written so far, and any other halt is MalformedDeflate, InputTruncated or DictionaryRequired |
| Codec.DictionaryIff | athena-udfs/src/main/java/com/amazonaws/athena/connectors/udfs/AthenaUDFHandler.java:152-158 | corrected: DictionaryRequired exactly when the inflater stalls waiting for a preset dictionary |
| Codec.AsWrittenTruncatedIff | athena-udfs/src/main/java/com/amazonaws/athena/connectors/udfs/AthenaUDFHandler.java:154-155 | as written, "Input is truncated" is thrown iff some call writes nothing with needsInput() and every earlier call neither threw, finished nor starved |
| Codec.TruncatedIff | athena-udfs/src/main/java/com/amazonaws/athena/connectors/udfs/AthenaUDFHandler.java:154-155 | corrected: truncation iff that starved call also did not finish the stream |
| Codec.DrainFinishes | athena-udfs/src/main/java/com/amazonaws/athena/connectors/udfs/AthenaUDFHandler.java:152-158 | whenever the inflater finishes, the corrected loop returns exactly what it wrote |
| Codec.AsWrittenFinishes | athena-udfs/src/main/java/com/amazonaws/athena/connectors/udfs/AthenaUDFHandler.java:152-158 | as written, a finishing inflater's output is returned iff the finishing call was not starved; otherwise the result is InputTruncated |
| Codec.EmptyStreamCounterexample | athena-udfs/src/main/java/com/amazonaws/athena/connectors/udfs/AthenaUDFHandler.java:152-158 | the single step that inflates the empty string's zlib stream is rejected as written and gives the empty string when corrected |
| Codec.RoundTrip | athena-udfs/src/main/java/com/amazonaws/athena/connectors/udfs/AthenaUDFHandler.java:89-174 | decompress(compress(s)) == s for every s, given only that inflating the deflater's output finishes with s; the inflater halts on that input (corrected loop) |
| Codec.AsWrittenRoundTrip | athena-udfs/src/main/java/com/amazonaws/athena/connectors/udfs/AthenaUDFHandler.java:89-174 | as written, under the same hypothesis, the run does not stall and the round trip holds iff the inflate call that finishes the stream is not starved, and is InputTruncated otherwise |
| Codec.AsWrittenLoopRunning | athena-udfs/src/main/java/com/amazonaws/athena/connectors/udfs/AthenaUDFHandler.java:152-158 | iterating the source's loop call by call: before the halting call it is still running, having written exactly what the earlier calls wrote |
| Codec.AsWrittenLoopReturns | athena-udfs/src/main/java/com/amazonaws/athena/connectors/udfs/AthenaUDFHandler.java:152-158 | a run that does not stall leaves the loop in the halting call's iteration, with the outcome DrainAsWritten gives |
| Codec.StalledRunHangs | athena-udfs/src/main/java/com/amazonaws/athena/connectors/udfs/AthenaUDFHandler.java:152-158 | a run that stalls (zero bytes, neither finished() nor needsInput()) leaves the source's loop running after any number of iterations |
| Codec.DictionaryStreamCounterexample | athena-udfs/src/main/java/com/amazonaws/athena/connectors/udfs/AthenaUDFHandler.java:152-158 | the preset-dictionary stream's step stalls: the loop as written never returns, and the corrected loop gives DictionaryRequired |
| Clickstream.StripLineBreaks | athena-udfs/src/main/java/com/amazonaws/athena/connectors/udfs/AthenaUDFHandler.java:241-248 | the joined text contains no carriage return or line feed and is no longer than the decompressed text |
| Clickstream.StripAppend | athena-udfs/src/main/java/com/amazonaws/athena/connectors/udfs/AthenaUDFHandler.java:245-247 | deleting line breaks distributes over concatenation, so the text can be joined piece by piece |
| Clickstream.StripIdentityIff | athena-udfs/src/main/java/com/amazonaws/athena/connectors/udfs/AthenaUDFHandler.java:245-247 | joining leaves a text unchanged iff it has no line break |
| Clickstream.LineSplitStrips | athena-udfs/src/main/java/com/amazonaws/athena/connectors/udfs/AthenaUDFHandler.java:245-246 | a line that readLine splits off, followed by the joined rest, is the joined whole text, whichever terminator ended it |
| Clickstream.BufferedReader.ReadLine | athena-udfs/src/main/java/com/amazonaws/athena/connectors/udfs/AthenaUDFHandler.java:245 | readLine returns null iff nothing is left; otherwise the line has no line break and is followed by "\n", "\r\n", a lone "\r" or the end, which is consumed |
| Clickstream.DecompressClickstreamEvent | athena-udfs/src/main/java/com/amazonaws/athena/connectors/udfs/AthenaUDFHandler.java:237-250 | bad Base64 or GZIP fails; otherwise the appended lines are exactly the decompressed text with every line break deleted |
| Clickstream.DecompressClickstreamFields | athena-udfs/src/main/java/com/amazonaws/athena/connectors/udfs/AthenaUDFHandler.java:183-235 | null gives null; otherwise the joined text is parsed as a list of the shape's records and written back, and a parse failure is MalformedJson; a success is exactly what the JSON engine made of the joined text, which has no line break |
| AeadEnvelope.GcmSpecEncryption | athena-udfs/src/main/java/com/amazonaws/athena/connectors/udfs/AthenaUDFHandler.java:323-330 | a 128-bit tag and exactly the 12 random bytes as IV |
| AeadEnvelope.GcmSpecDecryption | athena-udfs/src/main/java/com/amazonaws/athena/connectors/udfs/AthenaUDFHandler.java:318-321 | succeeds iff the envelope has at least 12 bytes, with a 128-bit tag and its first 12 bytes as IV; otherwise ShortCiphertext |
| AeadEnvelope.SecretsManager.GetSecret | athena-udfs/src/main/java/com/amazonaws/athena/connectors/udfs/AthenaUDFHandler.java:268 | the request is logged, and the result is the stored secret or SecretUnavailable |
| AeadEnvelope.ByteBuffer.Allocate | athena-udfs/src/main/java/com/amazonaws/athena/connectors/udfs/AthenaUDFHandler.java:306 | a fresh buffer of the given capacity, all zero bytes, with position 0 |
| AeadEnvelope.ByteBuffer.Put | athena-udfs/src/main/java/com/amazonaws/athena/connectors/udfs/AthenaUDFHandler.java:307-308 | put copies the bytes at the position, moves the position past them and leaves the bytes before and after them alone |
| AeadEnvelope.Encrypt | athena-udfs/src/main/java/com/amazonaws/athena/connectors/udfs/AthenaUDFHandler.java:293-316 | null gives null with no secret request; otherwise exactly one request, and the result is the Base64 of IV followed by the cipher output, or the first failure among secret, key decoding and key length |
| AeadEnvelope.Decrypt | athena-udfs/src/main/java/com/amazonaws/athena/connectors/udfs/AthenaUDFHandler.java:262-281 | null gives null with no secret request; otherwise exactly one request, and the failures come in the source's order: secret, key, Base64 of the text, short envelope, key length, tag |
| AeadEnvelope.FrameSplit | athena-udfs/src/main/java/com/amazonaws/athena/connectors/udfs/AthenaUDFHandler.java:273-275 | splitting an envelope at byte 12 gives back the IV and the cipher output it was built from |
| AeadEnvelope.EncryptFraming | athena-udfs/src/main/java/com/amazonaws/athena/connectors/udfs/AthenaUDFHandler.java:303-311 | encrypt's text decodes to IV followed by the sealed bytes, 12 + plaintext length + 16 bytes in all |
| AeadEnvelope.DecryptInvertsEncrypt | athena-udfs/src/main/java/com/amazonaws/athena/connectors/udfs/AthenaUDFHandler.java:262-316 | decrypt(encrypt(p, s), s) == p whenever encrypt succeeds |
| AeadEnvelope.FreshIvDistinctCiphertexts | athena-udfs/src/main/java/com/amazonaws/athena/connectors/udfs/AthenaUDFHandler.java:323-330 | encrypting one plaintext under two different IVs gives two different texts |
| AeadEnvelope.MissingSecretFailsBoth | athena-udfs/src/main/java/com/amazonaws/athena/connectors/udfs/AthenaUDFHandler.java:268-299 | an unresolvable secret name fails both operations with SecretUnavailable |
| AeadEnvelope.EncryptFailsOnlyForKey | athena-udfs/src/main/java/com/amazonaws/athena/connectors/udfs/AthenaUDFHandler.java:299-343 | encrypt of a non-null plaintext fails iff the secret is missing, not Base64, or not a 256-bit key |
| AeadEnvelope.ShortEnvelopeRejected | athena-udfs/src/main/java/com/amazonaws/athena/connectors/udfs/AthenaUDFHandler.java:272-275 | under a good key, an envelope under 12 bytes is ShortCiphertext, and one of 12 to 27 bytes fails authentication |

## Left out

- The DEFLATE, GZIP, UTF-8 and AES-GCM algorithms are not modelled. Each is a function-valued parameter. The zlib engine is constrained by `ZlibEngine.DeflateFits` (chunks fit the 4096-byte buffer), `ZlibEngine.InflateFits` (likewise for inflate) and `ZlibEngine.Inverts` (inflate undoes deflate); AES-GCM by `Aead.Valid` (open undoes seal, a 16-byte tag, and a text shorter than the tag fails). The GZIP and JSON engines are unconstrained.
- Codec.Decompress: requires `InflateStops` of the decoded input. The engine's steps are a finite list ending at the call that halts the inflater, and every real run has one.
- Codec.DecompressAsWritten: requires `InflateUnstalled` of the decoded input. On a stalled run the source's loop never ends, which a method here cannot do. `Codec.StalledRunHangs` states the hang on the call-by-call loop instead (see Findings).
- The `Inflater` class takes each step once. A stalled inflater repeating its step is modelled only in `CallStep` and `AsWrittenLoop`.
- Codec.Compress: deflate's step sizes are whatever the engine supplies. Only the 4096-byte buffer bound is modelled, not zlib's actual chunking.
- AeadEnvelope.DecryptInvertsEncrypt: stated for the IV and secrets used by encrypt. Tamper detection, a forged tag being rejected, is cryptographic and is not provable here.
- SecureRandom is not modelled. The 12 IV bytes are a parameter of `Encrypt`.
- CachableSecretsManager's caching, expiry and thread safety are not modelled. The secrets manager is a fixed map plus a log of requests.
- Jackson's parsing and writing, and the EventData, EventAttributeData and EventUserData bean mappings, are the `json` parameter. This includes ignoring unknown properties (line 74).
- Character sets are not modelled:
  - `compress`, `decompress`, `encrypt` and `decrypt` work on the bytes of their strings;
  - the clickstream text is a string after UTF-8 decoding;
  - `getBytes()` in the platform charset and malformed-UTF-8 replacement are not modelled.
- The UserDefinedFunctionHandler dispatch, the Lambda request and response, and the constructors (lines 77-87) are outside this model.
- Cipher.getInstance and cipher.init failures other than a key that is not 32 bytes long are not modelled.
- The two `ByteArrayOutputStream.close` IOExceptions (lines 117-122, 164-169) cannot occur and are not modelled.
- Exceptions are not wrapped. The source wraps most of them in RuntimeException; the model keeps each kind apart as a `Failure`.
- A secret string that is not Base64 makes the source throw IllegalArgumentException from the decoder (lines 269, 300). The model calls this `MalformedSecret` and keeps it apart from an unresolvable secret name.
- The three `decompress_clickstream_*` wrappers differ only in their record type. They are one method, `DecompressClickstreamFields`, with a `RecordShape` argument.

## Findings

| source | as written | input that shows it | evidently intended | confidence | as-written member | corrected member |
|---|---|---|---|---|---|---|
| athena-udfs/src/main/java/com/amazonaws/athena/connectors/udfs/AthenaUDFHandler.java:152-158 | after each `inflate` call, zero bytes with `needsInput()` throws "Input is truncated" even when that same call finished the stream | `decompress(compress(""))`: `compress("")` is `eJwDAAAAAAE=` (bytes 78 9C 03 00 00 00 00 01), and one `inflate` call writes 0 bytes, finishes the stream and consumes all input | truncation only when the stream has not finished, so `decompress(compress(""))` is `""` | medium-high, not executed | Codec.DecompressAsWritten, Codec.EmptyStreamCounterexample | Codec.Decompress, Codec.RoundTrip |
| athena-udfs/src/main/java/com/amazonaws/athena/connectors/udfs/AthenaUDFHandler.java:152-158 | a call that writes nothing with neither `finished()` nor `needsInput()` is neither an error nor the end, so the loop calls `inflate` again, which takes the same step forever | `decompress("eLsAAAABAwAAAAAB")`: bytes 78 BB 00 00 00 01 03 00 00 00 00 01, a zlib header asking for a preset dictionary with data after the dictionary id; every `inflate` call returns 0 with `needsDictionary()` true and input left | a call that writes nothing before the stream is finished ends the loop with an error | medium, not executed | Codec.StalledRunHangs, Codec.DictionaryStreamCounterexample | Codec.Decompress, Codec.DictionaryIff |
