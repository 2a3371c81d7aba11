# Verification of fwoop's byte-level algorithms

A Dafny 4.11 model of the stateful cores of the fwoop C++ library, with proofs that they do what their
standards, their callers or their counterparts need. `dafny verify dfyconfig.toml` checks all of it.

Each core is modelled twice. Classes and methods follow the C++ code: the same fields, loops, branches and
return codes, arrays updated in place. Functions give the specification: a reference definition written from
the standard, or the code's own result as a value. Every method is proved to compute its function, and the
lemmas prove the properties of the functions. Reads outside a buffer, exceptions, undefined conversions and
loops that never end are outcomes of their own.

- `Fips180.dfy`, `WordBits.dfy`, `Sha.dfy`, `ShaKnownAnswer.dfy`: the streaming SHA-256 context against FIPS 180-4
  on bit strings, with the constants derived from their description as root fractions, the word functions bit by
  bit, and one digest computed.
- `Rfc7541.dfy`, `HPack.dfy`, `HPackLockstep.dfy`, `HPackIndices.dfy`: the HPACK encoder and its table, against
  a decoder written from RFC 7541.
- `ThreadPool.dfy`, `ThreadPoolRuns.dfy`, `ThreadPoolCalls.dfy`: the thread pool as interleaved steps of workers,
  clients, `close` and `wait`.
- `Calendar.dfy`, `DateTime.dfy`: the calendar arithmetic against the Gregorian day count.
- `Protobuf.dfy`: the Protocol Buffers decoder against the wire format's encoding.
- `Json.dfy`, `JsonEncoding.dfy`, `JsonCodec.dfy`: the JSON decoder and encoder; `JsonGrammar.dfy`: every text
  of a grammar is decoded; `JsonDouble.dfy`: the value of a double; `JsonRoundTrip.dfy`, `JsonStuck.dfy`: when
  decoding gives back what was encoded; `JsonText.dfy`, `JsonWritten.dfy`: when the encoding is JSON that means
  the value.
- `Tokenizer.dfy`, `HttpText.dfy`, `HttpRequest.dfy`, `HttpRoundTrip.dfy`, `HttpResponse.dfy`, `HttpWire.dfy`:
  HTTP/1.1 text, with messages as RFC 9110 and RFC 9112 write them.
- `Buffers.dfy`, `CLibrary.dfy`, `Wrappers.dfy`: what stands where in a buffer, the C library calls,
  and optional values.

Where the code does not do what its use needs, the model keeps the code, states exactly when the property
holds, and shows an input for which it fails:

- `SHA256AddLength` sets `Corrupted` on the first carry of the low word, at 2^29 bytes, so later input is
  rejected although the length counter is good for 2^64 bits.
- The packer's keys join name and value with a dash, so `accept: charset` is sent as `accept-charset`; and
  `encodeLength` grows the queue but not `size`: after that the index of each entry it made, and of
  each later entry, is not the one a decoder has the field at, and those of the earlier ones stay right.
- A worker of the thread pool can be woken to an empty queue and pop it, in every pool that has a worker and a
  client; and a job pushed after the last worker has left its loop, by an `enqueue` that overlaps `close`, stays
  in the queue for ever.  A rejected `enqueue` keeps the mutex for ever, and the notifications of `close` and of the
  last worker can be missed.
- `recalculate` misreads 29 February, 31 December of a leap year after midnight, and the first second of a
  year that follows a common year.
- The JSON decoder reads back no empty array, no empty object, no nested object as the encoder prints it, and
  no bare scalar in an array; with an indent it reads back nothing.  The encoder escapes nothing, so what it writes is
  JSON for the value exactly when nothing in it needs an escape.  A negative double loses its sign when decoded.
- `HttpRequest::encode` counts a custom header's name with the length of its value, so longer names run over its
  buffer; `HttpRequest::parse` and `HttpResponse::build` look for the last blank line of the buffer, not the first:
  a header block that is whole in the first buffer, and its body, are read as they are exactly when no blank line
  follows it there.
- The Protocol Buffers decoder keeps four bits of a field number, so fields from 16 on are read as others, and
  passes only the tag of a field of another wire type than 0 and 2.
- A header value is read with its first character cut off when no blank follows the colon, and with blanks of its
  own when more than one does.
- The tokenizer never leaves a string that starts with its delimiter.

## Model

| member | source | states |
|---|---|---|
| Fips180.ConstantsUnique | crypto/fwoop_sha.cpp:21-22 | The description of the constants (first 32 bits of the fractional parts of the roots of the first 64 primes, sections 4.2.2 and 5.3.3 of FIPS 180-4) leaves exactly one pair of tables |
| Fips180.PadInjective | crypto/fwoop_sha.cpp:127-153 | The section 5.1.1 padding is injective: two bit strings below 2^64 bits with the same padding are the same |
| Fips180.DigestStep | crypto/fwoop_sha.cpp:178-237 | Hashing one more block of any padded bit string is one more section 6.2.2 compression of its hash value |
| Sha.TablesAreStandard | crypto/fwoop_sha.cpp:180-188 | Every entry of the code's K and H0 is the root fraction the standard prescribes |
| Sha.BigSigma0IsStandard | crypto/fwoop_sha.cpp:11-13 | The macro SHA256_SIGMA0 is the standard's function |
| Sha.BigSigma1IsStandard | crypto/fwoop_sha.cpp:11-14 | The same for SHA256_SIGMA1 |
| Sha.SmallSigma0IsStandard | crypto/fwoop_sha.cpp:9-15 | The same for SHA256_sigma0 |
| Sha.SmallSigma1IsStandard | crypto/fwoop_sha.cpp:9-16 | The same for SHA256_sigma1 |
| Sha.ChIsStandard | crypto/fwoop_sha.cpp:18 | The same for SHA_Ch |
| Sha.MajIsStandard | crypto/fwoop_sha.cpp:19 | The same for SHA_Maj |
| WordBits.ChBit | crypto/fwoop_sha.cpp:18 | Each bit of Ch is that of y or of z as the bit of x says |
| WordBits.MajBit | crypto/fwoop_sha.cpp:19 | Each bit of Maj is the majority of three |
| WordBits.BigSigma0Bit | crypto/fwoop_sha.cpp:13 | Bit i is the sum modulo 2 of bits i + 2, i + 13 and i + 22, taken modulo 32 |
| WordBits.BigSigma1Bit | crypto/fwoop_sha.cpp:14 | Bit i is the sum of bits i + 6, i + 11 and i + 25 |
| WordBits.SmallSigma0Bit | crypto/fwoop_sha.cpp:15 | Bit i is the sum of bits i + 7 and i + 18 and, below 29, bit i + 3 |
| WordBits.SmallSigma1Bit | crypto/fwoop_sha.cpp:16 | Bit i is the sum of bits i + 17 and i + 19 and, below 22, bit i + 10 |
| ShaKnownAnswer.KnownAnswer | crypto/fwoop_sha.g.cpp:5-24 | The hash of the message of the repository's own test is the digest that test expects: padding, schedule and all sixty-four rounds computed |
| Sha.PaddingRefines | crypto/fwoop_sha.cpp:127-153 | For every byte prefix plus 0 to 7 final bits, the bytes SHA256PadMessage compresses are the section 5.1.1 padding of that bit string, always a multiple of 64 bytes |
| Sha.LengthField | crypto/fwoop_sha.cpp:143-150 | The eight length bytes written from the two counter words are the 64-bit length of the message |
| Sha.FinalByte | crypto/fwoop_sha.cpp:88-113 | Masking and marking turns the 1 to 7 final bits into those bits, the marker bit and zeros |
| Sha.BufferedPush | crypto/fwoop_sha.cpp:76-79 | Storing a byte in the block keeps the invariant that the buffer holds the unprocessed end of the message and the hash value the digest of the rest |
| Sha.BufferedFlush | crypto/fwoop_sha.cpp:79-81 | Compressing a full buffer keeps that invariant with an empty buffer |
| Sha.BufferedLength | crypto/fwoop_sha.cpp:139-152 | A buffer completed by the length bytes and compressed is the digest of the whole padded message |
| Sha.SHA256Context.SHA256Reset | crypto/fwoop_sha.cpp:40-63 | From any state the context is again the one that has taken in nothing |
| Sha.SHA256Context.SHA256Input | crypto/fwoop_sha.cpp:65-86 | The new state and the return code are those of the call machine: rejected calls change nothing, accepted ones append all bits, and Corrupted is set by the first carry of the low length word |
| Sha.SHA256Context.SHA256FinalBits | crypto/fwoop_sha.cpp:88-114 | The same for the final bits: the message is closed with them, or the call is rejected |
| Sha.SHA256Context.SHA256Finalize | crypto/fwoop_sha.cpp:116-125 | The hash value becomes the digest of the padded message, the length and the buffer are cleared |
| Sha.SHA256Context.SHA256PadMessage | crypto/fwoop_sha.cpp:127-153 | Both shapes, one block and two, leave the digest of the message with the padding bytes |
| Sha.SHA256Context.SHA256ResultN | crypto/fwoop_sha.cpp:157-168 | The first hashSize bytes of the FIPS 180-4 hash of exactly the bits taken in, whether or not the message was closed before; the rest of the buffer is untouched |
| Sha.SHA256Context.SHA256Result | crypto/fwoop_sha.cpp:155-155 | The whole FIPS 180-4 hash of exactly the bits taken in |
| Sha.SHA256Context.SHA256AddLength | crypto/fwoop_sha.cpp:170-176 | The split 64-bit counter grows by the length; Corrupted becomes 1 exactly on the first carry into the high word |
| Sha.SHA256Context.SHA256ProcessMessageBlock | crypto/fwoop_sha.cpp:178-237 | The eight rotating registers and the in-place schedule compute the section 6.2.2 compression of the buffered block |
| Sha.SHA256Context.PrepareSchedule | crypto/fwoop_sha.cpp:194-201 | The two schedule loops fill W with the message schedule of the block |
| Sha.RunTakesAccepted | crypto/fwoop_sha.cpp:65-168 | Over every sequence of Reset, Input, FinalBits and Result calls the bits hashed are those of the calls since the last Reset that were not answered with an error |
| Sha.ClosedStaysClosed | crypto/fwoop_sha.cpp:71-74 | After a Result or accepted FinalBits no call before the next Reset changes the digest |
| Sha.ChunkingIrrelevant | crypto/fwoop_sha.cpp:65-86 | Feeding a message in non-empty chunks hashes the whole message if and only if all chunks but the last stay below 2^29 bytes together |
| Sha.H256 | crypto/fwoop_sha.cpp:24-36 | Returns 0 exactly for 1 to 2^29 - 1 bytes, and then the digest is the FIPS 180-4 hash; otherwise 1 and the digest buffer is untouched |
| HPack.StaticTablesAgree | http/fwoop_httphpacker.cpp:7-69 | Every key of the static table is the name, or name-value, of the static entry of its index |
| HPack.LengthIsExact | http/fwoop_httphpacker.cpp:73-126 | From any two tables with the same keys, as any mix of encode and encodeLength leaves them, the computed length is the number of octets the next encode writes, and the keys stay the same |
| HPack.LengthAdditive | http/fwoop_httphpacker.cpp:107-126 | Lengths add up over list concatenation with the table threaded through |
| HPack.EncodingMakesKnown | http/fwoop_httphpacker.cpp:141-184 | Encoding a list makes each of its fields known and forgets none |
| HPack.KnownCostsOne | http/fwoop_httphpacker.cpp:141-154 | A list of known fields costs one octet each and leaves the table alone |
| HPack.ReencodingCostsOne | http/fwoop_httphpacker.cpp:141-184 | Encoding a list a second time costs exactly one octet per field and changes nothing |
| HPack.HttpHPacker.GetFieldLength | http/fwoop_httphpacker.cpp:73-105 | Computes the length function and the table after it, branch by branch |
| HPack.HttpHPacker.EncodeLength | http/fwoop_httphpacker.cpp:107-115 | Sums modulo 2^32 and keeps the grown table |
| HPack.HttpHPacker.GetEncodedLength | http/fwoop_httphpacker.cpp:117-126 | Sums modulo 2^32 on a copy: the packer is unchanged |
| HPack.HttpHPacker.EncodeOne | http/fwoop_httphpacker.cpp:128-185 | Writes exactly the octets of one field at the offset, nothing else, and updates queue, lookup and size |
| HPack.HttpHPacker.Encode | http/fwoop_httphpacker.cpp:187-199 | The buffer sized by getEncodedLength is filled exactly with the octets of the whole list |
| HPackLockstep.TableInvariantKept | http/fwoop_httphpacker.cpp:163-183 | Encoding a field keeps indexLookup the inverse of queue position and size the queue length |
| HPackLockstep.IndicesNameEntries | http/fwoop_httphpacker.cpp:148-153 | Over every run of encode calls keys are distinct and each dynamic index lies in 62..61+size and, counted from the newest entry (section 2.3.3 of RFC 7541), names its key |
| HPackLockstep.EncodeLengthBreaksIndices | http/fwoop_httphpacker.cpp:107-115 | After one encodeLength on a new packer the next encode of that field is an index into the static table, decoded as its last entry |
| HPackLockstep.FieldRecovered | http/fwoop_httphpacker.cpp:128-185 | In lockstep, an RFC 7541 decoder reads one encoded field, consumes exactly its octets and recovers the field if and only if it keeps the run alias-free |
| HPackLockstep.LockstepKept | http/fwoop_httphpacker.cpp:128-185 | The relation between encoder table and decoder table is kept by every alias-free field |
| HPackLockstep.BlockRecovered | http/fwoop_httphpacker.cpp:187-199 | The same for a whole header block |
| HPackLockstep.LockstepRoundTrip | http/fwoop_httphpacker.cpp:187-199 | For every run of encode calls with short fields and a small table, an RFC 7541 decoder that starts empty recovers exactly the header lists if and only if the run is alias-free, and then ends with the encoder's table |
| HPackLockstep.StaticHitFaithful | http/fwoop_httphpacker.cpp:141-146 | A hit on a static entry without a value is always another field's; a hit on one with a value is by its own key |
| HPackLockstep.AliasExample | http/fwoop_httphpacker.cpp:141-146 | accept: charset is taken for accept-charset |
| HPackLockstep.WideIndexMisread | http/fwoop_httphpacker.cpp:148-153 | The 66th entry from the newest gets index 127, whose octet a decoder does not take for a whole field |
| HPackIndices.TracksTheTable | http/fwoop_httphpacker.cpp:107-199 | The tracked table is the one encode and encodeLength leave |
| HPackIndices.IndexNamesEntry | http/fwoop_httphpacker.cpp:148-153 | The index of the key at a queue position names its field among the fields encode has added, newest first, if and only if encodeLength made none of the entries up to that position |
| HPackIndices.MixedIndices | http/fwoop_httphpacker.cpp:107-199 | Over every mix of encode and encodeLength calls on a new packer keys are distinct, size counts the entries encode made, and exactly the keys with no entry of encodeLength at or before them are indexed rightly |
| HPackIndices.HitDecodes | http/fwoop_httphpacker.cpp:148-153 | A decoder that holds the encoded fields reads the octet of such a key as its field under exactly that condition, while the index fits the octet and no static entry is the very field |
| HPackLockstep.DecodeWrittenString | http/fwoop_httphpacker.cpp:156-181 | A written string is read back whole if and only if it has at most 126 octets |
| HPackLockstep.NewLiteralRead | http/fwoop_httphpacker.cpp:156-185 | A field in neither table is decoded to itself, or to its value with the name of the static entry its name is found at, with all its octets read and the entry added, if and only if each string written for it has at most 126 octets |
| HPackLockstep.LongNameRejected | http/fwoop_httphpacker.cpp:172-175 | A new name of 128 to 255 octets makes the block undecodable |
| ThreadPool.InvariantStarts | basis/fwoop_threadpool.h:40-46 | The invariant holds of a new pool |
| ThreadPool.InvariantKept | basis/fwoop_threadpool.h:50-111 | Each step of each thread keeps mutual exclusion, FIFO order, the tickets of popped jobs, the counters and the start-before-stop rule |
| ThreadPool.EveryRunKeepsInvariant | basis/fwoop_threadpool.h:50-111 | In every interleaving the accepted jobs are, in order, the popped ones followed by the queue, each popped job is with one worker or ran once, and the stop flag is up only after all workers started |
| ThreadPool.DisciplinedRunKeeps | basis/fwoop_threadpool.h:57-76 | With enqueues before close, a worker leaves its loop only when the pool is stopping and the queue is empty |
| ThreadPool.WaitReturnsWhenAllDone | basis/fwoop_threadpool.h:101-111 | On a pool with a worker and enqueues before close, when wait has returned the queue is empty and every accepted job ran to completion exactly once, in every interleaving without a fault |
| ThreadPool.FinishedStaysDrained | basis/fwoop_threadpool.h:57-76 | A finished worker means stopping and an empty queue from then on |
| ThreadPool.FaultsExactly | basis/fwoop_threadpool.h:62-69 | The only faulting step is the pop of an empty queue by a worker that came out of the wait |
| ThreadPoolCalls.CallsGoThrough | basis/fwoop_threadpool.h:78-89 | Over every interleaving that ends with the stop flag down: the jobs a client called enqueue with are, in order, those it put into the queue and the one still pending |
| ThreadPoolCalls.AcceptedArePushed | basis/fwoop_threadpool.h:84 | The accepted jobs are the pushes, one after the other, and nothing else |
| ThreadPoolCalls.StoppedAcceptsNothing | basis/fwoop_threadpool.h:81-83 | Once the flag is up and no client stands between its test and the push, no run accepts anything |
| ThreadPoolCalls.RejectedWhenStopping | basis/fwoop_threadpool.h:80-83 | A call that meets the flag is rejected: queue and accepted jobs stay, and so does the mutex with its client |
| ThreadPoolCalls.RejectionKeepsMutex | basis/fwoop_threadpool.h:80-83 | After a rejected call no thread ever gets the mutex of the pool again, in any interleaving |
| ThreadPoolCalls.NotifyAllWakes | basis/fwoop_threadpool.h:74-98 | After the notification of a finished worker, and after that of close, nobody waits |
| ThreadPoolCalls.NotifyOneWakes | basis/fwoop_threadpool.h:86 | The notification of enqueue wakes one thread if any waits, and nobody else |
| ThreadPoolCalls.StartWakesCloser | basis/fwoop_threadpool.h:52-56 | A worker that starts wakes close |
| ThreadPoolCalls.CloseWakesAllBut | basis/fwoop_threadpool.h:57-64 | close wakes every worker, and a worker can sleep again after that if and only if it had read the flag before and stood with the mutex before an empty queue |
| ThreadPoolCalls.ClosedStaysAwake | basis/fwoop_threadpool.h:57-69 | Any other worker never sleeps again, in any interleaving |
| ThreadPoolCalls.LastNotification | basis/fwoop_threadpool.h:74-75 | When all workers are finished, the waiter can sleep again after the last notification if and only if it had read the count before and not yet released the mutex |
| ThreadPoolRuns.FaultsExactlyWithClients | basis/fwoop_threadpool.h:57-69 | A new pool can come to pop an empty queue, in some interleaving, if and only if it has a worker and a client; where wake-ups can be spurious, if and only if it has a worker |
| ThreadPoolRuns.LateNotificationFaults | basis/fwoop_threadpool.h:62-87 | In every pool with a worker and a client, without a spurious wake-up: the worker takes the job between the client's unlock and its notification, and is woken to an empty queue |
| ThreadPoolRuns.JobsLeftBehind | basis/fwoop_threadpool.h:57-88 | In every interleaving, when all workers have left their loop the queue holds exactly the jobs pushed after the last one left |
| ThreadPoolRuns.WaitLeavesLateJobs | basis/fwoop_threadpool.h:57-111 | When wait has returned, whatever the callers did: every accepted job was popped in order and ran exactly once, or was pushed after the last worker left its loop; the queue is empty if and only if there was no such push |
| ThreadPoolRuns.OverlappingCloseLosesAJob | basis/fwoop_threadpool.h:78-99 | One worker, one client and a close that overlaps its enqueue reach such a push: wait returns and the accepted job never runs |
| Calendar.MomentExists | basis/fwoop_datetime.cpp:38-79 | Every instant since the epoch is one valid date and second of the day of the Gregorian calendar |
| Calendar.MomentUnique | basis/fwoop_datetime.cpp:38-79 | No two of them are the same instant |
| DateTime.DateTime.constructor | basis/fwoop_datetime.cpp:36-36 | A new object shows what recalculate computes of its time |
| DateTime.DateTime.Recalculate | basis/fwoop_datetime.cpp:38-79 | The fields become those of the specification function, the time is kept |
| DateTime.DateTime.SubtractYears | basis/fwoop_datetime.cpp:44-51 | The year loop ends, with the year, seconds and days of the year function |
| DateTime.DateTime.SubtractMonths | basis/fwoop_datetime.cpp:53-63 | The month loop ends, with the month, seconds and days of the month function |
| DateTime.YearLoopEnds | basis/fwoop_datetime.cpp:44-51 | Where the year loop ends for every moment: at its year, or a year short at the stroke of a year, or a year beyond on the last day of a leap year |
| DateTime.MonthLoopEnds | basis/fwoop_datetime.cpp:53-63 | Where the month loop ends, 29 February included |
| DateTime.RecalculatedExactly | basis/fwoop_datetime.cpp:38-79 | For every UTC instant the fields show its calendar date and time if and only if it is not on 29 February, not after midnight on 31 December of a leap year and not midnight of 1 January after a common year; otherwise the weekdays of the day and of the first of the month are (days + 4) mod 7 |
| DateTime.EveryInstant | basis/fwoop_datetime.cpp:38-79 | The same stated for every 32-bit time |
| Protobuf.EncodedVarint | encoding/fwoop_protobuf.cpp:29-43 | The reference varint encoding stands for its number and only its last octet ends it |
| Protobuf.VarintLength64 | encoding/fwoop_protobuf.cpp:29-43 | 64-bit numbers take at most ten octets |
| Protobuf.Message.DecodeUint64 | encoding/fwoop_protobuf.cpp:29-43 | On any up to ten octets: the sum of (octet mod 128) * 128^i modulo 2^64 |
| Protobuf.Message.ScanVarint | encoding/fwoop_protobuf.cpp:56-60 | Finds the last octet of a varint, or reads beyond the buffer |
| Protobuf.Message.TakeTurn | encoding/fwoop_protobuf.cpp:53-79 | One turn of the loop issues the setField call and moves the offset as specified, for every wire type |
| Protobuf.Message.Decode | encoding/fwoop_protobuf.cpp:47-83 | The setField calls and bytesParsed are those of the decoding function, sub-messages rebuilt recursively |
| Protobuf.StepReads | encoding/fwoop_protobuf.cpp:53-79 | One turn reads back one encoded field of any conforming kind |
| Protobuf.NumberRead | encoding/fwoop_protobuf.cpp:63-67 | A number in at most ten octets is read modulo 2^64 |
| Protobuf.TextRead | encoding/fwoop_protobuf.cpp:68-79 | A string is read by its length modulo 2^32 |
| Protobuf.OtherTypesAreEntered | encoding/fwoop_protobuf.cpp:53-62 | Of a field of another wire type only the tag is passed: the next octet is read as a tag |
| Protobuf.FixedWidthField | encoding/fwoop_protobuf.cpp:53-62 | A fixed-width field whose octets are read as two fields |
| Protobuf.DecodeReads | encoding/fwoop_protobuf.cpp:47-83 | Decoding the canonical encoding of any message tree with field numbers below 16 issues its setField calls in order, rebuilds sub-messages and ends at the encoding's end, wherever it stands in memory |
| Protobuf.DecodedIds | encoding/fwoop_protobuf.cpp:49-54 | Whatever the bytes, no field number of 16 or more is reported, in sub-messages neither |
| Protobuf.RoundTripExactly | encoding/fwoop_protobuf.cpp:47-83 | A canonical message, tags encoded as varints, is decoded as itself and to its end if and only if no field number in it, sub-messages included, is 16 or more |
| Protobuf.FieldSixteen | encoding/fwoop_protobuf.cpp:49-55 | The number 0 in field 16 is read as the number 1 in field 0 |
| Protobuf.DecodeComposes | encoding/fwoop_protobuf.cpp:53-80 | Decoding two stretches in one call is decoding each in turn, for any bytes, padded varints and unknown wire types included |
| Protobuf.ConcatenationDecodes | encoding/fwoop_protobuf.cpp:53-80 | A concatenation of well-formed messages decodes to the fields of both |
| JsonCodec.ReadString | encoding/fwoop_json.cpp:32-49 | The scanning loop computes the string function, failures and reads beyond the buffer included |
| JsonCodec.ReadValue | encoding/fwoop_json.cpp:227-267 | Computes the value function in all four branches; a bare scalar reports nothing parsed |
| JsonCodec.JsonArray.Decode | encoding/fwoop_json.cpp:285-329 | d_arr and bytesParsed are those of the array function, on success and on failure |
| JsonCodec.JsonArray.TakeElement | encoding/fwoop_json.cpp:306-328 | One turn of the array loop with everything that ends it |
| JsonCodec.JsonObject.Decode | encoding/fwoop_json.cpp:400-490 | d_valueMap and bytesParsed are those of the object function, on success and on failure |
| JsonCodec.JsonObject.ReadHead | encoding/fwoop_json.cpp:415-432 | A key, a colon and the spaces around them, or where decode gives up |
| JsonCodec.JsonObject.TakeMember | encoding/fwoop_json.cpp:412-488 | One turn of the object loop with everything that ends it |
| JsonCodec.JsonObject.ReadMember | encoding/fwoop_json.cpp:434-478 | The four ways to read a member's value |
| JsonGrammar.StringReads | encoding/fwoop_json.cpp:32-49 | A non-empty quote-free string in quotes is read whole |
| JsonGrammar.IntReads | encoding/fwoop_json.cpp:99-124 | Every decimal text of a 32-bit int is read as that int |
| JsonGrammar.DecimalTokenReads | encoding/fwoop_json.cpp:138-169 | A decimal of up to 255 characters is kept with its whole text |
| JsonDouble.DecodeDouble | encoding/fwoop_json.cpp:138-169 | The two loops accept exactly digits and points after a minus sign or not, and compute the sum of the digits by their factors |
| JsonDouble.DecimalValue | encoding/fwoop_json.cpp:138-169 | Over the reals the sum is the magnitude the decimal prints, and the decimal itself if and only if it has no minus sign or is zero: the sign is lost |
| JsonGrammar.ExponentIsDropped | encoding/fwoop_json.cpp:99-124 | A number with an exponent and no point is read as the digits before the exponent |
| JsonGrammar.ValueReads | encoding/fwoop_json.cpp:227-267 | Every string, array and object of the grammar is read as what it means, with its length as bytesParsed |
| JsonGrammar.ArrayReads | encoding/fwoop_json.cpp:285-329 | The same for arrays, with any white space the decoder skips before the opening bracket, around the elements and before the closing one |
| JsonGrammar.MemberValueReads | encoding/fwoop_json.cpp:434-478 | The same for the value of a member, ints and bools included |
| JsonGrammar.ObjectReads | encoding/fwoop_json.cpp:400-490 | Completeness: every object text of the nested grammar decodes to its tree, the first of several members with one key counting, bytesParsed the length of the text, whatever bytes follow |
| JsonGrammar.FirstMemberCounts | encoding/fwoop_json.cpp:441-472 | Of several members with one key the first gives the value, and the keys of the object are those of the members |
| JsonText.WhiteSpaceIsSpace | encoding/fwoop_json.cpp:292-307 | What RFC 8259 takes for white space is passed over in arrays |
| JsonCodec.EncodeValue | encoding/fwoop_json.cpp:209-225 | Writes exactly the text of the value after what the buffer held |
| JsonCodec.JsonArray.Encode | encoding/fwoop_json.cpp:341-372 | The buffer's first length bytes are the text of the array |
| JsonCodec.JsonObject.Encode | encoding/fwoop_json.cpp:581-637 | The buffer's first length bytes are the text of the object, in the map's order, with the given indent |
| JsonCodec.JsonObject.PutMember | encoding/fwoop_json.cpp:602-629 | Writes a comma, a line feed and indent where there is one, key, colon and value |
| JsonText.ValueIsWritten | encoding/fwoop_json.cpp:183-225 | A value that needs no escape is written as a text of RFC 8259 that means it: nested objects, empty arrays and objects, scalars in arrays and doubles included |
| JsonWritten.EncodedWeight | encoding/fwoop_json.cpp:183-225 | How many characters other than white space the encoder writes, in any order of the members |
| JsonWritten.DocWeight | encoding/fwoop_json.cpp:183-225 | Every text of RFC 8259 that means a value has at least that many, and no more only where nothing needs an escape |
| JsonWritten.EncodingIsJson | encoding/fwoop_json.cpp:581-637 | What JsonObject::encode writes, with any indent, is a JSON text that means the object if and only if no string and no key at any depth needs an escape and every double prints as a number |
| JsonWritten.ValueEncodingIsJson | encoding/fwoop_json.cpp:341-372 | The same for every value, arrays on their own among them |
| CLibrary.DecimalDigits | encoding/fwoop_json.cpp:126-136 | The decimal text of a number is digits that read back as it |
| JsonRoundTrip.TextOfValue | encoding/fwoop_json.cpp:209-225 | What the encoder writes for a plain value is a text of the grammar that means the value |
| JsonRoundTrip.MergedMembers | encoding/fwoop_json.cpp:592-630 | Merging the members of a map in any order without repeated keys gives the map back |
| JsonRoundTrip.PlainObjectReads | encoding/fwoop_json.cpp:581-637 | decode(encode(o)) == o, every byte consumed, for every object with indent 0 whose values are plain: non-empty quote-free strings, 32-bit ints, bools, nested non-empty arrays of such strings |
| JsonRoundTrip.ObjectIsReadable | encoding/fwoop_json.cpp:400-490 | Whatever the bytes, a decoded object holds no empty or quoted string, no unclean key and no scalar in an array, at any depth |
| JsonStuck.ItemStuck | encoding/fwoop_json.cpp:285-329 | After an empty array or a nested object anywhere in an array the decoder stands inside that array's text, or where no loop goes on |
| JsonStuck.ObjectEndsEarly | encoding/fwoop_json.cpp:400-490 | An encoded object with a value that is not plain, or with no member, is left before its last byte |
| JsonStuck.DecodingUndoesEncoding | encoding/fwoop_json.cpp:581-637 | For every object without doubles: decode after encode with indent 0 gives the object back and reads every byte if and only if it has a member, clean keys and plain values |
| JsonStuck.IndentedIsNotRead | encoding/fwoop_json.cpp:606-610 | With an indent decode always stops after the opening brace |
| Tokenizer.Iterator.Advance | basis/fwoop_tokenizer.cpp:26-34 | operator++ on the three fields |
| Tokenizer.Iterator.constructor | basis/fwoop_tokenizer.cpp:16-24 | begin stands on the first token |
| Tokenizer.SplitIsRight | basis/fwoop_tokenizer.cpp:26-39 | The parts of a string: one more than delimiters, none with a delimiter in it, joined they are the string |
| Tokenizer.NextPart | basis/fwoop_tokenizer.cpp:26-39 | An increment goes from one part to the next |
| Tokenizer.IterationVisitsParts | basis/fwoop_tokenizer.cpp:16-44 | Iterating from begin to end visits the parts in order and then stops, if and only if the string does not start with the delimiter |
| HttpText.HeaderEndIs | http/fwoop_httprequest.cpp:71-76 | The header block ends at a blank line exactly when no later blank line exists |
| HttpText.BlockOfPrefix | http/fwoop_httpresponse.cpp:108-117 | For a stream with a blank line at e: the header block of its first n bytes, that blank line whole among them, is what stands before e if and only if they hold no later blank line |
| HttpRequest.HttpRequest.ParseBuffer | http/fwoop_httprequest.cpp:65-108 | Method, path, version, headers, upgrade flag and bytesParsed are those of the parsing function; missing end, std::out_of_range and the endless loop told apart |
| HttpRequest.HttpRequest.ParseHeaderLines | http/fwoop_httprequest.cpp:92-105 | The loop over the iterator collects the fields of the lines of the payload in order |
| HttpRequest.HttpRequest.ParseHeaderLine | http/fwoop_httprequest.cpp:93-104 | One line: skipped, rejected, or appended, with the upgrade flag |
| HttpRequest.HttpRequest.Encode | http/fwoop_httprequest.cpp:110-171 | The buffer of the computed length holds the request text and then zeros, or a write goes beyond it, exactly when the text is longer |
| HttpRequest.EncodingFills | http/fwoop_httprequest.cpp:112-132 | The text is longer than the computed length by the excess of custom names over their values: exactly filled when there are no custom headers |
| HttpRoundTrip.LineReads | http/fwoop_httprequest.cpp:93-99 | A header line is read back; only the last line of a block loses a value's end at a carriage return |
| HttpRoundTrip.RequestLineReads | http/fwoop_httprequest.cpp:82-90 | The three words of the request line are read back for any name, clean path and version text |
| HttpText.EndsThere | http/fwoop_httprequest.cpp:70-76 | The header block is found where it ends if and only if what follows it neither starts with a line end nor holds a blank line |
| HttpRoundTrip.ReadBackIsClean | http/fwoop_httprequest.cpp:78-105 | What parse finds never has a space or line feed in the path, a colon in a name or a line feed in a name or value |
| HttpRoundTrip.NulsKeepEnd | http/fwoop_httprequest.cpp:134-135 | The zeros memset leaves after the text make no blank line |
| HttpRoundTrip.BlockParsesBack | http/fwoop_httprequest.cpp:65-108 | parse reads a header block of any method name and version, and whatever follows it, back as the request exactly when path and headers are clean, the last value has no carriage return and what follows keeps the end |
| HttpRoundTrip.LongNameOverruns | http/fwoop_httprequest.cpp:127-129 | A custom name longer than its value: the text would be read back, but encode writes beyond its buffer |
| HttpRoundTrip.BodyWithoutReturn | http/fwoop_httprequest.cpp:70-76 | A body without a carriage return keeps the end of the header block |
| HttpRoundTrip.ParseUndoesEncode | http/fwoop_httprequest.cpp:65-171 | parse on the buffer encode returns gives back method, path, HTTP/1.1 and all names and values in order, content-length last, with bytesParsed the header block, if and only if path, headers and body are such that the text survives and the custom names are together no longer than their values |
| HttpWire.EncodingIsWire | http/fwoop_httprequest.cpp:110-171 | encode writes the method by its RFC 9110 name, the path, HTTP/1.1, each header as name, colon, space and value in order, the length of a body that is not empty, an empty line and the body |
| HttpWire.WireIsParsed | http/fwoop_httprequest.cpp:65-108 | parse reads a request of RFC 9112 as the method of that name, the path, the version of that text, all fields in order and the upgrade to h2c, if and only if path and fields are clean and what follows keeps the end |
| HttpWire.FirstWordDecides | http/fwoop_httprequest.cpp:78-83 | Whatever the rest of the buffer is, the word before the first space names the method |
| HttpWire.OneBlankIsRead | http/fwoop_httprequest.cpp:93-99 | A field line with any white space after its colon is read as its name and value if and only if that is one blank, or none where the value is empty |
| HttpResponse.HttpResponse.Build | http/fwoop_httpresponse.cpp:100-174 | All fields, the result and bytesParsed are those of the step function, in every state |
| HttpResponse.HttpResponse.TakeBlock | http/fwoop_httpresponse.cpp:119-150 | Version, status, appended headers and content length of a header block, or a crash |
| HttpResponse.HttpResponse.TakeLines | http/fwoop_httpresponse.cpp:132-150 | The loop over the iterator appends the headers of the lines and keeps the last content length |
| HttpResponse.HttpResponse.TakeBytes | http/fwoop_httpresponse.cpp:160-173 | Takes the bytes of the body a buffer has, never beyond the content length |
| HttpResponse.BodyStep | http/fwoop_httpresponse.cpp:160-173 | Each further buffer extends the body to the first content-length bytes of the stream; Done exactly when they are all there |
| HttpWire.StoredName | http/fwoop_httpresponse.cpp:142-147 | A known name is stored in lower case, any other as it is |
| HttpWire.LowerIsAscii | http/fwoop_httpresponse.cpp:142 | Case is that of the ASCII letters |
| HttpWire.LinesStored | http/fwoop_httpresponse.cpp:132-150 | The fields of a response head are stored in order with their values, and the last content length is the number its value prints, or 0 |
| HttpWire.StatusLineReads | http/fwoop_httpresponse.cpp:122-130 | The version and the first word of the reason phrase are read from a status line |
| HttpWire.HeadIsRead | http/fwoop_httpresponse.cpp:107-150 | The header block of a response of RFC 9112, without naming how build reads lines: version, first word of the phrase, every field in order, last content length |
| HttpResponse.HeadStep | http/fwoop_httpresponse.cpp:107-173 | The first buffer gives the header block and starts the body |
| HttpResponse.ChunkIndependent | http/fwoop_httpresponse.cpp:100-174 | For every split of what follows the first buffer: body, headers, each call's result and the total bytesParsed depend on the stream only; Done is returned exactly from the call by which the content length is reached |
| HttpResponse.WholeHeadersRead | http/fwoop_httpresponse.cpp:100-174 | With the header block whole in the first buffer, build reads that block, the body after it up to its content length and no more bytes if and only if no blank line follows in that buffer: whatever the misread bytes say, however few arrive, crashes included |
| HttpWire.ResponseIsRead | http/fwoop_httpresponse.cpp:100-174 | A response of RFC 9112 cut anywhere after its header block is read as its version, phrase word, fields and body up to its content length, and nothing else, if and only if what follows the block in the first buffer keeps its end |
| HttpResponse.FirstBlankLineRead | http/fwoop_httpresponse.cpp:100-174 | For a stream by its first blank line, cut anywhere: read as that block and its body if and only if the blank line is whole in the first buffer and the last one there, unless the first buffer holds a content length above 0 and no blank line |
| HttpResponse.HeadIsRead | http/fwoop_httpresponse.cpp:100-174 | For every cut of every stream: which buffers the header lines are taken from, where build takes the header block to end, and that it then reads what follows up to the content length; or that it crashes, or still waits for headers |
| HttpResponse.EveryCutRead | http/fwoop_httpresponse.cpp:100-174 | For every cut of a stream with a blank line at e: the header block before e and the body after it are what is read, with that many bytes parsed, if and only if the block build takes the buffers to hold is that one and ends there |
| HttpResponse.EverySplitAgrees | http/fwoop_httpresponse.cpp:100-174 | Two ways of cutting the same bytes, the header block found in the first buffer of one and whole in that of the other, come to the same response with the same bytes parsed if and only if no blank line follows it in the other's first buffer |
| HttpResponse.BlankLineInBody | http/fwoop_httpresponse.cpp:108-119 | Cut right after the header block the buffer is read as it should be; uncut it is read the same if and only if no blank line follows the header block in it, for any bytes that follow |
| HttpResponse.BlankLineInBodyExample | http/fwoop_httpresponse.cpp:108-119 | A content length of 4 and a body that is a blank line, for every status line: read with the header block in its own buffer, lost with both in one |
| HttpResponse.CutHeadersAreLost | http/fwoop_httpresponse.cpp:110-158 | A first buffer without the end of the header block and without a content length is taken for the whole response: Done at once, the rest ignored |
| HttpResponse.CutHeadersStartOver | http/fwoop_httpresponse.cpp:110-158 | A first buffer without the end of the header block and with a content length above 0: its headers are kept and the next buffer is read as a header block of its own |

## Left out

- HPackLockstep.LockstepRoundTrip: names and values are at most 126 octets and the table at most 65 entries and 4096 octets, because the encoder writes every integer in one octet and never evicts; NewLiteralRead is the exact bound for the strings of a new field, and LongNameRejected and WideIndexMisread show two ways the run fails beyond it.
- ThreadPool.WaitReturnsWhenAllDone: safety only. Notifications can be missed (ThreadPoolCalls.CloseWakesAllBut and LastNotification say exactly when) and a rejected enqueue keeps the mutex, so no claim is made that wait returns; the counter of active workers is taken to start at 0, although the constructor does not set it.
- ThreadPool.EveryRunKeepsInvariant: the test of the worker's loop reads d_isStopping and the size of the queue without the mutex, and close writes d_isStopping without it (basis/fwoop_threadpool.h:57, 97); a step reads the latest value, as under sequential consistency, so this data race, undefined in C++, is not modelled.
- JsonCodec.JsonObject.Encode: output up to the 32768-byte buffer the encoder starts with; the paths that grow the buffer, and the overflow in them, are not modelled.
- JsonCodec.JsonArray.Encode: the same.
- JsonCodec.EncodeValue: the same; its test against the size of the whole buffer, which never fails for such output, is not modelled.
- JsonStuck.DecodingUndoesEncoding: objects with a double as a member are left out, because std::to_string loses digits; the decoder keeps a double by its text, whose value JsonDouble gives over the reals, without rounding.
- Protobuf.Message.Decode: buffers stay below 2^32 - 2 octets, so 32-bit offsets do not wrap; the virtual setField calls are modelled by a message that records them and a schema that says which strings are sub-messages.
- DateTime.RecalculatedExactly: UTC, offset 0 and no daylight saving time; the conversion of a double out of range to uint8_t, undefined in C++, is taken to wrap, and no claim rests on it.
- Sha.SHA256Context.SHA256Input: the digest and the input do not alias the context's block buffer.
- atoi on the copy decodeInt makes, which has no terminating zero, is read as terminated (encoding/fwoop_json.cpp:115-117).
- std::string and byte buffers are sequences; allocation, ownership, logging and the leak of decodeInt's copy are not modelled.
- Header names of the enumeration are known by their text; the HPACK model takes names already turned into text (http/fwoop_httphpacker.cpp:76-81).
- The reference HPACK decoder has no Huffman coding and no field representations other than the two the encoder uses; the encoder writes neither.
- HttpRequest.HttpRequest.Encode: the computed length is a number, not reduced modulo 2^32, so texts of 4 GB and more are not modelled.
- HttpRequest.HttpRequest.ParseBuffer: buffers stay below 2^32 - 1 bytes, so that npos cut to 32 bits lies beyond every line.
- HttpWire.HeadIsRead: build keeps the first word of the reason phrase as its status and drops the status code, so nothing is said of the code.
- HttpResponse::encode, which is much like HttpRequest::encode, and streamFile.
- A loop of the tokenizer over a string that starts with its delimiter never ends; parse and build are modelled as an outcome of their own there.
- The move and copy constructors of the JSON classes, which copy nothing, and the typed getters.
- New York time zone rules, addSeconds and the other add functions (basis/fwoop_datetime.cpp:88-137).
- HTTP/2 frames, settings and connections, sockets, TLS, DNS, the client, the server, file and random readers, logging and the command-line tools: input and output, or fixed byte layouts.
- The template engine, SVG, metrics encoders and the argument parser.
