# Models and proofs for four components of LoungeAct

Four parts of the repository carry its algorithmic weight, and each is modelled here with its own state
and proved against an independent description of what it is for.

* **LZ4 blocks** (`Lz4*.dfy`). The compressor with its hash table, catch-up, word-at-a-time match
  extension, chained matches and overshooting copies works on arrays and is proved to emit a conforming
  block that replays to its input, made of exactly the sequences that its search rules lead to; those rules
  are stated without table or buffers in `Lz4Greedy`. Both decompressors, with their 8-byte wild copies and correction tables,
  are proved to do what functional decoders say, and to stay inside their arrays, on every input on which
  the lengths they add up fit an int; those decoders invert the encoding of every conforming block. The
  configuration is the 64-bit little-endian one (STEPSIZE 8). `Lz4Format` is the block format (LZ4 Block
  Format Description, "Compressed block format" and "End of block restrictions"), `Lz4Copy` the copy macros, `Lz4Word` the De Bruijn byte
  counter on real 64-bit words, `Lz4Encoder` and `Lz4Decoder` the two halves, `Lz4RoundTrip` and
  `Lz4Wrapper` their composition and the grow-and-retry loop.
* **FastCGI records** (`Fcgi*.dfy`). The writer frames bytes into padded records and re-enters itself to
  close; the reader is a state machine that re-enters itself to read the body of a record it is
  interpreting. `FcgiSession` studies all runs of the two writers of a request; `FcgiWriter` implements
  its steps on a buffer. `FcgiStream` says what a reader delivers as a function of the bytes still to come,
  `FcgiReader` implements it for any sizes of the reads and says what one attempt at a request accepts,
  `FcgiDelivery` restates it record by record, and `FcgiRoundTrip` joins both sides. References are to the
  FastCGI Specification 1.0.
* **uthash** (`Uthash*.dfy`). Elements are heap objects that stand in two doubly linked lists at once.
  `UthashOrder` is sorting on sequences, `UthashList` the application-order list and its in-place merge
  sort, `UthashBuckets` and `UthashExpand` the chains and their redistribution, `Uthash` the table, and
  `UthashRuns` the integrity check and all runs of operations. The hash is any function of the key.
* **CouchDB revisions** (`Couch*.dfy`). `CouchTerms` is the term encoding of JSON values and a decoder for
  it, `CouchUnique` what the bytes tell of a value, `CouchRevgen` the recursive serialiser that feeds a
  digest and the revision built from it. The digest is any function of the bytes fed to it.

Where a list or a buffer is updated in place in the C code, the model updates a class or an array; every
such method is tied to a function, and the theorems are about the function. What is on the wire is stated in
numbers and characters of its own beside that, so that a constant of the code cannot be wrong on both sides. Each method that reads or
writes an array is proved to stay inside it.

## What the proofs found

* Both LZ4 decompressors add up literal and match lengths in an int without a bound. Up to 8421505 bytes of
  input (`Lz4Decoder.SmallInputsFit`) that is safe; one byte more can pass its range
  (`Lz4Decoder.LongLengthOverflowsIff`), and what the C code does then is not specified.
* `lz4_decompress` refuses every capacity for an input that no buffer size decodes, for instance a token
  announcing a literal that is missing (`Lz4Wrapper.TruncatedIsNeverEnough`): its buffer grows until
  allocation fails or its size passes the range of an int. `Lz4Wrapper.RetryStopsIff` gives the exact
  condition for a capacity that ends the loop; up to 8421500 bytes of input it is that a single decoding
  attempt with capacity 255*inlen + 12 succeeds (`Lz4Wrapper.SmallInputsRetry`).
* The FastCGI reader sets its skip flag at the header of a record of another request and clears it only
  when it has consumed content. An *empty* foreign record therefore swallows the next record of the
  stream: `FcgiDelivery.EmptyForeignRecordSwallows` is an input, and
  `FcgiDelivery.ReadingDeliversUnlessSwallowed` the exact condition.
* Content in a management record of an unknown type is delivered as stream data:
  `FcgiDelivery.UnknownContentIsDelivered` is an input, and `FcgiDelivery.ReadingDeliversIff` the exact
  condition (`Clean`) beside the first one (`LosesNothing`); both together are the exact condition for the
  delivered records to be the stream's own (`FcgiDelivery.ReadingDeliversOwnRecordsIff`).
* `SetReaderType` forgets the padding that is still to be skipped. Padding behind FCGI_BEGIN_REQUEST is
  taken for a header, the parameters end in an error before the first pair, and the request is accepted
  with its role and no parameters; padding behind the end of the parameters makes standard input fail.
  `FcgiRoundTrip.PaddedBeginLosesParams` and `FcgiRoundTrip.PaddedEndLosesStdin` are inputs, and
  `FcgiRoundTrip.AcceptedAsSentIff` is the exact condition.
* `ReadParams` reports success whenever its stream ends behind a complete pair, in order or in an error, so
  FCGX_Accept_r accepts a connection that breaks off there. `FcgiRoundTrip.AcceptanceIff` gives the exact
  condition on the records, and `FcgiRoundTrip.BrokenOffIsAccepted` a family of inputs. `SetReaderType` then
  opens the stream again with the error still recorded.
* The size of the allocation for a parameter is a sum of ints that overflows for announced lengths of 2^31 - 2
  together and more (`FcgiParams.EntrySizeIff`).
* A reader of STDOUT refuses the first record of STDERR, so output is read back whole if and only if nothing
  was sent on STDERR before STDOUT was closed, which the calls tell: `FcgiRoundTrip.WriterThenReader` and
  `FcgiRoundTrip.NoStderrIff`, with `FcgiRoundTrip.FlushedStderrBreaks` as an input.
* `hash_value` casts every integer below 256 to one byte: -1 and 255 give the same revision. The comment
  block of the same file shows CouchDB using a string term for small integer lists; the code does not, and
  the model follows the code. `CouchUnique.SameBytesIff` gives the exact condition for two documents to
  share their bytes.

## Model

| member | source | states |
|---|---|---|
| Lz4Format.PeriodicIsCopyBack | compress-lz4/lz4/lz4.c:680-708 | bytes that repeat those `offset` positions before them are what a byte-at-a-time overlapping copy of the match writes |
| Lz4Format.Extension | compress-lz4/lz4/lz4.c:401-402 | a run-length extension is one byte for every full 255 and one for the rest |
| Lz4Format.AppendSequence | compress-lz4/lz4/lz4.c:407-440 | one more sequence extends the replayed output by its literals and its copied match, and the encoding by its bytes |
| Lz4Format.SequencesBound | compress-lz4/lz4/lz4.c:239-240 | the encoded size of any sequences, times 255, is at most 256 times the size of what they replay to |
| Lz4Format.EncodedSizeBound | compress-lz4/lz4/lz4.c:316-319 | an encoded block is never larger than isize + isize/255 + 16 for contents of isize bytes |
| Lz4Copy.StrideRepeats | compress-lz4/lz4/lz4.c:680-708 | a word copied from a multiple of the offset behind continues the repetition, overlapping or not |
| Lz4Copy.CorrectionsAddUp | compress-lz4/lz4/lz4.c:652-696 | after dec and dec2table the source stands at the stride, a multiple of the offset at least 8 behind the destination |
| Lz4Copy.ShortOffsetWord | compress-lz4/lz4/lz4.c:689-694 | the 4-byte word copied after the first correction continues the repetition, for every offset from 1 to 7 |
| Lz4Copy.NextStrideRepeats | compress-lz4/lz4/lz4.c:697-708 | every further stride of at most 8 bytes, taken at the corrected distance, continues the repetition |
| Lz4Copy.WildCopyLiterals | compress-lz4/lz4/lz4.c:239-240 | strides of eight that overshoot leave exactly the wanted bytes below the end, and stay inside both arrays |
| Lz4Copy.StartMatch | compress-lz4/lz4/lz4.c:681-696 | the first eight bytes of a match, by 4 single bytes and a corrected word or by one word, are right for every offset of at least 1 |
| Lz4Copy.SecureCopy | compress-lz4/lz4/lz4.c:701-707 | strides up to an end position keep the repetition and never write past eight bytes behind it |
| Lz4Copy.CopyMatch | compress-lz4/lz4/lz4.c:769-797 | the whole match copy succeeds exactly when it fits, and then leaves below its end what the byte-at-a-time copy leaves, for every offset of at least 1 and every length of at least 4 |
| Lz4Word.NbCommonBytesIsTrailingZeroBytes | compress-lz4/lz4/lz4.c:271-273 | for every non-zero 64-bit word the De Bruijn product and table give the number of its trailing zero bytes |
| Lz4Word.CommonBytes | compress-lz4/lz4/lz4.c:416-418 | the trailing zero bytes of the XOR of two loaded words are the leading bytes on which the memory agrees |
| Lz4Word.EqualLeadingBytes | compress-lz4/lz4/lz4.c:416-418 | comparing eight bytes at two positions gives the exact number of equal leading bytes, 8 when all are equal |
| Lz4Greedy.CommonPrefixIsLongest | compress-lz4/lz4/lz4.c:411-424 | the common prefix consists of equal bytes, ends at or before the limit, and cannot be extended |
| Lz4Greedy.BackIsLongest | compress-lz4/lz4/lz4.c:395-396 | the bytes by which a match grows backwards are equal, and neither anchor nor start of the input nor equality allow one more |
| Lz4Greedy.HashIsTopBits | compress-lz4/lz4/lz4.c:237-238 | the hash of four bytes, the first the least significant, is the upper 12 bits, or 13 in the small variant, of their 32-bit product with 0x9e3779b1 |
| Lz4Greedy.TestsMatching | compress-lz4/lz4/lz4.c:392-393 | the distance test and the word comparison of either variant together say that four bytes at most 65535 back are equal |
| Lz4Greedy.LatestIsLast | compress-lz4/lz4/lz4.c:389-391 | the candidate under a hash is the position stored last with it, and 0 when there is none |
| Lz4Greedy.FirstProbes | compress-lz4/lz4/lz4.c:375-385 | the probes of a search: 61 steps of one byte, then 64 of two, then 64 of three |
| Lz4Greedy.SearchIsFirst | compress-lz4/lz4/lz4.c:375-393 | a search ends at the first of its probes, at steps that grow by one every 64, whose candidate matches, and without a match only if no probe before the end zone has one |
| Lz4Greedy.PassedOver | compress-lz4/lz4/lz4.c:389-393 | a probe passes over equal bytes that were stored, and are in reach, only if other bytes with their hash were stored since |
| Lz4Greedy.NothingRepeats | compress-lz4/lz4/lz4.c:375-393 | when no four bytes occur again within reach, the input becomes literals alone |
| Lz4Greedy.EqualBytes | compress-lz4/lz4/lz4.c:373-459 | 14 equal bytes and more become one literal and one match at distance 1 for all but the last five of them |
| Lz4Greedy.EqualBytesSize | compress-lz4/lz4/lz4.c:373-459 | such an input of n bytes takes at most n/255 + 11 bytes |
| Lz4Greedy.FortyZeros | compress-lz4/lz4/lz4.c:606-622 | the eleven bytes that forty zeros become |
| Lz4Encoder.CountMatch | compress-lz4/lz4/lz4.c:411-424 | extension by 8-byte XOR and then 4, 2 and 1 byte advances by exactly the longest common prefix below matchlimit |
| Lz4Encoder.FindMatch | compress-lz4/lz4/lz4.c:375-393 | the loop finds the match that the search should find, or none when it should find none, and leaves in the table the positions it should have stored |
| Lz4Encoder.NeverTruncated | compress-lz4/lz4/lz4.c:465-479 | no position that either variant stores is changed by the width of a table entry, because the U16 table is only used where isize is below LZ4_64KLIMIT |
| Lz4Encoder.Store | compress-lz4/lz4/lz4.c:389-391 | every entry stays the position stored last under its hash, this one included |
| Lz4Encoder.CatchUp | compress-lz4/lz4/lz4.c:395-396 | the match grows backwards exactly as far as it can |
| Lz4Encoder.EmitLiteralExtension | compress-lz4/lz4/lz4.c:401-401 | the loop writes the run-length extension of the literal count |
| Lz4Encoder.EmitMatchExtension | compress-lz4/lz4/lz4.c:428-428 | two 255s at a time and then at most one more come to the same run-length extension |
| Lz4Encoder.EmitLiterals | compress-lz4/lz4/lz4.c:398-405 | token, length and literals are appended, and the overshooting copy stays inside a buffer of the bound's size |
| Lz4Encoder.EmitMatch | compress-lz4/lz4/lz4.c:407-429 | offset, match length and the patched token complete the encoding of one sequence whose length is the longest common prefix |
| Lz4Encoder.ProgressStep | compress-lz4/lz4/lz4.c:395-432 | a sequence for a match of equal bytes keeps the invariant: sequences conform, and their encoding replays the input up to the new anchor |
| Lz4Encoder.NextCandidate | compress-lz4/lz4/lz4.c:434-439 | after position ip - 2 is stored, the candidate is the one stored last with the hash at ip; then ip is stored |
| Lz4Encoder.AfterMatch | compress-lz4/lz4/lz4.c:431-444 | the chunk ends exactly in the end zone; otherwise another match follows at once exactly if the candidate matches |
| Lz4Encoder.MatchChain | compress-lz4/lz4/lz4.c:407-440 | the immediate-match loop emits the sequences that follow the match, with empty literal runs, up to the next search or the end, and keeps the invariant |
| Lz4Encoder.SearchAndEmit | compress-lz4/lz4/lz4.c:373-444 | one round of the main loop emits what a search from the anchor leads to, up to the next search |
| Lz4Encoder.EmitLast | compress-lz4/lz4/lz4.c:447-459 | the last literal run closes the block: the output is the encoding of a conforming block that replays to the whole input |
| Lz4Encoder.CompressCtx | compress-lz4/lz4/lz4.c:327-460 | for either table variant and every accepted input the output is the encoding of a conforming block whose contents are the input and whose sequences are those of the search rules, inside a buffer of the bound's size |
| Lz4Encoder.Compress | compress-lz4/lz4/lz4.c:606-622 | the same for every input, the small variant being chosen below 65547 bytes; 14 equal bytes and more come to at most n/255 + 11 bytes |
| Lz4Decoder.DecodeFrom | compress-lz4/lz4/lz4.c:720-806 | decoding never goes past the input or the capacity, never takes back output, and reports errors at a position already read |
| Lz4Decoder.UncompressUnknownOutputSize | compress-lz4/lz4/lz4.c:720-806 | on every input, conforming or not, on which no length passes the range of the int it is added up in, all accesses are inside the arrays, no int overflows, and the result, a size or a negated error position, is that of the functional decoder; so is the output, unless a zero offset left bytes of it undefined |
| Lz4Decoder.Uncompress | compress-lz4/lz4/lz4.c:637-717 | for every input whose decoding stays inside it and whose lengths fit an int, all accesses are inside the arrays, no int overflows, and the result is that of the functional decoder, bytes read or a negated error position; so is the output, unless a zero offset left bytes of it undefined |
| Lz4Decoder.SmallInputsFit | compress-lz4/lz4/lz4.c:742-767 | up to 8421505 bytes of input, neither decoder ever adds up a length beyond the range of an int |
| Lz4Decoder.LongLengthOverflowsIff | compress-lz4/lz4/lz4.c:746-746 | a token 0xf0 and then only bytes 255 overflow the literal length if and only if they are more than 8421505 bytes |
| Lz4RoundTrip.SequenceRead | compress-lz4/lz4/lz4.c:744-767 | in any encoded conforming block, token, lengths, literals and offset of each sequence are read back, with at least 8 input bytes left behind its literals |
| Lz4RoundTrip.SequenceOutput | compress-lz4/lz4/lz4.c:556-574 | at least 12 output bytes are left behind the literals of each sequence, and its match reaches back into the output |
| Lz4RoundTrip.DecodeFromSequence | compress-lz4/lz4/lz4.c:739-798 | from any sequence boundary of a conforming block and with enough room the decoder restores the rest |
| Lz4RoundTrip.LastBranchExactly | compress-lz4/lz4/lz4.c:749-760 | both decoders, with room or with the exact size, take the branch of the last sequence on exactly the last sequence of a conforming block |
| Lz4RoundTrip.DecodeFromSequenceShort | compress-lz4/lz4/lz4.c:739-806 | with too little room the decoder ends in an error or fills the buffer exactly with a prefix of the contents |
| Lz4RoundTrip.DecodeOfEncode | compress-lz4/lz4/lz4.c:720-806 | decoding an encoded conforming block, of contents whose size an int can hold, with any capacity: the contents and the whole input read when they fit; otherwise an error, or exactly the capacity |
| Lz4RoundTrip.DecodeTrustedOfEncode | compress-lz4/lz4/lz4.c:637-717 | with the exact size, which an int can hold, LZ4_uncompress restores the contents and returns the compressed length |
| Lz4Wrapper.LargerBuffer | compress-lz4/compress-lz4.c:28-36 | what a buffer with room to spare received, every larger one receives |
| Lz4Wrapper.RoomIsEnough | compress-lz4/lz4/lz4.c:739-798 | on every input, from a capacity of 255 times its size plus 12 on, the outcome no longer depends on the capacity, and a successful one leaves room |
| Lz4Wrapper.SmallerBuffer | compress-lz4/lz4/lz4.c:739-798 | decoding with a smaller buffer succeeds and leaves room exactly if the buffer has the capacity needed: the size of the output and one, and eight bytes beyond the end of every literal run before a match |
| Lz4Wrapper.NeededBounds | compress-lz4/lz4/lz4.c:750-797 | the capacity needed is more than the size of the output, and at most eight more |
| Lz4Wrapper.RetryIsSafe | compress-lz4/compress-lz4.c:28-36 | for every input, a try with any capacity either asks for another or comes to what decoding with room comes to, and it asks for another exactly when the input does not decode or the capacity is below the one needed; and no capacity overflows a length that decoding with room does not |
| Lz4Wrapper.RetryStopsIff | compress-lz4/compress-lz4.c:26-36 | for every input, some capacity inlen + inlen/2 + 1024*k that an int can hold ends the loop if and only if one decoding with capacity 255*inlen + 12 succeeds and the first capacity of the sequence from the one needed on fits an int |
| Lz4Wrapper.SmallInputsRetry | compress-lz4/compress-lz4.c:26-36 | up to 8421500 bytes of input no length overflows, and whatever decodes ends the loop at a capacity that fits an int |
| Lz4Wrapper.TruncatedIsNeverEnough | compress-lz4/compress-lz4.c:29-36 | a one-byte truncated input is refused at every capacity |
| Lz4Wrapper.EncodedDecodes | compress-lz4/compress-lz4.c:14-22 | every conforming block's encoding decodes with room to its contents, reading all of it |
| Lz4Wrapper.Compress | compress-lz4/compress-lz4.c:14-22 | the buffer has inlen + inlen/255 + 16 bytes, and holds the encoding of a conforming block of the input; of 14 equal bytes and more at most n/255 + 11 bytes |
| Lz4Wrapper.Decompress | compress-lz4/compress-lz4.c:24-39 | for every input that decodes with room and whose last capacity fits an int, the loop terminates at exactly that capacity, no int overflows, and it returns the size and, unless a zero offset left them undefined, the contents |
| Lz4Wrapper.CompressThenDecompress | compress-lz4/compress-lz4.c:14-39 | the registered pair of functions restores every input for which the capacities tried fit an int, as they do whenever one and a half times the bound, and the size and 1032, fit |
| FcgiRecords.HeaderFields | loungeact_fastcgi/fcgiapp.c:1201-1219 | type, request id, content and padding length are read back from the header that was made of them |
| FcgiRecords.AlignInt8 | loungeact_fastcgi/fcgiapp.c:1272-1274 | the result is the smallest multiple of eight that is at least n |
| FcgiRecords.EndRequestBodyReadBack | loungeact_fastcgi/fcgiapp.c:1231-1243 | the exit status is read back from the first four bytes as far as 32 bits hold it, and protocol status and three zeros follow (section 5.5) |
| FcgiRecords.ParseOfEncode | loungeact_fastcgi/fcgiapp.c:1595-1599 | any sequence of records is read back from its bytes, headers, contents and padding |
| FcgiSession.PutConserves | loungeact_fastcgi/fcgiapp.c:310-341 | the contents of the records sent while a string is put, followed by what stays buffered, are what was buffered followed by the string; each record is non-empty and well framed |
| FcgiSession.CloseSends | loungeact_fastcgi/fcgiapp.c:1326-1358 | closing sends the buffered data, then at most one empty record, and the end of the request if and only if this is the last writer |
| FcgiSession.EndComesLast | loungeact_fastcgi/fcgiapp.c:1344-1357 | when the last writer closes, the end of the request is the last record sent |
| FcgiSession.StepKeepsInvariant | loungeact_fastcgi/fcgiapp.c:887-929 | each put, flush or close keeps the invariant of the session |
| FcgiSession.RunKeepsInvariant | loungeact_fastcgi/fcgiapp.c:1326-1430 | the invariant holds after every interleaving of calls on the two writers |
| FcgiSession.WireIsFramed | loungeact_fastcgi/fcgiapp.c:1386-1430 | after every run the bytes sent parse as whole records, each a multiple of eight bytes long with less than 8 bytes of padding and at most 65528 of content |
| FcgiSession.StreamsCarryWhatWasPut | loungeact_fastcgi/fcgiapp.c:310-341 | the contents of the records of type 6 for STDOUT, or 7 for STDERR, are a prefix of what was put before the close, all of it once closed; the empty record comes last, once, and not at all for an unused STDERR |
| FcgiSession.RequestEndsOnce | loungeact_fastcgi/fcgiapp.c:1344-1357 | a record of type 3 is sent exactly once, when the second writer closes, and is then the last; its four status bytes read back as the exit status that was set last before, and its protocol status is 0 |
| FcgiSession.SmallResponse | loungeact_fastcgi/fcgiapp.c:1201-1242 | the 64 bytes of a response with one byte on each stream and an exit status, for every request id |
| FcgiSession.NothingAfterTheEnd | loungeact_fastcgi/fcgiapp.c:912-929 | once both writers are closed no further call sends anything |
| FcgiWriter.Stream.EmptyBuffProc | loungeact_fastcgi/fcgiapp.c:1386-1430 | what is sent is one padded record of the buffered content, plus the closing records when closing; in raw mode the buffer as it is; afterwards the buffer is empty |
| FcgiWriter.Stream.WriteCloseRecords | loungeact_fastcgi/fcgiapp.c:1326-1358 | what is sent plus what is buffered grows by exactly the closing records, through the re-entrant raw path, and one writer fewer is left |
| FcgiWriter.Stream.PutStr | loungeact_fastcgi/fcgiapp.c:310-341 | log and buffer become those of the session's put for a string of any length; in raw mode the bytes are passed on unframed; a closed stream refuses |
| FcgiWriter.Stream.PutChar | loungeact_fastcgi/fcgiapp.c:282-293 | one byte is put like a string of length one |
| FcgiWriter.Stream.FFlush | loungeact_fastcgi/fcgiapp.c:887-893 | the buffered content is sent as one record, nothing if there is none |
| FcgiWriter.Stream.FClose | loungeact_fastcgi/fcgiapp.c:912-929 | the closing records are sent once; a second close changes nothing |
| FcgiWriter.Stream.SetExitStatus | loungeact_fastcgi/fcgiapp.c:2304-2308 | the status of the request becomes the one given |
| FcgiWriter.Stream.WriteItAll | loungeact_fastcgi/fcgiapp.c:1362-1374 | all bytes are sent in order, however few each write takes |
| FcgiWriter.Stream.constructor | loungeact_fastcgi/fcgiapp.c:1754-1809 | a new writer is empty and its buffer is the wanted size, bounded and rounded up to a multiple of eight, less eight if the allocation is not aligned |
| FcgiWriter.Perform | loungeact_fastcgi/fcgiapp.c:282-341 | one call on either stream, of any kind, is one step of the session |
| FcgiWriter.Serve | loungeact_fastcgi/fcgiapp.c:2250-2254 | from two new streams, however their buffers are aligned, and after any calls the connection has received exactly the records of the session's run |
| FcgiParams.LengthRoundTrip | loungeact_fastcgi/fcgiapp.c:1149-1168 | one- and four-byte lengths are read back for every length below 2^31 |
| FcgiParams.LengthBytes | loungeact_fastcgi/fcgiapp.c:1149-1168 | the bytes of a length in its short and its long form |
| FcgiParams.ParamsRoundTrip | loungeact_fastcgi/fcgiapp.c:1138-1190 | for every list of pairs and every choice of length forms, decoding gives the entries in order, each the name, the character = and the value (section 3.4) |
| FcgiParams.EntrySizeIff | loungeact_fastcgi/fcgiapp.c:1173-1173 | the 32-bit sum that sizes an entry is its size exactly when that fits an int; for two lengths of 2^31 - 1 it is 0 |
| FcgiParams.Params.PutParam | loungeact_fastcgi/fcgiapp.c:1076-1088 | the vector gains one entry at its end and stays terminated, also when it doubles |
| FcgiStream.AheadCut | loungeact_fastcgi/fcgiapp.c:1649-1654 | delivering part of a record's content first changes nothing of what is delivered in all |
| FcgiStream.AheadSkip | loungeact_fastcgi/fcgiapp.c:1655-1662 | the same for skipped content, the flag falling with its last byte |
| FcgiStream.NeverBeginsAtHeader | loungeact_fastcgi/fcgiapp.c:1534-1551 | once a request is accepted no later record begins one |
| FcgiReader.Stream.Refill | loungeact_fastcgi/fcgiapp.c:1631-1644 | reading into an empty buffer leaves the bytes to come unchanged for any size of the read; at their end the code is a protocol error or the error of the connection |
| FcgiReader.Stream.ConsumeRecord | loungeact_fastcgi/fcgiapp.c:1645-1675 | content is delivered or skipped and padding passed without changing what is still to come, and each round uses up input or reaches the end of the record |
| FcgiReader.Stream.FillBuffProc | loungeact_fastcgi/fcgiapp.c:1624-1742 | for any sizes of the reads the loop terminates and makes available, or ends with, exactly what the bytes to come specify, also when confined to one record and when it re-enters itself through a header |
| FcgiReader.Stream.PassRecord | loungeact_fastcgi/fcgiapp.c:1631-1684 | the first part of a round delivers, skips or passes what is left of the record, or fails at the end of the connection, exactly as specified |
| FcgiReader.AnswersIff | loungeact_fastcgi/fcgiapp.c:1494-1551 | told from the bytes of a header alone, which records are answered and with what: a further request with an end-of-request record of protocol status 1, an unknown management record with a record of type 11, nothing else |
| FcgiReader.Stream.ProcessHeader | loungeact_fastcgi/fcgiapp.c:1588-1613 | the status returned and the state left are those of the header's class: refused, foreign, own stream, management, or a new request; the answers are those to the header, and the error is -2 for a wrong version and -3 otherwise |
| FcgiReader.Stream.ProcessBeginRecord | loungeact_fastcgi/fcgiapp.c:1527-1564 | a new request sets id, role and keep-connection flag from the body and stops behind it; with a request accepted the record is answered with FCGI_CANT_MPX_CONN and skipped |
| FcgiReader.Stream.ProcessManagementRecord | loungeact_fastcgi/fcgiapp.c:1454-1507 | FCGI_GET_VALUES is read to its end as parameters or refused; any other type is answered with FCGI_UNKNOWN_TYPE and left unread |
| FcgiReader.Stream.GetChar | loungeact_fastcgi/fcgiapp.c:108-126 | the first byte still to come, or EOF exactly when there is none |
| FcgiReader.Stream.GetStr | loungeact_fastcgi/fcgiapp.c:143-181 | the first n bytes still to come, or all of them at the end of the stream |
| FcgiReader.Stream.ReadParams | loungeact_fastcgi/fcgiapp.c:1138-1190 | the vector gains the entries of the decoded pairs in order; success if and only if the stream ends behind a complete pair; otherwise, if it does not itself end in an error, the error recorded is -4 |
| FcgiReader.Stream.SetReaderType | loungeact_fastcgi/fcgiapp.c:1845-1857 | the stream is open at a record boundary where it stands, whatever padding was pending and whatever error was recorded, which stays recorded; without an error what it will deliver is the new stream from there |
| FcgiReader.Stream.ReadEnvironment | loungeact_fastcgi/fcgiapp.c:2230-2250 | the vector gains the parameters; if they end behind a complete pair the stream is opened for FCGI_STDIN, ready if they ended in order and with the error recorded if they broke off |
| FcgiReader.AcceptRequest | loungeact_fastcgi/fcgiapp.c:2206-2250 | one attempt does what the bytes specify: it is refused; or accepted with the role, the parameters and the standard input to come; or, when the parameters break off in an error behind a complete pair, accepted with those before it and a stream set to read standard input from a record boundary with the error recorded |
| FcgiDelivery.DeliverIsReading | loungeact_fastcgi/fcgiapp.c:1588-1742 | reading the bytes of any records comes to the same as the record-by-record meaning |
| FcgiDelivery.EndsIff | loungeact_fastcgi/fcgiapp.c:1706-1730 | a sequence of records ends properly if and only if its stream's empty record is there and no record before it is refused and no FCGI_GET_VALUES that is read is incomplete |
| FcgiDelivery.ReadingDeliversIff | loungeact_fastcgi/fcgiapp.c:1706-1730 | whenever the stream ends in the records the reader ends properly; without content in unknown management records it delivers its own records' contents if and only if none of them meets a skip flag; and if none meets one, if and only if no unknown management record has content that is not skipped |
| FcgiDelivery.ReadingDeliversOwnRecordsIff | loungeact_fastcgi/fcgiapp.c:1645-1734 | whenever the stream ends in the records, what is delivered is the contents of some of them, and those are exactly the stream's own up to its end if and only if none of these meets a skip flag and no unknown management record that is not skipped has content |
| FcgiDelivery.LosesNothingIff | loungeact_fastcgi/fcgiapp.c:1655-1662 | following the skip flag through the records comes to looking for an empty foreign record with only empty records between it and a non-empty one of the stream |
| FcgiDelivery.ReadingDeliversUnlessSwallowed | loungeact_fastcgi/fcgiapp.c:1706-1730 | without such content, the stream is delivered whole if and only if no non-empty record of it follows an empty foreign one through empty records only |
| FcgiDelivery.EmptyForeignRecordSwallows | loungeact_fastcgi/fcgiapp.c:1723-1725 | an empty record of another request makes the reader lose the one-byte record behind it |
| FcgiDelivery.UnknownContentIsDelivered | loungeact_fastcgi/fcgiapp.c:1733-1734 | one byte of content in a management record of unknown type is delivered as a byte of the empty stream that follows |
| FcgiDelivery.NonEmptySkipsLoseNothing | loungeact_fastcgi/fcgiapp.c:1655-1662 | if every skipped record has content, nothing is lost |
| FcgiDelivery.StreamEndsAt | loungeact_fastcgi/fcgiapp.c:1717-1721 | the stream ends behind the header of its own empty record, with the rest of the connection unread |
| FcgiDelivery.OwnStreamDelivered | loungeact_fastcgi/fcgiapp.c:1645-1654 | records of one stream, closed by its empty one, are delivered whole |
| FcgiRoundTrip.WriterThenReader | loungeact_fastcgi/fcgiapp.c:1386-1742 | for every run that closes STDOUT, a reader of it delivers what was put before the close and ends in order if and only if by then what was put into STDERR fits its buffer and was neither flushed nor closed out of it; otherwise it fails, having delivered a beginning of it |
| FcgiRoundTrip.NoStderrIff | loungeact_fastcgi/fcgiapp.c:1326-1430 | for every run, no record of STDERR was sent if and only if what was put into it fits its buffer and no flush or close found anything in it |
| FcgiRoundTrip.UnusedIsSilent | loungeact_fastcgi/fcgiapp.c:1337-1343 | nothing is sent on STDERR before the close if nothing was put into it by then, even if it was flushed or closed |
| FcgiRoundTrip.FlushedStderrBreaks | loungeact_fastcgi/fcgiapp.c:1609-1611 | one byte put into STDERR and flushed before STDOUT is closed is enough to break the condition |
| FcgiRoundTrip.ReaderStopsBehindStdout | loungeact_fastcgi/fcgiapp.c:1717-1721 | the reader then stops right behind the empty record of STDOUT, with the rest of the connection unread |
| FcgiRoundTrip.Echo | loungeact_fastcgi/fcgiapp.c:108-341 | writer and reader joined, for any calls, alignments and sizes of the reads: of what was put the first n bytes are read, or all there are, unless STDERR was sent in between; never anything else |
| FcgiRoundTrip.ParamsAreRead | loungeact_fastcgi/fcgiapp.c:2230-2237 | parameters sent as records among those of other requests decode to the pairs, and the reader stops right behind the header that ends them |
| FcgiRoundTrip.KnownRole | loungeact_fastcgi/fcgiapp.c:2212-2226 | the first entry of the environment is FCGI_ROLE=RESPONDER, FCGI_ROLE=AUTHORIZER or FCGI_ROLE=FILTER for the roles 1, 2 and 3, and there is none for others |
| FcgiRoundTrip.RequestOutcome | loungeact_fastcgi/fcgiapp.c:2206-2256 | a request sent as records is accepted with its role, its pairs in order and standard input from the padding of the end of the parameters on, if its first record is not padded; and with its role alone if that is padded |
| FcgiRoundTrip.AcceptedAsSentIff | loungeact_fastcgi/fcgiapp.c:1845-1857 | with parameters and a readable standard input, and padding that does not start like a header, a request is accepted as it was sent if and only if neither its first record nor the end of its parameters is padded |
| FcgiRoundTrip.PaddedBeginLosesParams | loungeact_fastcgi/fcgiapp.c:1852-1853 | eight zeros behind the first record make any request with a responder's role accepted without its parameters |
| FcgiRoundTrip.PaddedEndLosesStdin | loungeact_fastcgi/fcgiapp.c:1852-1853 | eight zeros behind the end of the parameters make the standard input fail at once |
| FcgiRoundTrip.AcceptanceIff | loungeact_fastcgi/fcgiapp.c:2206-2250 | for any records behind an unpadded begin of a request, on a connection that ends there: accepted if and only if the role is known and the parameters delivered end behind a complete pair; whole if their stream has ended by then, and cut short if not |
| FcgiRoundTrip.BrokenOffIsAccepted | loungeact_fastcgi/fcgiapp.c:2231-2237 | a family of such inputs: a connection that ends behind a record of the first pairs is accepted with those |
| FcgiRoundTrip.SmallRequest | loungeact_fastcgi/fcgiapp.c:2206-2256 | the bytes of a request with one parameter and one byte of standard input, and what they are accepted as |
| FcgiRoundTrip.AcceptWhatWasSent | loungeact_fastcgi/fcgiapp.c:2206-2256 | the classes at work: a request whose first record is not padded is accepted with exactly its role and pairs, in order, and delivers its standard input from the padding behind them on |
| UthashOrder.MergesIsOneIff | utils/uthash.h:704-758 | a pass does a single merge exactly when one pair of runs covers the list |
| UthashOrder.MergeSorts | utils/uthash.h:716-744 | merging two sorted runs gives a sorted run, for every total preorder |
| UthashOrder.MergeIsStable | utils/uthash.h:729-744 | the merge keeps equal elements in order, those of the first run first |
| UthashOrder.PassSorts | utils/uthash.h:704-757 | a pass turns sorted runs of n into sorted runs of 2n and keeps equal elements in order |
| UthashOrder.SortKeepsElements | utils/uthash.h:690-767 | sorting is a permutation |
| UthashOrder.SortIsStable | utils/uthash.h:690-761 | for every total preorder the result is a sorted permutation in which the elements equal to any one of them are the same, in the same order, as before |
| UthashList.CountRun | utils/uthash.h:706-714 | the second run starts behind the first insize elements or at the end |
| UthashList.TakeP | utils/uthash.h:729-753 | moving the first element of the first run to the result relinks it both ways and leaves both runs and the rest linked |
| UthashList.MergeRuns | utils/uthash.h:715-754 | the inner loop relinks two runs into their stable merge behind what was built, and leaves the rest of the list linked |
| UthashList.MergePass | utils/uthash.h:700-757 | one pass relinks the whole list into the pass on sequences and counts its merges |
| UthashList.HashSort | utils/uthash.h:690-767 | the loop terminates and leaves a list, linked both ways with correct ends, that is the sort of the one before by the user's comparison of what is in the elements; only next and prev links change |
| UthashList.ByFieldsReflects | utils/uthash.h:729-732 | a comparison of elements' contents is an order on the elements |
| UthashList.RemoveFromList | utils/uthash.h:204-219 | patching an element out of the middle or either end leaves the others linked both ways with correct ends |
| UthashBuckets.MaskAndShift | utils/uthash.h:648-650 | masking with 2^k - 1 and shifting by k take a number apart into remainder and quotient |
| UthashBuckets.MaskIsRemainder | utils/uthash.h:177-180 | with a power of two as bucket count the mask is the remainder, so it always names a bucket |
| UthashBuckets.DoublingSplits | utils/uthash.h:657-657 | after doubling, an element stays in its bucket or moves up by the old bucket count |
| UthashBuckets.IdealIsCeiling | utils/uthash.h:648-650 | ideal_chain_maxlen is the smallest chain length with which all items fit the doubled buckets, and is not 0 when there are items |
| UthashBuckets.LinkFront | utils/uthash.h:585-588 | an element linked in at the front leaves the chain linked both ways |
| UthashBuckets.Unlink | utils/uthash.h:596-606 | an element taken out leaves its chain linked both ways |
| UthashBuckets.Install | utils/uthash.h:582-588 | adding to one bucket keeps every chain: links, counts, and each element in its bucket |
| UthashBuckets.DelInBkt | utils/uthash.h:596-606 | removing from one bucket keeps every chain |
| UthashExpand.RehashedHolds | utils/uthash.h:652-671 | a redistributed chain holds each element of its bucket as often as before and no others |
| UthashExpand.SumUpdate | utils/uthash.h:659-663 | replacing one chain changes the sum of excess lengths by the change of that chain's excess |
| UthashExpand.MoveOne | utils/uthash.h:656-669 | moving one element keeps the new table's links and counts, the sum of nonideal items and every expand_mult |
| UthashExpand.MoveChain | utils/uthash.h:654-670 | one old chain, walked while it is taken apart, goes over completely |
| UthashExpand.Expand | utils/uthash.h:643-671 | all elements go over: each new chain is the elements that belong there, last walked first; the multiset of elements is kept; nonideal_items is the sum of max(0, count - ideal) and expand_mult is count/ideal for an over-full bucket and 0 otherwise |
| Uthash.Table.InItsChain | utils/uthash.h:84-95 | in a valid table every element is in the chain its key leads to |
| Uthash.Table.Find | utils/uthash.h:84-95 | lookup gives an element with the key if and only if one is in the application order |
| Uthash.Table.ExpandBuckets | utils/uthash.h:637-683 | expansion keeps the table valid, doubles the buckets, and sets ideal_chain_maxlen, nonideal_items, expand_mult, ineff_expands and noexpand as specified |
| Uthash.Table.AddToBkt | utils/uthash.h:582-593 | the element heads its chain, and the table expands exactly when the chain reaches (expand_mult+1)*10 and expansion was not given up |
| Uthash.Table.MakeTable | utils/uthash.h:130-147 | a new table has 32 empty buckets, and all its figures are 0 |
| Uthash.Table.Add | utils/uthash.h:152-175 | the element goes to the end of the application order and into its chain, everything else stays, and the table stays valid through any expansion |
| Uthash.Table.Delete | utils/uthash.h:194-227 | exactly this element leaves the order and its chain, the table stays valid, and deleting the last element empties it |
| Uthash.Table.Sort | utils/uthash.h:690-767 | the application order becomes its stable sort by the user's comparison, the buckets and chains are untouched, and the table stays valid |
| UthashRuns.Fsck | utils/uthash.h:251-301 | on any table whose links forward come to an end, the integrity check passes if and only if the links back, the bucket counts, their sum and the item count are right |
| UthashRuns.ValidIsSound | utils/uthash.h:251-301 | in a valid table they are |
| UthashRuns.Perform | utils/uthash.h:152-227 | each operation on the heap is the step of a map plus a sequence |
| UthashRuns.RunThenFind | utils/uthash.h:84-95 | after any legal run of adds, deletes and sorts from an empty hash, the table is valid and holds the model's order, and a lookup finds the element that has the key in the model, or nothing if none has |
| CouchTerms.Decode | revgen-couch/couch-revgen.c:78-91 | a term takes at least one byte and never more than there are |
| CouchUnique.MagnitudeOfValue | revgen-couch/couch-revgen.c:143-154 | a magnitude without leading zeros is the one the 64-bit branch would write for its value |
| CouchUnique.DecodeOfInteger | revgen-couch/couch-revgen.c:113-157 | integers from 256 on are read back, whichever of the forms they are in; below 256 the low byte is |
| CouchUnique.DecodeOfBig | revgen-couch/couch-revgen.c:150-196 | sign and magnitude are read back from the small and the large form |
| CouchUnique.DecodeOfSerialize | revgen-couch/couch-revgen.c:97-280 | the bytes of any value, however nested and whatever follows, decode to the value that stands for it, using exactly those bytes |
| CouchUnique.CanonKeepsBytes | revgen-couch/couch-revgen.c:116-196 | the value that stands for others has the same bytes as they |
| CouchUnique.SameBytesIff | revgen-couch/couch-revgen.c:97-280 | two values have the same bytes if and only if the same value stands for both |
| CouchUnique.PrefixFree | revgen-couch/couch-revgen.c:97-280 | no value's bytes are a proper beginning of another's |
| CouchUnique.PlainIff | revgen-couch/couch-revgen.c:116-155 | the values that stand for themselves are exactly those without negative integers and without bignums in the range of the 64-bit integer branch |
| CouchUnique.PlainValuesDiffer | revgen-couch/couch-revgen.c:97-280 | among those values equal bytes mean equal values |
| CouchUnique.MinusOneIs255 | revgen-couch/couch-revgen.c:116-121 | -1 and 255 have the same bytes |
| CouchUnique.SmallAtoms | revgen-couch/couch-revgen.c:78-80 | the bytes of true, false and null, with their letters |
| CouchUnique.SmallNumbers | revgen-couch/couch-revgen.c:113-199 | the bytes of integers at the ends of their three forms, and of a small bignum |
| CouchUnique.RealBytes | revgen-couch/couch-revgen.c:201-209 | the bytes of a real, and their decoding |
| CouchUnique.LargeBignum | revgen-couch/couch-revgen.c:170-196 | the bytes of a bignum of 66051 bytes |
| CouchUnique.SmallContainers | revgen-couch/couch-revgen.c:211-245 | the bytes of a string, of an empty array and of one with an element |
| CouchUnique.SmallObjects | revgen-couch/couch-revgen.c:247-277 | the bytes of an empty object and of one with a member |
| CouchRevgen.Be64IsFixed | revgen-couch/couch-revgen.c:133-142 | the eight shifted bytes are the big-endian form of the number |
| CouchRevgen.FixedIsPadded | revgen-couch/couch-revgen.c:143-147 | that form is the shortest one behind leading zeros |
| CouchRevgen.SkipZeros | revgen-couch/couch-revgen.c:145-145 | the scan for leading zeros stays inside the eight bytes and stops at the first digit |
| CouchRevgen.UpdateBigInteger | revgen-couch/couch-revgen.c:133-154 | an integer beyond 32 bits is sent with its length, its sign and its shortest form in reverse |
| CouchRevgen.UpdateBignum | revgen-couch/couch-revgen.c:159-199 | a bignum is sent in the small form below 256 bytes and in the large form otherwise |
| CouchRevgen.HashValue | revgen-couch/couch-revgen.c:97-280 | the digest receives exactly the bytes of the value behind what it had, for every nesting |
| CouchRevgen.HashItems | revgen-couch/couch-revgen.c:237-241 | the elements of an array are sent in order |
| CouchRevgen.HashMembers | revgen-couch/couch-revgen.c:260-274 | the members of an object are sent in iteration order, each as a pair of key and value |
| CouchRevgen.RevisionBytes | revgen-couch/couch-revgen.c:302-333 | the pieces la_revgen sends are the version byte and the term of one list of five: delete flag, start, old revision or 0, document, no attachments |
| CouchRevgen.RevisionText | revgen-couch/couch-revgen.c:302-333 | the same byte by byte: 131, the header of a list of five, the atom true or false for the delete flag, the start, 97 0 or the old revision as a binary of 16 bytes, the document, 106 106 |
| CouchRevgen.Revgen | revgen-couch/couch-revgen.c:289-351 | the new revision is the digest of exactly those bytes |
| CouchRevgen.SameRevisionIff | revgen-couch/couch-revgen.c:302-335 | two revisions are made from the same bytes if and only if they agree on the delete flag, on the start (beyond 63 bits only its low byte), on the old revision, and on the document up to the numbers that share their bytes |
| CouchRevgen.RevisionDecodes | revgen-couch/couch-revgen.c:302-335 | the bytes behind the version byte decode completely, to a list of the delete flag, the start as far as it is seen, the old revision or 0, the value that stands for the document, and an empty list |

## Left out

- LZ4: the 32-bit and big-endian configurations, the heap mode, and inputs and capacities beyond those an int can hold. The LZ4_COMPRESSMIN test is not modelled because the constant is 0.
- Lz4Decoder.UncompressUnknownOutputSize: needs an input on which no length overflows an int, because the behaviour of the C code is not defined there. A match with a zero offset copies bytes that the output buffer held before; which bytes those are is not stated, only that positions, sizes and the result are as the functional decoder says.
- Lz4Decoder.Uncompress: needs an input whose functional decoding stays inside it, because the C function does not know where its input ends and would read on; for overflowing lengths and a zero offset the same holds as for the other decoder.
- Lz4Wrapper.Decompress: needs an input that ends the loop, as Lz4Wrapper.RetryStopsIff says. Failing allocations are not modelled.
- FcgiWriter.Stream.EmptyBuffProc: errors of OS_Write are not modelled; every write takes at least one byte, and the same holds for FcgiWriter.Stream.WriteItAll.
- FcgiReader.Stream.Refill: a read error is the end of the bytes to come with an error code; that it may happen to one reader and not to the next on the same connection is not modelled.
- FcgiReader.Stream.ProcessManagementRecord: the values in the answer to FCGI_GET_VALUES, which the C code formats into 64 bytes, are not modelled; sending an answer does not fail.
- FcgiReader.AcceptRequest: one attempt; closing the connection and trying again, and accepting connections, are not modelled. For a request that is cut short the position of the stream on the connection is not stated.
- FcgiReader.Stream.FillBuffProc: which answers go out while it passes several headers is stated for each header (FcgiReader.Stream.ProcessHeader), not for the whole call; nor is which of the error codes it records.
- FcgiReader.Stream.ReadParams: allocation of the pairs and their C strings is not modelled, so lengths are not bounded by what FcgiParams.EntrySizeIff says fits; entries are byte sequences.
- FcgiRoundTrip.AcceptedAsSentIff: is about padding that does not start like a header; padding that does is read as one, and what comes of it depends on all the bytes that follow. FcgiRoundTrip.RequestOutcome has the other cases.
- FcgiReader.Request: the reading and the writing half of a connection are separate objects, so the answers of the reader are not among the records of the writers.
- FcgiReader.Stream: pushing a character back, lines, and FCGX_FPrintF and its relatives.
- Uthash.Table.Add: requires a key that is not in the hash and an element that is not in it, as the C macro does of its users. The table and the first element's variable are one object, an element and its handle too, and keys are values rather than memory that others may change.
- UthashRuns.Fsck: on links that run in a circle the C code does not come to an end, which is why they are required to end.
- Uthash: HASH_SELECT, the Bloom filter, the concrete hash functions, HASH_CLEAR, out-of-memory exits, and counters that wrap at 32 bits.
- CouchUnique.DecodeOfSerialize: lengths must fit 31 bits, a printed real is 31 bytes, and a bignum is not zero and has no leading zero bytes, which is how the library delivers it; for zero the C code would depend on what malloc(0) returns.
- CouchRevgen: the digest function, bignum arithmetic, number formatting and the debugging output; strings are the bytes before their terminating zero, and an object is its members in iteration order.
- Storage drivers, replication, codecs, the nginx module, socket handling and the string and buffer helpers: their guarantees rest on libraries that are not part of this model, or would only add easy members.
