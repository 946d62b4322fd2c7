# A verified model of django-fast-multipart

django-fast-multipart parses `multipart/form-data` requests for Django. A Rust parser without I/O
cuts the byte stream into parts and returns batches of events; a Python adapter turns the events into
form fields and upload-handler calls. The parser may be fed in chunks of any size, and a boundary, its
suffix, a header line break or the line break in front of a boundary can each be split between calls.

This project models both sides in Dafny and proves what the program is for:

* **Refinement.** The buffering machine announces exactly what a whole-stream definition says: cut the
  stream at its leftmost non-overlapping `--boundary` tokens and classify each piece by its first
  blank line (`segments.dfy`, `refinement.dfy`, `messages.dfy`).
* **Chunk invariance.** After a chunk that was accepted, the next chunk ends in the same fields, the
  same events and the same error as both chunks fed at once (`chunking.dfy`).
* **Verdicts.** One call, every chunking and the end of the input are accepted exactly if the pieces of
  the stream fit the limits; the condition (`FitsExactly`, `ChunksFit`) reads the bytes and the limits
  only (`verdicts.dfy`).
* **Rejections.** A rejection is final for every longer input exactly if a header block of the stream is
  refused, or if the size limit leaves no room to complete a token; otherwise the bytes that complete
  it, and nothing shorter, take the rejection back. The total header limit alone decides what is
  rejected under the adapter's limits, and it bounds what stays buffered, except behind a token whose
  padding has not ended (`rejection.dfy`, `limits.dfy`, `retention.dfy`).
* **Round trip.** What the repository's printer makes of a list of parts is parsed back to exactly
  these parts, under every chunking, if and only if the parts fit the limits (`roundtrip.dfy`).
* **The adapter.** Its protocol errors are unreachable. Its stored fields are a function of the stream's
  pieces, and so are the files it completes, except for those that a handler skips. With handlers that
  do not skip, stop or raise, a parse returns exactly when the stream is within the limits and quotas;
  with any others, what can differ is stated, and an error names a quota that is really exceeded.
  Offsets, quotas and the interruption of uploads hold over every parse (`uploads.dfy`, `ledger.dfy`,
  `acceptance.dfy`, `forms.dfy`).
* **The conversation with the handlers.** `Calls.Expect` and `Calls.After` say, from the answers alone,
  which call is due next. Over every parse, however it ends, no call is made that is not due, what
  follows the last event is spelled out call by call, and the uploaded files are those that a handler
  returned (`calls.dfy`).
* **Decoders.** Incremental base64 decoding equals decoding the whole text, and header parameters
  survive printing and parsing, quoted or bare; each error has its exact condition (`base64.dfy`,
  `options.dfy`).
* **Octets.** Machine and specification share the scanning helpers, so what these drop, split at and
  recognise is restated in byte values (`octets.dfy`, and parts of `base64.dfy` and `options.dfy`).

## How the model is built

The Rust parser and the Python adapter update their fields in place, so each is a class here
(`Parsing.MultipartParser`, `UploadParsing.UploadParser`, `UploadParsing.PartObject`,
`Base64.Base64Decoder`), with loops where the source has loops. Every method is proved equal to a
function on values (`machine.dfy`, `adapter.dfy`), and the results above are lemmas about those
functions: one handler call is a `Step`, the progress loop is `Run`, one call is `Feed`, a sequence of
calls `FeedAll`, the event loop `OnEvents`, and a whole request `ParseUpload`.

What the model takes as given:

* Boundary bytes contain no CR and no LF (`Config.Valid`). The Rust constructor relies on the caller's
  validation for this (`rust/src/multipart.rs:68`); the grammar is in section 5.1.1 of RFC 2046.
* `memmem` is the leftmost occurrence, `map_data` is the identity, `usize` is a natural number.
* Decoded header fields are an arbitrary function `describe` of the raw headers. Upload handlers are
  an arbitrary function `respond` of all calls made so far; each answer returns, skips the file, stops
  future handlers, stops the upload or raises something else. Django's settings are parameters, and so
  is its total header limit, which is not part of the repository.
* `base64.b64decode(..., validate=True)` is strict decoding by section 4 of RFC 4648.

Two things the proofs bring out about the source:

* The fuzz target asserts that one call and equal chunks end alike unless both are rejected
  (`fuzz/fuzz_targets/multipart_parser.rs:129-140`). That does not hold of the code:
  `Rejection.FinerCanReject` gives, for every total limit and every chunk size, a stream that one call
  accepts and its equal chunks are rejected on. `Rejection.EndAlikeIff` gives the exact condition under
  which the assertion holds of a stream and its chunks: the whole stream is rejected for a header limit,
  or no chunk ends, within the size limit, where the stream so far exceeds a header limit.
* The remark that the header count can only be reached together with the aggregate limit
  (`src/django_fast_multipart/parser.py:40-41`) is true of verdicts for every total limit
  (`Limits.TotalLimitDecides`, `Limits.TotalLimitParses`). That the count limit itself never fires is
  true of every stream and chunking exactly if the total limit is 2 modulo 3 (`Limits.CountFiresIff`);
  `Limits.CountFirstIff` has a stream on which it fires for every other total limit.

`dafny verify dfyconfig.toml` checks the whole project.

## Model

| member | source | states |
|---|---|---|
| Bytes.FindAppend | rust/src/multipart.rs:205-206 | A leftmost occurrence is never displaced by bytes that arrive later, and a new one must reach into them |
| Machines.PartialSuffixLength | rust/src/multipart.rs:518-524 | The result is the longest end of the buffer that is a non-empty proper prefix of the token, 0 if there is none |
| Octets.TrimIs | rust/src/multipart.rs:282 | Trimming a header value takes off only bytes 9, 10, 12, 13 and 32, all of them, and only at its ends |
| Octets.StripIs | rust/src/multipart.rs:276-281 | A header name loses exactly the bytes 32 at its end |
| Octets.LineHeaderIs | rust/src/multipart.rs:267-284 | A header line is split at its first byte 58 and contributes nothing exactly if it has none |
| Octets.SuffixIs | rust/src/multipart.rs:526-558 | In byte values, which bytes behind a token close the message, open a part and how many of them belong to the boundary, are a bare line feed, or are too few to tell |
| Octets.BodyEndIs | rust/src/multipart.rs:507-516 | In byte values, the line break in front of a boundary: CR LF, or one of them alone |
| Machines.StepDecreases | rust/src/multipart.rs:124-136 | Every handler call that asks for another one lowers a measure of buffer length and state, so the progress loop ends |
| Chunking.SuffixStable | rust/src/multipart.rs:526-558 | A decided boundary suffix never changes when bytes are appended |
| Chunking.StepExtends | rust/src/multipart.rs:202-493 | In every state, a handler call on a longer buffer does the same, or does at once what the shorter call and a later call do together |
| Chunking.RunExtends | rust/src/multipart.rs:124-136 | A whole run on a longer buffer agrees with the run on the shorter one followed by a run on the rest |
| Chunking.FeedSplit | rust/src/multipart.rs:103-137 | From any state: after an accepted first chunk, the second chunk leaves the same fields, the same joined events or the same error as both chunks in one call |
| Chunking.OneShot | rust/src/multipart.rs:103-137 | Any number of chunks, all but the last accepted, end like their concatenation in one call |
| Chunking.OneShotRejectionIsFinal | rust/src/multipart.rs:103-137 | What one call rejects is rejected under every chunking |
| Events.AppendCoalesced | fuzz/fuzz_targets/multipart_parser.rs:62-77 | Appending events after joining their adjacent data gives the same list as appending them directly |
| Segments.CutJoins | rust/src/multipart.rs:205-206 | Cutting at the leftmost tokens loses nothing: joining the pieces with the token gives the stream, and no piece contains the token |
| Segments.UndecidedIff | rust/src/multipart.rs:526-558 | The suffix scan asks for more input exactly on a lone dash, on padding, and on padding with a CR at its end |
| Segments.StripBreakIs | rust/src/multipart.rs:507-516 | The stepping of `end` drops one trailing LF and then one trailing CR of the bytes before the boundary |
| Refinement.PreambleRefines | rust/src/multipart.rs:202-237 | A preamble call announces its share of the stream's meaning and leaves a state that means the rest |
| Refinement.HeaderRefines | rust/src/multipart.rs:239-304 | The same for a header call: a token before the line break makes a stray segment, a line adds its header, an empty line starts the body |
| Refinement.BodyRefines | rust/src/multipart.rs:365-439 | The same for a body call, including the delayed announcement of the headers and the bytes held back |
| Refinement.RawSegmentRefines | rust/src/multipart.rs:441-460 | The same for a raw segment: a blank line before the next token makes it a part after all |
| Refinement.RawBoundaryRefines | rust/src/multipart.rs:462-493 | The same for a token that closes a segment without a body, which is announced as exactly one raw part |
| Refinement.RunRefines | rust/src/multipart.rs:124-136 | A run that is not rejected announces exactly the meaning of the buffered stream, and EOF completes it |
| Refinement.FeedRefines | rust/src/multipart.rs:103-190 | One call on a fresh parser announces exactly the events of the stream's segments; ending the input then gives the final events and verdict |
| Parsing.MultipartParser.New | rust/src/multipart.rs:61-94 | A parser exists exactly for boundaries of 1 to 201 bytes and starts in the preamble with nothing buffered |
| Parsing.MultipartParser.HandlePreamble | rust/src/multipart.rs:202-237 | The whole new state and the answer are those of the preamble step |
| Parsing.MultipartParser.HandleHeader | rust/src/multipart.rs:239-304 | The whole new state, the events and the answer are those of the header step, whose line splitting and trimming `Octets` states in byte values |
| Parsing.MultipartParser.HandleBody | rust/src/multipart.rs:365-392 | The whole new state, the events and the answer are those of the body step |
| Parsing.MultipartParser.HandleOpenBody | rust/src/multipart.rs:393-439 | The same for body bytes whose headers are already announced |
| Parsing.MultipartParser.HandleBodyToken | rust/src/multipart.rs:393-430 | The same at a token, for each kind of boundary suffix |
| Parsing.MultipartParser.HandleRawSegment | rust/src/multipart.rs:441-460 | The whole new state, the events and the answer are those of the raw-segment step |
| Parsing.MultipartParser.HandleRawBoundary | rust/src/multipart.rs:462-493 | The whole new state, the events and the answer are those of the raw-boundary step |
| Parsing.MultipartParser.EmitData | rust/src/multipart.rs:495-504 | A data event with the first bytes of the buffer is added unless there are none |
| Parsing.MultipartParser.FeedData | rust/src/multipart.rs:103-137 | The loop ends; the object's state, the events and the error are those of `Feed` |
| Parsing.MultipartParser.FeedEofData | rust/src/multipart.rs:139-191 | The object's state, the events and the error are those of `FeedEof` |
| Parsing.MultipartParser.DrainAtEof | rust/src/multipart.rs:160-190 | An undecided token ends the open part; otherwise an open body is flushed; the buffer is empty afterwards |
| Parsing.MultipartParser.Finish | rust/src/multipart.rs:193-200 | An error exactly when the state is not End |
| Messages.Append | fuzz/fuzz_targets/multipart_parser.rs:62-77 | The in-place loop computes the joined normal form |
| Messages.Parse | fuzz/fuzz_targets/multipart_parser.rs:79-119 | The driver over a mutable parser returns the events and the terminal result of the whole message |
| Messages.FeedMeans | rust/src/multipart.rs:103-137 | Every accepted chunking announces, once adjacent data is joined, exactly the events of the stream's segments |
| Messages.MessageMeans | rust/src/multipart.rs:139-200 | With EOF: an open body is delivered to its last byte, an undecided token ends its part without its line break, `finish` succeeds exactly for closed messages, and an exact token at EOF is told apart |
| Messages.ParseMeans | fuzz/fuzz_targets/multipart_parser.rs:79-119 | Unless a feed is rejected, the driver's events and verdict are those of the stream's segments; an EOF rejection is the total header limit and loses no event |
| Messages.ParseKeeps | fuzz/fuzz_targets/multipart_parser.rs:93-103 | When a feed is rejected, the events that stay are those of the segments of the longest accepted front of the chunks, and the error is that of the chunk behind it |
| Messages.EofIsFinal | rust/src/multipart.rs:103-145 | After the end of the input, feeding is an error that changes nothing, and ending the input again adds nothing |
| Messages.ParseChunkingFree | fuzz/fuzz_targets/multipart_parser.rs:129-140 | Unless a feed is rejected, the driver returns what it returns for the whole stream in one chunk |
| Messages.ClosingAccepted | rust/src/multipart.rs:327-356 | A message that closes is accepted at EOF, unless the total limit is zero and the input ends in a part's token; `Verdicts.EofIff` has the exact condition for all messages |
| Grammar.FeedAllKeepsGrammar | rust/src/multipart.rs:124-136 | Over all feeds the events follow (Raw or Begin Data* End)*, a part is open exactly in Body without pending headers, and headers, header size and the pending flag are in use only where they belong |
| Grammar.RunKeepsGrammar | rust/src/multipart.rs:202-493 | The same for one run; a token left in a body is undecided and preceded by nothing but its stripped line break |
| Grammar.EofKeepsGrammar | rust/src/multipart.rs:139-191 | EOF continues the grammar; a token left in a body makes it end the part and announce no data |
| Rejection.UnclaimedStays | rust/src/multipart.rs:291-303 | Whatever arrives, the next line break or token starts at or after the bytes already charged to the open header line |
| Rejection.RetainedTight | rust/src/multipart.rs:291-303 | The bytes not charged are no more than needed: there is more input with which a line break or token starts exactly behind the charged ones |
| Rejection.HeaderRejectionIsFinal | rust/src/multipart.rs:239-304 | A header step that rejects also rejects with any bytes appended |
| Rejection.RejectionFinalIff | rust/src/multipart.rs:291-325 | After any accepted chunks, a rejected call is rejected for every longer input if and only if a header block of the stream is refused or the size limit has no room for the bytes that complete a token; otherwise these bytes make the call succeed, and nothing shorter does |
| Rejection.StreamFinalIff | rust/src/multipart.rs:291-325 | The same for a whole stream in one call |
| Rejection.FeedAllError | src/django_fast_multipart/parser.py:35-39 | Without a size limit, every feed error is one of the three header limits |
| Rejection.FinerCanReject | fuzz/fuzz_targets/multipart_parser.rs:122-140 | For every total limit and chunk size there is a stream that the driver finishes in one call and rejects in equal chunks |
| Rejection.EndAlikeIff | fuzz/fuzz_targets/multipart_parser.rs:122-140 | For every stream and chunking, the fuzz target's comparison of one call with the chunks succeeds if and only if the whole stream is rejected for a header limit or no chunk ends where a header limit is exceeded |
| Verdicts.FeedIff | rust/src/multipart.rs:202-325 | One call on a fresh parser is accepted if and only if the stream fits the size limit and its pieces fit the line, count and total limits: header blocks by what is charged of them, the last piece by what may still become a boundary, closed text not at all |
| Verdicts.AcceptedIff | rust/src/multipart.rs:103-137 | A chunking is accepted if and only if the stream up to the end of every chunk fits, so finer cuts are only stricter |
| Verdicts.EofIff | rust/src/multipart.rs:327-363 | The end of an accepted stream is accepted if and only if its last piece, where it is still charged as a header, is below the total limit |
| Verdicts.WholeIff | fuzz/fuzz_targets/multipart_parser.rs:79-119 | Feeding all chunks and ending the input is accepted if and only if both conditions on the stream hold |
| Verdicts.RunExact | rust/src/multipart.rs:124-136 | From every state of a run, the run is rejected, rejected while reading headers, or accepted at EOF exactly as the buffered pieces and the fields say |
| Verdicts.UnlimitedAccepts | rust/src/multipart.rs:103-137 | Without a total limit, and with other limits out of reach, every chunking of every stream is accepted |
| Limits.TotalLimitDecides | src/django_fast_multipart/parser.py:40-43 | With at least (T-2)/3 headers of at least T bytes allowed, every chunking is accepted or rejected, and ends, as under the total limit T alone |
| Limits.TotalLimitParses | src/django_fast_multipart/parser.py:40-43 | The same for whole messages: the driver returns the same events and verdict, up to which header limit a rejected feed names |
| Limits.CountFirstIff | src/django_fast_multipart/parser.py:40-43 | On the smallest header lines of a stray segment, the count limit of (T-2)/3 fires before the total limit T if and only if T is not 2 modulo 3 |
| Limits.CountFiresIff | src/django_fast_multipart/parser.py:40-43 | Some stream in some chunking is rejected for its header count if and only if T is not 2 modulo 3, given room for the smallest such stream; for T equal to 2 modulo 3 none is, whatever the size limit |
| Retention.RunBounded | rust/src/multipart.rs:232-237 | After any accepted call the buffer is bounded in every state by the limits and the token, except behind a token whose padding has not ended |
| Retention.PaddingUnbounded | rust/src/multipart.rs:481-484 | The exception is real: behind a raw segment any amount of padding is held back without a rejection |
| RoundTrips.ExtendWithPart | benchmarks/_support.py:100-106 | One turn of the printer's loop adds the token, the header lines, the blank line, the data and a line break |
| RoundTrips.PrintBody | benchmarks/_support.py:98-108 | The printer's loops produce the body of the parts |
| RoundTrips.BodyAcceptedIff | benchmarks/_support.py:98-108 | Under every chunking, a printed body is accepted, and so is its end, if and only if body, header blocks, lines, counts and the bare epilogue fit the limits |
| RoundTrips.RoundTripIff | benchmarks/_support.py:98-108 | Under every chunking, a printed body is parsed to exactly its parts and finishes, under the same condition and only then |
| RoundTrips.AdapterRoundTripIff | src/django_fast_multipart/parser.py:40-43 | Under the adapter's limits what is left of that condition is that each printed header block, with the line break of its boundary and its blank line, is within the total limit, and that a body without parts has a limit of at least four |
| Base64.Base64Decoder.FeedBytes | src/django_fast_multipart/parser.py:51-75 | Output, error and both fields are those of one decoder step, also when it raises; `SqueezeIs`, `AlphabetIs` and `DecodesIff` state in byte values what that step ignores and takes |
| Base64.Base64Decoder.FinishBytes | src/django_fast_multipart/parser.py:77-79 | Raises exactly when held characters do not decode |
| Base64.FeedRepresents | src/django_fast_multipart/parser.py:51-75 | A feed that returns extends the decoded text by exactly the new complete groups; one that raises has met a text that cannot be taken |
| Base64.TakeableBack | src/django_fast_multipart/parser.py:63-75 | A text that cannot be taken cannot be taken with more text behind it |
| Base64.StreamDecodes | src/django_fast_multipart/parser.py:46-79 | For every chunking: feeding raises exactly when a complete group is bad or something follows padding, some call raises exactly when the whole text without whitespace does not decode, else the outputs are its decoding; at most three characters are held |
| Base64.DecodeEncode | src/django_fast_multipart/parser.py:75 | Decoding is the inverse of encoding by section 4 of RFC 4648 |
| Base64.StreamInverse | src/django_fast_multipart/parser.py:46-79 | Encoded data comes back under every chunking with any of the bytes 9 to 13 and 32 inserted anywhere |
| Base64.SqueezeIs | src/django_fast_multipart/parser.py:52 | Splitting at whitespace and joining drops exactly the bytes 9, 10, 11, 12, 13 and 32 |
| Base64.AlphabetIs | src/django_fast_multipart/parser.py:75 | The digits are the 64 characters of the alphabet in section 4 of RFC 4648, in order |
| Base64.DecodesIff | src/django_fast_multipart/parser.py:75 | A text decodes if and only if it is whole groups of alphabet characters with at most two padding characters at the end |
| Base64.EncodeDecode | src/django_fast_multipart/parser.py:75 | What decodes is the encoding of its result, up to the bits of the last digit that padding leaves unused |
| Options.SplitSegments | rust/src/headers.rs:10-30 | The scan returns the segments between semicolons outside quotes, and whether it ended inside quotes or an escape |
| Options.UnescapeValue | rust/src/headers.rs:52-65 | The loop removes one backslash before each escaped character |
| Options.ParseOptionsHeader | rust/src/headers.rs:9-73 | Name and parameters, or the first error, are those of the header's segments |
| Options.ParameterMeans | rust/src/headers.rs:39-69 | One segment is split at its first equals sign; its error, or its lower-case key and its bare or unescaped value, in terms of the trimmed sides |
| Options.OptionsErrorIff | rust/src/headers.rs:27-50 | Each of the four errors is returned if and only if the quotes do not balance, the first segment is blank, or the first bad segment has that error |
| Options.BalancedIff | rust/src/headers.rs:15-29 | The scan ends outside quotes and escapes if and only if every opening quote has a closing one that no backslash escapes |
| Options.TrimIs | rust/src/headers.rs:32-47 | Trimming takes off only white space, listed by code points, and leaves none at the ends |
| Options.LowerIs | rust/src/headers.rs:69 | Lower case changes the code points 65 to 90 and no others |
| Options.PiecesJoin | rust/src/headers.rs:15-30 | The segments joined by semicolons are the input, and every one but the last begins and ends outside quotes |
| Options.PiecesWhole | rust/src/headers.rs:15-30 | No segment has a semicolon outside quotes left |
| Options.ScansStayInStep | rust/src/headers.rs:47-65 | For every header that passes the quote scan, unescaping a quoted parameter never ends on a backslash, even with quotes reopened or in the key |
| Options.OptionsRoundTrip | rust/src/headers.rs:9-73 | Printing a name and parameters, quoted or bare, with keys in any case and white space around keys and values, and parsing the result gives the name and these parameters under lower-case keys |
| Options.MapOfLast | rust/src/headers.rs:37-70 | The map has the last value given for each key |
| Options.MapOfKeys | rust/src/headers.rs:37-70 | The map has no key that was not given |
| UploadParsing.UploadParser.BeginPart | src/django_fast_multipart/parser.py:244-307 | For given decoded header fields, the new part, the counters and the limit errors are those of opening the part on values |
| UploadParsing.UploadParser.OpenPartObject | src/django_fast_multipart/parser.py:233-242 | The same with the file started; a skipped file becomes an ignored part with its files closed, which `Calls.ParseCalls` states over the calls of a whole parse |
| UploadParsing.UploadParser.StartFile | src/django_fast_multipart/parser.py:340-352 | Handlers are called in order until one stops the others or raises, which `Calls.ParseCalls` states over the calls of a whole parse |
| UploadParsing.UploadParser.PassAlong | src/django_fast_multipart/parser.py:371-377 | Each handler gets what the one before returned, with its own counter, which grows by what it got |
| UploadParsing.UploadParser.PassToHandlers | src/django_fast_multipart/parser.py:371-380 | The same with SkipFile turned into an ignored part |
| UploadParsing.UploadParser.ReceivePartData | src/django_fast_multipart/parser.py:354-380 | Field data is kept and checked, file data is decoded and passed on, ignored data is dropped |
| UploadParsing.UploadParser.CompleteFile | src/django_fast_multipart/parser.py:409-413 | Handlers are asked in order until one returns a file |
| UploadParsing.UploadParser.FinishPartObject | src/django_fast_multipart/parser.py:382-414 | The stored field or the completed file, the counters, the lifecycle flag and the error are those of finishing the part on values; `Calls.FilesListed` says which files are listed |
| UploadParsing.UploadParser.RecordRawPart | src/django_fast_multipart/parser.py:319-325 | A raw part counts as a field and is an error only beyond the limit or inside a part |
| UploadParsing.UploadParser.EndPartObject | src/django_fast_multipart/parser.py:183-194 | A part end finishes the part, except for a file that an exact token at EOF ends |
| UploadParsing.UploadParser.HandleEvent | src/django_fast_multipart/parser.py:140-164 | One event changes counters, calls, stored fields, current part and flag as on values |
| UploadParsing.UploadParser.HandleEvents | src/django_fast_multipart/parser.py:140-164 | The same for a batch, left at the first error or stop |
| UploadParsing.UploadParser.ReadInput | src/django_fast_multipart/parser.py:137-166 | The read loop over a mutable parser does what reading the chunks means on values |
| UploadParsing.UploadParser.EndInput | src/django_fast_multipart/parser.py:166-212 | EOF of the mutable parser, its events and its `finish` are handled as on values |
| UploadParsing.UploadParser.HandleEndEvents | src/django_fast_multipart/parser.py:171-212 | The EOF events, the exact-token rule and the truncated field are handled as on values |
| UploadParsing.UploadParser.FinishTruncated | src/django_fast_multipart/parser.py:207-212 | A field left open by an unfinished message is stored as far as it came |
| UploadParsing.UploadParser.InterruptUpload | src/django_fast_multipart/parser.py:437-439 | Every handler is told in order until one raises |
| UploadParsing.UploadParser.UploadsComplete | src/django_fast_multipart/parser.py:229 | Handlers are asked in order until one answers true |
| UploadParsing.UploadParser.AbortUpload | src/django_fast_multipart/parser.py:422-428 | An active upload is interrupted, the flag is cleared and files are closed, whatever the handlers raise |
| UploadParsing.UploadParser.Parse | src/django_fast_multipart/parser.py:137-231 | From the read loop on, the request ends with the counters, calls, fields and verdict of `ParseUpload` |
| Calls.ParseCalls | src/django_fast_multipart/parser.py:137-231 | However a parse ends, every call was due: a new file goes to the next handler exactly after a return, a chunk goes on as the handler before returned it and not after nothing, completion is asked in order up to the first file, after a skip come the closing of files and no call but the next file. Behind StopUpload files are closed and `upload_complete` is asked; behind a handler's exception, and behind an error with an active upload, the upload is interrupted and files are closed; otherwise an active upload is interrupted and `upload_complete` asked, and whether these calls raise decides whether the parse does |
| Calls.FilesListed | src/django_fast_multipart/parser.py:409-413 | However a parse ends, the uploaded files are, in order, the field names of exactly those announced files whose completion some handler answered with a file |
| Calls.EventKept | src/django_fast_multipart/parser.py:233-414 | After every event an open file is the one announced last and an active upload is a file not completed; a parse is left only by StopUpload, by a handler's exception, or while no call is due |
| Uploads.EventSteady | src/django_fast_multipart/parser.py:354-414 | Every event keeps the invariant: counters are the bytes given, the lifecycle flag is an active file, the running total is the stored size, the field count is within its allowance |
| Uploads.OffsetsAdd | src/django_fast_multipart/parser.py:371-410 | However a parse ends, each chunk's start is the sum of what the handler got for this file before, each file is completed with the full sum, and pass-through handlers all complete the same bytes |
| Uploads.InterruptedIff | src/django_fast_multipart/parser.py:213-242 | After a parse that returns, uploads were interrupted if and only if no handler stopped it and the last announced file was never completed |
| Uploads.MemoryQuota | src/django_fast_multipart/parser.py:382-398 | However a parse ends, the running total is the size of the stored fields, and it is within the memory limit |
| Uploads.MemoryCheckedOnce | src/django_fast_multipart/parser.py:354-360 | Checking after every chunk and at the end rejects a field exactly when one check at the end would |
| Ledger.EventsAgree | src/django_fast_multipart/parser.py:140-164 | Events that follow the grammar raise no protocol error and keep fields, counts, flag, files and the open part equal to the books kept on the events alone |
| Ledger.NoProtocolErrors | src/django_fast_multipart/parser.py:140-199 | No input, chunking or handler makes the adapter raise one of its "received ... before" errors |
| Ledger.UploadMeans | src/django_fast_multipart/parser.py:102-231 | After a parse that was not stopped, stored fields and field count are those of the stream's segments; so are the names under which files were announced, and the decoded contents of the files the first handler completed, in order, where each missing file stands for a skip that some handler answered in its turn, and none is missing if no handler skips |
| Ledger.FieldQuota | src/django_fast_multipart/parser.py:309-325 | The non-file parts and raw segments of the stream are within the field limit, with one more allowed unless the last segment is closed or raw |
| Acceptance.EventDecided | src/django_fast_multipart/parser.py:244-325 | Whatever the handlers do, an event fails only for a handler or for the very quota that its books exceed; only handlers that stop or raise end the parse, and only ones that skip let an unreadable file pass |
| Acceptance.ReturnedIff | src/django_fast_multipart/parser.py:102-231 | For all handlers and chunkings: a parse that returns without being stopped fits the parser's limits and the quotas, and one that fits with readable base64 fails at most for a handler; an error on a stream that fits the parser's limits names the quota that is exceeded or the base64 file that is unreadable; with handlers that do not skip, stop or raise, or that skip but are given nothing unreadable, it returns if and only if it fits and is readable |
| Forms.FormRoundTrip | src/django_fast_multipart/parser.py:102-231 | A printed form that is parsed without being stopped stores exactly its fields, announces its files by name and completes them in order, each missing one having been skipped in its turn |
| Forms.FormReturnedIff | src/django_fast_multipart/parser.py:102-231 | For all handlers and chunkings, a printed form that is taken is in quota and one that fits fails at most for a handler; with handlers that do not skip, stop or raise, or that only skip while no file is unreadable, it is taken if and only if it fits, and the former are then given all of it |
| Forms.OnlyHeaderLimits | src/django_fast_multipart/parser.py:430-435 | Every parser error that reaches the adapter is the error of the bare parser on the same chunks and, without a size limit, one of the three header limits it reports under one message |

## Left out

- UploadMeans: says what the first handler was given; `Calls.ParseCalls` says that later handlers are given what the ones before them return, and `OffsetsAdd` that offsets and sizes add up and that pass-through handlers complete the same bytes.
- ReturnedIff: for a message with an unreadable base64 file and handlers that may skip, the two directions stay apart, since the handlers decide whether that file is decoded at all.
- BeginPart: header decoding, content type, length, charset and file-name sanitising are inputs (`describe`).
- Parse: starts at the read loop; the early returns, the constructor's boundary-length error and draining after StopUpload are not modelled.
- Lenient decoding of malformed padding, as older Python versions of `base64.b64decode` allow even with `validate=True`: decoding is strict here.
- Texts of error messages, and which message the adapter builds from them beyond the header-limit group.
- Django's header parameter parsing, charset decoding, file-name sanitising, `QueryDict` and `MultiValueDict`: header fields are inputs, stored fields are lists of byte strings with names, and only the names of uploaded files are recorded.
- What closing files does, and an exception raised by it.
- `rust/src/bindings.rs`, `rust/src/lib.rs` and `src/django_fast_multipart/middleware.py`: wrapping and parser selection only.
- SIMD search, allocation, saturation of machine integers, and the benchmarks other than `make_body`.
- Equality with Django's own parser, which is not part of the repository.
