# FRS: a verified model of its HTTP engine, MD5, log and text replacement

FRS is a file server. Every upload and download passes through the HTTP engine in `src/httplib.h`;
file digests come from `src/md5.cpp`; `src/logMsg.cpp` keeps a six-file rotating log; and
`src/stringUtils.cpp` edits text. This project models those parts in Dafny and proves what they keep
over whole runs and for all inputs.

A byte string of the original is a Dafny `string`; MD5 and base64 work on numbers `0..255`. Code that
updates fields is a class whose methods are proved against a function on values, and the theorems are
about that function. The two concurrent protocols are state machines whose steps are the original's
critical sections, and their theorems quantify over every interleaving.

| file | models |
|---|---|
| `Text.dfy` | searching, trimming, splitting |
| `UrlCodec.dfy`, `QueryExact.dfy`, `CodecTables.dfy` | percent-encoding, query strings; the alphabets and escapes of the codecs |
| `MultipartSpec.dfy`, `MultipartHeaders.dfy`, `DispositionExact.dfy`, `HeaderReading.dfy`, `MultipartRoundTrip.dfy`, `MultipartLate.dfy`, `FirstPiece.dfy`, `MultipartParser.dfy` | the incremental multipart/form-data parser and its serializer |
| `ThreadPool.dfy` | the job queue, its condition variable and its shutdown |
| `Md5Spec.dfy`, `Md5Vectors.dfy`, `Md5.dfy` | RFC 1321, two of its test vectors, and the streaming implementation |
| `Fields.dfy` | header and trailer lines |
| `Chunked.dfy`, `ChunkSizes.dfy`, `Streams.dfy` | the chunked transfer coding; sockets, read-ahead, line reader, body readers and writers |
| `ClientSocket.dfy` | who may close the client's shared socket |
| `Routes.dfy` | the route compiler and matcher |
| `LogSpec.dfy`, `LogLines.dfy`, `LogRuns.dfy`, `Log.dfy` | the rotating log |
| `Base64.dfy`, `Ranges.dfy`, `RangeForms.dfy`, `MultiRange.dfy` | base64, range headers, multi-range replies |
| `ReplaceAll.dfy` | `replace_all` |

## Main results

- **Multipart.** A header section is read line by line, in any order, spelling and spacing. For every form whose names, types and contents the format can carry, and every way of
  cutting its body into pieces, the server collects exactly the items in order if and only if the first
  non-empty piece holds the whole first delimiter line: state 0 drops a shorter window
  (`src/httplib.h:4308`), and no later text that it may take for a delimiter line, in a content or
  behind a skipped closing delimiter, can make up for it.
- **Thread pool.** Over every run, each job is queued, running or finished exactly once, in order; no
  wake-up is lost; every job gets done; and shutdown ends.
- **MD5.** However a message is cut into updates, the digest is that of RFC 1321 for the whole, which two of
  the RFC's test vectors fix to the bit. The block
  loop's `i + 63` wraps in 32 bits (`src/md5.cpp:115`); `LoopStaysInside` gives the exact condition.
- **Streams and chunks.** Reads, lines and bodies are consecutive slices of what the peer sent, however it
  was split. A chunked body is complete if and only if the provider calls `done` before the writing loop
  ends, in whatever turns it makes its calls: `data_available` is tested only between turns
  (`src/httplib.h:4047`, `src/httplib.h:4124-4135`), so an empty write that is the last call of a turn
  ends the loop without a terminator, and a write behind `done` in the same turn restarts it.
- **Client socket.** The assertions hold and no descriptor is lost, overwritten or closed twice in any
  interleaving. By default every request closes the socket when it ends (`src/httplib.h:6856`), so a `stop`
  is always honoured. With `keep_alive_` set, a `stop` during a request is honoured if and only if the
  innermost call has no `send_` left to make: with `follow_location_`, a redirect's inner `send_` clears the
  mark (`src/httplib.h:6803`) and connects again, as the run of `StopForgotten` does.
- **Routes.** An if-and-only-if description of the paths a pattern matches and the captures it gives. The
  set meant to refuse repeated parameter names is never filled (`src/httplib.h:5464`), so patterns with
  repeated names are accepted; a pattern gives every name its value if and only if its names are distinct.
  The comment at `src/httplib.h:5443-5444` says the last duplicate is kept; `emplace` keeps the first, and
  the model follows the code.
- **Log.** After any run, whichever files can be opened, the slots of both logs hold the latest files in
  chronological order, each with its level-filtered, squeezed messages, none as large as the limit plus
  one line.
- **Codecs.** Base64 against RFC 4648 although the accumulator overflows; range headers, header fields and
  query pairs read back if and only if a condition on the input holds. A multi-range reply is complete if
  and only if no range ends beyond the content: section 2.1 of RFC 7233 lets such a range end with the
  content, but `get_range_offset_and_length` does not clamp it (`src/httplib.h:4640`).
- **`replace_all`.** For a new value no longer than the old one the loop ends on every string if and only
  if the two differ; and for values without a common character rescanning from the start equals one
  left-to-right pass if and only if the new value is non-empty or the old one repeats a single character.

## Model

| member | source | states |
|---|---|---|
| `Text.TrimSpan` | src/httplib.h:2455-2464 | scanning inward from both ends of any span finds its trimmed text; the scans cross when nothing is left |
| `Text.Split` | src/httplib.h:2483-2503 | reports the trimmed, non-empty pieces in order, for every separator |
| `Text.SplitGlue` | src/httplib.h:2483-2503 | splitting undoes joining, with or without a blank behind each separator |
| `HeaderReading.Trims` | src/httplib.h:2455-2464 | exactly the blanks and tabs around a text are trimmed |
| `UrlCodec.EncodeQueryParam` | src/httplib.h:2347-2366 | the loop's output is the percent-encoding of the bytes |
| `UrlCodec.FromHexToI` | src/httplib.h:2207-2222 | the value of exactly that many hexadecimal digits, or failure |
| `UrlCodec.DecodeUrl` | src/httplib.h:2400-2435 | the loop's output is the decoded text, `%XX` and `%uXXXX` escapes and plus signs included |
| `UrlCodec.DecodeUndoesEncode` | src/httplib.h:2347-2435 | decoding undoes encoding on every byte string, for both plus flags |
| `UrlCodec.EncodedIsClean` | src/httplib.h:2347-2366 | an encoded value holds only plain characters and `%`, hence no separator, blank or plus |
| `UrlCodec.ParamsToQueryStr` | src/httplib.h:4176-4186 | the pairs as `key=escaped` joined with `&` |
| `UrlCodec.CollectPairs` | src/httplib.h:4222-4244 | each piece not met before adds its pair, keys and values unquoted by the given function |
| `UrlCodec.ParsePair` | src/httplib.h:4196-4206 | the first sub-piece is the key, the last of the others the value; no key, no entry |
| `UrlCodec.ParseQueryText` | src/httplib.h:4188-4209 | the multimap collected from the pieces |
| `UrlCodec.RawExact` | src/httplib.h:2400-2435 | decoding never lengthens, and leaves a text unchanged exactly when it has no complete escape and, where that means a blank, no plus sign |
| `CodecTables.KeptExact` | src/httplib.h:2347-2366 | a byte is kept exactly if it is a letter, a digit or one of nine marks |
| `CodecTables.EscapedExact` | src/httplib.h:2347-2366 | any other byte becomes a percent sign and its two digits in upper case |
| `CodecTables.ShortDecoded` | src/httplib.h:2400-2435 | two digits behind a percent sign give their byte |
| `CodecTables.LongDecoded` | src/httplib.h:2400-2435 | `%u` and four digits give the UTF-8 form of their code |
| `CodecTables.OtherDecoded` | src/httplib.h:2400-2435 | anything else stays as it is; a plus sign gives a blank where that is asked for |
| `CodecTables.Utf8Exact` | src/httplib.h:2234-2264 | a code gives its shortest UTF-8 sequence, which reads back as the code; a surrogate gives nothing |
| `UrlCodec.PairRoundTrip` | src/httplib.h:4176-4209 | one pair survives being printed and parsed |
| `UrlCodec.CollectedIsDedup` | src/httplib.h:4188-4209 | the cache of seen pieces removes exactly the repeated pairs |
| `UrlCodec.QueryRoundTrip` | src/httplib.h:4176-4209 | parsing a printed query gives the multimap back with exact duplicate pairs removed |
| `QueryExact.QueryKeys` | src/httplib.h:4188-4209 | every key read from a printed pair is shorter than the pair's key, or the value standing alone, or the key itself where that has no separator and no outer blank |
| `QueryExact.QueryExact` | src/httplib.h:4176-4209 | a printed pair is read back if and only if its key is non-empty, without outer blanks, `&`, `=`, `+` and complete escapes |
| `MultipartHeaders.SettingsRead` | src/httplib.h:4222-4244 | the serializer's `name` and `filename` settings are read as written |
| `MultipartHeaders.DispositionRead` | src/httplib.h:4338-4387 | a serialized Content-Disposition line sets exactly name and filename |
| `MultipartHeaders.TypeRead` | src/httplib.h:4338-4341 | a serialized Content-Type line sets exactly the content type |
| `DispositionExact.FoundFree` | src/httplib.h:4222-4244 | no value read from a line holds a separator, quoted or not |
| `DispositionExact.ExtendedShort` | src/httplib.h:4366-4382 | a part of a file name that is read as an extended file name is too short to be it |
| `DispositionExact.DispositionExact` | src/httplib.h:4338-4387 | a serialized line gives name and file name back if and only if neither holds `;`, `=`, CR or LF |
| `HeaderReading.SpelledExact` | src/httplib.h:4446-4453 | names of header fields are recognised in any case, and only the letters from A to Z have two |
| `HeaderReading.TypeLine` | src/httplib.h:4339-4341 | a type line sets the content type, trimmed, and nothing else in the record |
| `HeaderReading.LengthLine` | src/httplib.h:4342-4347 | a length line changes nothing |
| `HeaderReading.DispositionReads` | src/httplib.h:4349-4357 | a disposition line is read by its parameters, however it is spelled and spaced |
| `HeaderReading.OtherLine` | src/httplib.h:4383-4386 | any other line refuses the body |
| `HeaderReading.NameNeeded` | src/httplib.h:4358-4364 | a disposition without a name refuses the body |
| `HeaderReading.QuotesExact` | src/httplib.h:2471-2476 | quotes are taken off a text that begins and ends with one, and off no other |
| `HeaderReading.NamesTaken` | src/httplib.h:4358-4367 | the first name and file name are taken, the rest of the record stays |
| `HeaderReading.ExtendedTaken` | src/httplib.h:4369-4382 | an extended file name in UTF-8 replaces the plain one, decoded; any other refuses the body |
| `HeaderReading.DispositionKeeps` | src/httplib.h:4354-4367 | on any record, a serialized line sets name and file name and keeps the content type |
| `HeaderReading.EitherOrder` | src/httplib.h:4323-4390 | an item's header lines fill the record in either order, with a length line anywhere |
| `HeaderReading.SectionRead` | src/httplib.h:4323-4390 | any header section is read line by line up to the blank line, and its record reported |
| `HeaderReading.LineLimit` | src/httplib.h:4321-4322 | a first line of more than 8192 bytes is refused, a shorter one is read |
| `MultipartSpec.Turn` | src/httplib.h:4305-4435 | every turn of the parse loop that goes on lowers the rank: the window shrinks, or state 1 is left with it unchanged |
| `MultipartParser.StartWith` | src/httplib.h:4467-4474 | whether the text stands at that place before the end |
| `MultipartParser.MultipartFormDataParser.constructor` | src/httplib.h:4288-4298 | a fresh parser is in the start state with an empty window |
| `MultipartParser.MultipartFormDataParser.BufFind` | src/httplib.h:4486-4507 | the least match position in the window, or the window's size |
| `MultipartParser.MultipartFormDataParser.Compact` | src/httplib.h:4509-4517 | copying to the front of the buffer in place keeps the window's bytes |
| `MultipartParser.MultipartFormDataParser.BufAppend` | src/httplib.h:4509-4525 | the window grows by the piece, through compaction and resizing |
| `MultipartParser.MultipartFormDataParser.BufErase` | src/httplib.h:4527 | the window loses its first bytes, nothing else changes |
| `MultipartParser.MultipartFormDataParser.Call` | src/httplib.h:4326-4329 | a callback is made; its refusal makes the body invalid |
| `MultipartParser.MultipartFormDataParser.ReadInitialBoundary` | src/httplib.h:4307-4314 | state 0 does what the specification's step does |
| `MultipartParser.MultipartFormDataParser.ReadHeaders` | src/httplib.h:4320-4393 | state 2's inner loop over header lines does what the recursive specification does |
| `MultipartParser.MultipartFormDataParser.TakeHeader` | src/httplib.h:4335-4388 | one header line is read into the file record and erased, or the body is refused |
| `MultipartParser.MultipartFormDataParser.EndHeaders` | src/httplib.h:4324-4333 | the blank line reports the file record and leads to state 3, unless refused |
| `MultipartParser.MultipartFormDataParser.ReadContent` | src/httplib.h:4394-4416 | state 3 delivers content up to the delimiter, or all but the bytes that might begin one |
| `MultipartParser.MultipartFormDataParser.ReadBoundary` | src/httplib.h:4417-4433 | state 4 goes to the next item, closes, or waits |
| `MultipartParser.MultipartFormDataParser.Parse` | src/httplib.h:4300-4438 | the object, its array window included, refines the specification for every piece and every receiver, and the loop ends |
| `MultipartParser.SerializeItemBegin` | src/httplib.h:4580-4594 | delimiter line, header lines, blank line |
| `MultipartParser.Serialize` | src/httplib.h:4609-4621 | the body of a list of items |
| `HeaderReading.SerializedItem` | src/httplib.h:4580-4596 | the text of one item, letter by letter |
| `HeaderReading.SerializedBody` | src/httplib.h:4598-4621 | the items one after another, then the closing delimiter |
| `MultipartParser.Receive` | src/httplib.h:5999-6016 | a parser fed the pieces of any serialized form returns exactly its items, and refuses exactly above 1024 |
| `MultipartRoundTrip.TurnHeaders` | src/httplib.h:4320-4393 | wherever the header lines are cut, reading them keeps the parser's place in the body |
| `MultipartRoundTrip.TurnContent` | src/httplib.h:4394-4416 | however the content is cut, what was delivered stays a prefix of it and the delimiter ends it |
| `MultipartRoundTrip.TurnAt` | src/httplib.h:4305-4435 | every turn keeps the parser's place in the serialized body |
| `MultipartRoundTrip.RunAt` | src/httplib.h:4300-4438 | every `parse` call keeps it, and has closed once nothing is left to arrive |
| `MultipartRoundTrip.AnyCutRoundTrips` | src/httplib.h:4300-4438 | under every cut whose first non-empty piece holds the first delimiter line, the items come back exactly and valid, if and only if there are at most 1024 |
| `MultipartLate.FirstLate` | src/httplib.h:4307-4314 | a first delimiter line found behind the start of the body lies behind the first header section, or ends its type line |
| `MultipartLate.DelimiterFar` | src/httplib.h:4394-4416 | behind the content of one item no delimiter begins before the blank line of the next, and none at all behind the last |
| `FirstPiece.DoomedTurn` | src/httplib.h:4305-4435 | every turn of a parser that started late keeps it on a course on which something is already wrong, or begins too late |
| `FirstPiece.DoomedDiffers` | src/httplib.h:4300-4438 | on that course what has been collected is never the list of the body's items |
| `FirstPiece.ShortFirst` | src/httplib.h:4307-4310 | a first piece shorter than the first delimiter line is thrown away, and no form comes back from the rest |
| `FirstPiece.FirstPieceExact` | src/httplib.h:4307-4314 | for every form and every cut: the items come back exactly if and only if the first non-empty piece holds the whole first delimiter line |
| `ThreadPool.StepConserves` | src/httplib.h:603-649 | every step keeps jobs in order and in exactly one place |
| `ThreadPool.StepKeepsAwake` | src/httplib.h:603-649 | no step loses a wake-up |
| `ThreadPool.StepExitsClean` | src/httplib.h:630-649 | workers exit only after shutdown, the last one leaving only later pushes in the queue |
| `ThreadPool.RunInv` | src/httplib.h:591-662 | the three invariants hold after every run |
| `ThreadPool.JobsConserved` | src/httplib.h:591-662 | in every reachable state each job is queued, running or finished exactly once, taken in order, and queued work without pending notification has a worker awake unless all exited |
| `ThreadPool.AllJobsFinish` | src/httplib.h:612-649 | once all workers have exited, every job is finished if and only if none was pushed after the last exit |
| `ThreadPool.ServerJobsFinish` | src/httplib.h:6246-6249 | without a push after shutdown, every job is finished when the joins complete |
| `ThreadPool.ServerNeverStalls` | src/httplib.h:603-649 | without a push after shutdown, queued work with no notification pending always has a worker neither asleep nor exited |
| `ThreadPool.ShutdownStep` | src/httplib.h:612-649 | after shutdown nobody falls asleep and every step but a push lowers a rank, spurious wake-ups included |
| `ThreadPool.ShutdownProgress` | src/httplib.h:612-649 | after shutdown some step other than a push or a spurious wake-up is possible until all have exited |
| `ThreadPool.ShutdownCompletes` | src/httplib.h:612-625 | every run after shutdown is bounded by the rank, and one that cannot go on has every worker exited |
| `ThreadPool.AllJobsRun` | src/httplib.h:591-649 | while nothing is pushed, nobody wakes spuriously and the pool is not shut down, every run from a reachable state is finite, and where it cannot go on every job is finished and every worker asleep |
| `ThreadPool.CanAlways` | src/httplib.h:603-649 | what each party can always do |
| `Md5.Quad` | src/md5.cpp:163-233 | four unrolled operations with rotated registers are four steps of RFC 1321 |
| `Md5.Round1` | src/md5.cpp:163-179 | the first round's sixteen operations are steps 0 to 15 |
| `Md5.Round2` | src/md5.cpp:181-197 | steps 16 to 31 |
| `Md5.Round3` | src/md5.cpp:199-215 | steps 32 to 47 |
| `Md5.Round4` | src/md5.cpp:217-233 | steps 48 to 63 |
| `Md5.Transform` | src/md5.cpp:153-243 | the transform is the compression function of section 3.4 of RFC 1321 |
| `Md5.Decode` | src/md5.cpp:259-268 | sixteen little-endian words |
| `Md5.Encode` | src/md5.cpp:246-256 | words to bytes, low-order first |
| `Md5.CountAdds` | src/md5.cpp:98-104 | the two-word counter with its carry adds the bit length modulo 2^64 |
| `Md5.CountIndex` | src/md5.cpp:96 | the buffer's fill is the low bits of the counter |
| `Md5.LoopStaysInside` | src/md5.cpp:115-118 | the loop test in 32 bits never lets a block run past the input if and only if the last test does not wrap |
| `Md5.ShortFits` | src/md5.cpp:115-118 | at most 2^32 - 64 bytes never wrap |
| `Md5.LongestInput` | src/md5.cpp:115-118 | 2^32 - 1 bytes behind one buffered byte overrun the input, behind an empty buffer they do not |
| `Md5.ShortPiecesFit` | src/md5.cpp:115-118 | pieces of at most 2^32 - 64 bytes never wrap it, however many they are |
| `Md5.Context.constructor` | src/md5.cpp:79-88 | an initialised context stands for the empty message |
| `Md5.Context.Absorb` | src/md5.cpp:106-121 | the state becomes the fold of the compression over all complete blocks |
| `Md5.Context.Update` | src/md5.cpp:93-125 | the context stands for the message with the input appended: state, buffered tail and counter |
| `Md5.Context.Final` | src/md5.cpp:130-149 | returns the RFC 1321 digest of the whole message and wipes the context |
| `Md5.HashPieces` | src/md5.cpp:93-149 | the digest does not depend on how the message is cut into updates, as long as no update wraps the loop test |
| `Md5Vectors.EmptyDigest` | src/md5.cpp:79-149 | the digest of the empty message is that of appendix A.5 of RFC 1321 |
| `Md5Vectors.LettersDigest` | src/md5.cpp:79-149 | so is that of the 62 letters and digits, over two blocks, step by step |
| `Chunked.HexRoundTrip` | src/httplib.h:2224-2232 | parsing a chunk size undoes printing it, for every 64-bit size |
| `ChunkSizes.DigitExact` | src/httplib.h:2193-2205 | the sixteen digits in either case, and no other character |
| `ChunkSizes.StrtoulReads` | src/httplib.h:3807 | white space, sign and prefix are skipped, the digits up to any other character count, with saturation and negation in 64 bits |
| `ChunkSizes.StrtoulNothing` | src/httplib.h:3807-3809 | without a digit nothing is converted |
| `Chunked.ChunkRead` | src/httplib.h:3794-3846 | reading one written chunk delivers its data and goes on behind it |
| `ChunkSizes.AnyChunkRead` | src/httplib.h:3794-3825 | a chunk is read whatever digits give its size and whatever extension follows them |
| `ChunkSizes.AnyEndRead` | src/httplib.h:3794-3843 | a size of zeros ends the body, whatever extension follows |
| `ChunkSizes.TrailerLimit` | src/httplib.h:3829-3843 | a trailer line of more than 8192 bytes is refused, a shorter one is read |
| `Chunked.TrailersRead` | src/httplib.h:3827-3843 | trailer lines are read up to the blank line, each as `parse_header` reads it |
| `Chunked.TerminatorRead` | src/httplib.h:4099-4116 | the terminator with its trailers ends the body, and nothing behind it is read |
| `Chunked.OpsRead` | src/httplib.h:3794-3846 | reading what any sequence of calls on the sink sent delivers what was written before the first `done`, its trailers, and leaves the rest |
| `Chunked.ChunkedRoundTrip` | src/httplib.h:4038-4139 | for every provider, whatever calls it makes in each turn: the message is complete if and only if a `done` is among the calls before the loop ends; what was written before it is delivered, and nothing is left behind the terminator if and only if every later call is an empty write |
| `Chunked.EmptyWriteEnds` | src/httplib.h:4045-4070 | a turn that makes one empty write ends the loop successfully and leaves an incomplete message |
| `Chunked.FieldsKept` | src/httplib.h:3668-3700 | trailers that each survive their line come back as written |
| `Chunked.WriteThenDone` | src/httplib.h:4124-4135 | a write and `done` in one turn, as the FRS download callbacks end a body, is a complete message with exactly that payload |
| `Fields.ParseHeader` | src/httplib.h:3671-3700 | the three scans find the trimmed key and value of a line, the value decoded unless it is a location |
| `Fields.FieldExact` | src/httplib.h:3671-3700 | a field line is read back if and only if the key holds no colon and the value is non-empty, without outer blanks and, unless it is a location, without complete escapes |
| `ChunkSizes.LocationExact` | src/httplib.h:3692-3694 | a location is recognised in any case and kept undecoded |
| `Streams.SocketStream.constructor` | src/httplib.h:5317-5325 | a new stream has everything still to deliver |
| `Streams.SocketStream.ReadAhead` | src/httplib.h:5352-5378 | receiving into the read-ahead buffer loses and repeats nothing |
| `Streams.SocketStream.Read` | src/httplib.h:5337-5381 | delivered bytes plus buffered plus unreceived are the stream, in order; nothing is delivered only at its end |
| `Streams.LineReader.Append` | src/httplib.h:2557-2568 | the two tiers together are one growing string, for every fixed size of at least 2 |
| `Streams.LineReader.Text` | src/httplib.h:2510-2524 | pointer and size give that string |
| `Streams.LineReader.GetLine` | src/httplib.h:2531-2555 | the next line of the stream, whatever the fragmentation |
| `Streams.ReadContentWithLength` | src/httplib.h:3741-3761 | exactly the next `len` bytes reach the receiver, in however many reads; it fails only on a broken connection, too short a stream or a refusal |
| `Streams.ReadContentChunked` | src/httplib.h:3794-3846 | without a failing read or a refusal, the outcome is that of the byte-sequence specification |
| `Streams.ReadChunkBody` | src/httplib.h:3810-3824 | one chunk's data and its line end, or a reason to refuse |
| `Streams.ReadTrailers` | src/httplib.h:3827-3843 | the trailer section line by line, each line parsed as a field |
| `Streams.Serve` | src/httplib.h:5337-5381 | one read, line or fixed-length body takes its answer from the front of the stream; on a healthy connection it fails only when the stream is too short for it |
| `Streams.Mix` | src/httplib.h:5337-5381 | any mix of them yields consecutive slices, each answering its request; on a healthy connection it stops early only at a request the rest of the stream is too short for |
| `Streams.WriteData` | src/httplib.h:3945-3953 | all of the data is sent, in however many short writes |
| `Streams.FromIToHex` | src/httplib.h:2224-2232 | the hexadecimal digits, most significant first |
| `Streams.ChunkedSink.Write` | src/httplib.h:4045-4070 | one chunk for a non-empty write, after which data is available; none for an empty one; nothing after a failure |
| `Streams.ChunkedSink.Done` | src/httplib.h:4074-4122 | terminator and trailers are sent, and no data is available; nothing after a failure |
| `Streams.Provide` | src/httplib.h:4124-4135 | all the calls of one turn are sent, and the last one decides whether data is available |
| `Streams.WriteContentChunked` | src/httplib.h:4038-4139 | turn after turn, until no data is available, the server shuts down or the provider cancels: on a healthy connection exactly the calls made are sent, and it succeeds if and only if not cancelled |
| `Streams.Transfer` | src/httplib.h:4038-4139 | written to one socket and read from another that carries the same bytes: on healthy connections it arrives if and only if `done` was called before the loop ended, and what arrives is the payload and trailers before it |
| `ClientSocket.CloseKeeps` | src/httplib.h:6732-6749 | closing by a thread that may close keeps the descriptor accounts |
| `ClientSocket.BeginKeeps` | src/httplib.h:6797-6847 | so does the first block of `send_`, closing a dead socket and connecting |
| `ClientSocket.EndKeeps` | src/httplib.h:6858-6873 | so does its last block |
| `ClientSocket.StopKeeps` | src/httplib.h:7882-7903 | so does `stop`, from any thread: a socket in use is shut down and marked, an idle one closed |
| `ClientSocket.CountKept` | src/httplib.h:6797-6884 | the in-flight counter counts the activations in flight and names the lock's owner |
| `ClientSocket.StepInv` | src/httplib.h:6787-6884 | every step keeps all invariants |
| `ClientSocket.BeginReuses` | src/httplib.h:6797-6847 | a `send_` that finds the socket open and alive uses it, without connecting |
| `ClientSocket.BeginConnects` | src/httplib.h:6797-6847 | otherwise an open socket is closed and a new one connected, or the call is over |
| `ClientSocket.MidwayCloses` | src/httplib.h:6920-6935 | a response that says so closes the socket at once |
| `ClientSocket.EndExact` | src/httplib.h:6858-6873 | the end of a request counts it out, and closes exactly when marked or asked to |
| `ClientSocket.StopDoes` | src/httplib.h:7882-7903 | `stop` marks and shuts down a socket in use, and closes an idle one |
| `ClientSocket.CanEnter` | src/httplib.h:6787-6795 | a thread can enter exactly when nobody is inside; what each activation can do next |
| `ClientSocket.RedirectsCounted` | src/httplib.h:6975-6979 | a request leads to at most twenty redirects, each counted down |
| `ClientSocket.SocketOwnership` | src/httplib.h:6732-6749 | in every interleaving the assertions hold, no open descriptor is overwritten, none is closed twice or lost, and a positive in-flight count names the holder of the request lock |
| `ClientSocket.StopWhenIdleClosesAll` | src/httplib.h:7882-7903 | with no send active, a `stop` leaves every descriptor closed |
| `ClientSocket.MarkedRun` | src/httplib.h:6858-6873 | from a marked state, every run without a further `send_` that returns all calls leaves the socket closed |
| `ClientSocket.NothingBegins` | src/httplib.h:6937-6940 | where the innermost call has no `send_` left, none is made until all calls have returned |
| `ClientSocket.DefaultClosesAll` | src/httplib.h:6856-6873 | a client that does not keep connections alive has no open socket whenever all calls have returned |
| `ClientSocket.Redirects` | src/httplib.h:6937-6940 | with connections kept alive, from every state in which the innermost call has a `send_` left, a possible run returns all calls and leaves the socket open |
| `ClientSocket.StopExact` | src/httplib.h:7882-7903 | after a `stop` during a request the socket is closed in every possible run by the time the calls return, if and only if `keep_alive_` is off or the innermost call has no `send_` left, its own or that of a redirect |
| `ClientSocket.StopForgotten` | src/httplib.h:6797-6847 | the concrete run of a client that keeps connections alive and follows redirects: `stop`, then a redirect that finds the socket shut down and connects again; all calls return and descriptor 1 is open |
| `Routes.Compile` | src/httplib.h:5436-5479 | the compiler's loop yields the pattern's fragments and names |
| `Routes.PathParamsMatcher.constructor` | src/httplib.h:5436-5479 | a matcher holds them |
| `Routes.PathParamsMatcher.Match` | src/httplib.h:5481-5522 | the matching loop accepts exactly when captures exist, and returns their map |
| `Routes.AcceptedCaptured` | src/httplib.h:5481-5522 | the pattern with values put in is matched with those captures, behind any text |
| `Routes.CapturedAccepted` | src/httplib.h:5481-5522 | what is matched is the pattern with the captures put in |
| `Routes.MatchExact` | src/httplib.h:5436-5522 | for such patterns, match with given captures and being the pattern with them put in are the same |
| `Routes.NulFools` | src/httplib.h:5495-5499 | any other pattern matches a path that is not the pattern with its captures put in |
| `Routes.RouteExact` | src/httplib.h:5436-5522 | a pattern matches exactly the paths that are the pattern with the captures put in, none holding `/`, one `/` being optional behind a parameter that ends the pattern, if and only if no static fragment has a NUL before its last character |
| `Routes.InstanceMatches` | src/httplib.h:5436-5522 | every instance of a pattern matches with exactly the values put in |
| `Routes.ParamsExact` | src/httplib.h:5508-5515 | for any names and captures, every name gives its own value if and only if places with equal names got equal values |
| `Routes.NamesExact` | src/httplib.h:5463-5470 | a pattern gives every name its own value on every path it matches if and only if its names are pairwise distinct |
| `Routes.RepeatedNameLoses` | src/httplib.h:5463-5470 | `/:a/:a` is accepted, and of `/x/y` only the first value is kept |
| `Log.FileSlots.MoveUp` | src/logMsg.cpp:54-63 | one remove-and-rename |
| `Log.FileSlots.Move` | src/logMsg.cpp:28-70 | the oldest file goes and the others move up exactly when all slots are taken, and the returned slot is free |
| `Log.Logger.constructor` | src/logMsg.cpp:156-196 | the opening part of `log_init`, with either open failing |
| `Log.Logger.Refresh` | src/logMsg.cpp:230-262 | rotation when the file is full, failing opens included |
| `Log.Logger.LogString` | src/logMsg.cpp:221-332 | one call leaves files, counters and last message as specified |
| `LogLines.CallExact` | src/logMsg.cpp:264-324 | what one call leaves in both files, with levels, tags and the line limit written out; repeats and messages below the level leave nothing |
| `LogLines.WrittenExact` | src/logMsg.cpp:264-316 | a new message is written exactly if it is a system message or of one of four levels not below the threshold |
| `LogLines.RotatesExact` | src/logMsg.cpp:230-262 | files are rotated from 41943040 bytes on, and not before |
| `LogRuns.OpenOne` | src/logMsg.cpp:28-70 | on slots filled from the first on, opening puts the new file last in a free slot and keeps the last six |
| `LogRuns.NewestLastExact` | src/logMsg.cpp:28-70 | the newest file is in the highest slot taken if and only if the slots were filled from the first on |
| `LogRuns.HoldsOpened` | src/logMsg.cpp:28-70 | opening keeps the last six files in order, also after opens that failed |
| `LogRuns.HoldsRoom` | src/logMsg.cpp:28-70 | an open that fails, and any number of them in a row, costs at most the oldest of six files |
| `LogRuns.HoldsAppended` | src/logMsg.cpp:312-322 | a line goes to the newest file |
| `LogRuns.RunFits` | src/logMsg.cpp:221-332 | after every run, whichever opens fail, both logs' slots and open files, the size counter and the last message fit the history |
| `LogRuns.RotationHistory` | src/logMsg.cpp:221-332 | the slots hold the latest files in chronological order, six of them while the newest is open, each with its segment's lines; the error log's slots likewise, each file with the segment's ERROR and FATAL lines |
| `LogRuns.SegmentContents` | src/logMsg.cpp:264-324 | a segment's messages are the level-filtered ones with adjacent repeats removed, from the empty last message |
| `LogRuns.SegmentBound` | src/logMsg.cpp:230-322 | no segment reaches the size limit plus the line buffer |
| `LogRuns.SegmentsCover` | src/logMsg.cpp:230-262 | the segments put together are the calls for which `log_string` returns 0 |
| `Base64.Base64RoundTrip` | src/httplib.h:2268-2294 | decoding undoes the encoding of section 4 of RFC 4648, of four characters for every three bytes begun |
| `CodecTables.AlphabetExact` | src/httplib.h:2269-2270 | the alphabet of table 1 of RFC 4648 |
| `CodecTables.Base64Vectors` | src/httplib.h:2268-2294 | test vectors of section 10 of RFC 4648 |
| `Base64.WrapKeeps` | src/httplib.h:2277-2286 | overflow of the 32-bit accumulator never reaches the bits that are read |
| `Base64.WrapExact` | src/httplib.h:2277 | the accumulator is the number of 32 bits that is the same modulo 2^32 |
| `Base64.EmittedSnoc` | src/httplib.h:2277-2286 | one more byte puts out the next letter or two of the encoding |
| `Base64.EncodedEnds` | src/httplib.h:2288-2291 | the encoding is what the loop put out, one last letter and padding |
| `Base64.PutOut` | src/httplib.h:2280-2285 | the inner loop puts out exactly the letters now complete |
| `Base64.PadOut` | src/httplib.h:2288-2291 | padding to a multiple of four |
| `Base64.Encode` | src/httplib.h:2268-2294 | with a never-cleared wrapping accumulator the output is the RFC 4648 encoding |
| `Ranges.MakeRangeHeader` | src/httplib.h:5118-5129 | the header text of a list of ranges |
| `Ranges.ParseRangeHeader` | src/httplib.h:4249-4286 | succeeds, with those ranges, exactly when the header has the form and every piece is well-ordered and fits |
| `Ranges.ParsedOk` | src/httplib.h:4249-4286 | every range that is returned has ends that are absent or fit in 63 bits, in order |
| `Ranges.HeaderMatches` | src/httplib.h:5118-5129 | a built header has the form exactly when no end is below -1 |
| `Ranges.RangeHeaderRoundTrip` | src/httplib.h:4249-4286 | for every list: a built header is read back if there is a range, all ends are absent or fit and none has its ends the wrong way round; any other is refused |
| `RangeForms.ParsedExact` | src/httplib.h:4249-4286 | a header is understood, as those ranges, if and only if it is `bytes=` and ranges in digits with a comma and any white space between them, all ends fitting and in order |
| `RangeForms.AnySpacing` | src/httplib.h:4249-4286 | ranges that are in order and fit are understood however they are spaced |
| `RangeForms.HeaderPrinted` | src/httplib.h:5118-5129 | what is built has one blank behind each comma |
| `RangeForms.EndPrinted` | src/httplib.h:5118-5129 | an end is printed as its decimal digits without leading zeros, an absent one as nothing |
| `MultiRange.SliceExact` | src/httplib.h:4623-4641 | offset and length lie inside the content if and only if the range neither ends nor begins beyond it, and name then exactly the slice asked for; `0-5` of three bytes fails it |
| `MultiRange.Process` | src/httplib.h:4655-4690 | the callbacks made, in order |
| `MultiRange.PartWritten` | src/httplib.h:4644-4690 | the text of one part, its Content-Range line included, letter by letter |
| `MultiRange.CountedIsReply` | src/httplib.h:4655-4690 | where no range ends beyond the content, what is counted is the reply's length less what open ranges begin beyond it |
| `MultiRange.CountReply` | src/httplib.h:4708-4725 | the counting pass adds up the sizes of all callbacks modulo 2^64, for every list of ranges |
| `MultiRange.WriteContent` | src/httplib.h:3956-3991 | a provider that writes any non-empty part of what it is asked for and has delivers exactly the slice, and fails exactly when the slice ends beyond the content |
| `MultiRange.RangeDelivers` | src/httplib.h:4623-4641 | a range's slice can be delivered exactly when it does not end beyond the content, wrapped lengths included |
| `MultiRange.WriteReply` | src/httplib.h:4727-4740 | the writing pass sends the reply if and only if no range ends beyond the content |
| `MultiRange.SendReply` | src/httplib.h:6377-6381 | for every list of ranges a header can ask for: the whole reply is sent, each part the slice its range asks for, if and only if no range ends beyond the content; and then the announced Content-Length is the number of bytes sent if and only if no open range begins beyond it, modulo 2^64 |
| `MultiRange.NoOvershoot` | src/httplib.h:4623-4641 | ranges that begin inside the content make the announced length right |
| `ReplaceAll.OnceSmaller` | src/stringUtils.cpp:293-300 | every replacement lowers a measure: the length, the characters drawn from the old value, or the string read as a number |
| `ReplaceAll.StopsEnds` | src/stringUtils.cpp:291-302 | the loop ends on every string when the new value is shorter, of equal length and different, or shares no character with a non-empty old one |
| `ReplaceAll.EndsExact` | src/stringUtils.cpp:291-302 | for a new value no longer than the old one the loop ends on every string if and only if they differ |
| `ReplaceAll.NeverStops` | src/stringUtils.cpp:291-302 | a string holding the old value is rewritten for ever when the new value holds it too |
| `ReplaceAll.RescanOnePass` | src/stringUtils.cpp:291-302 | from a sealed part on, rescanning reaches what one pass makes of the rest |
| `ReplaceAll.RescanExact` | src/stringUtils.cpp:291-302 | for values without a common character, rescanning is one left-to-right pass if and only if the new value is non-empty or the old one repeats one character |
| `ReplaceAll.NestedDiffers` | src/stringUtils.cpp:291-302 | an occurrence wrapped in another is erased whole by rescanning, not by one pass |
| `ReplaceAll.ReplaceAll` | src/stringUtils.cpp:291-302 | wherever the loop ends: no occurrence is left, the result is reached by replacing first occurrences, and it is the one-pass result under the conditions above |

## Left out

- Sockets, `select`, time-outs, OpenSSL and compression libraries: a socket is a byte sequence with
  arbitrary short reads, short writes and failures, and the compressor is the one that changes nothing.
- `std::regex`: the Content-Disposition, `UTF-8''` and byte-range patterns are hand-written recognisers;
  the regular-expression route matcher, the URL pattern in `redirect` and Digest authentication are not
  modelled.
- Callbacks of the multipart parser: a receiver is a function of the history of callbacks, so it may
  refuse at any moment but does not touch the parser.
- Multipart bodies the serializer does not produce (preambles, epilogues, `filename*`): the parser's
  handling of them is modelled, but no round trip is claimed.
- `MultipartRoundTrip.AnyCutRoundTrips`: content types without outer blanks and CRLF, header lines under the
  limit and contents free of the delimiter are sufficient conditions; those on names, on the first piece
  and on the number of items are proved necessary. `FirstPiece.FirstPieceExact` takes boundaries of the
  characters `is_multipart_boundary_chars_valid` allows.
- The order of a C++ multimap: parameters are kept as a sequence in insertion order, which is the order
  among equal keys but not between different ones.
- `Streams.ReadContentWithLength`: the receiver and the progress callback are one function of the pieces
  handed over so far, so they may refuse at any moment but do not touch the stream.
- `Streams.WriteContentChunked`: a provider that never ends the loop is not considered.
- `Chunked.ChunkedRoundTrip`: trailers hold no newline and fit in a line of the reader.
- `MultiRange.WriteReply`: the stream takes every write in full, the server does not shut down, and the
  provider refuses what lies beyond its content; the path for bodies held in memory is not modelled,
  since its lengths come from a field that is not the body's size there (`src/httplib.h:4677`).
- `Md5.Decode` joins bytes by addition where the original shifts and ors, which is the same number.
- `Log.Logger.LogString`: messages are shorter than the line buffer, as `strcpy` into `last_log_str`
  demands of callers.
- `LogRuns.RotationHistory`: the slots found at the start are filled from the first on;
  `LogRuns.NewestLastExact` says what a gap does.
- `ThreadPool.ServerJobsFinish`: with no worker at all jobs stay queued.
- `ReplaceAll.EndsExact`: for a longer new value that shares characters with the old one and does not
  contain it, no condition is given.
- `ReplaceAll.ReplaceAll`: the string is edited in place and returned by reference; here it is a variable
  that becomes the result.
- `ClientSocket.StopExact`: TLS and proxies are not modelled, nor therefore the second attempt of `send`
  and the request repeated for Digest authentication; callbacks of the caller's do not use the client. A
  request begun on a socket that was shut down fails at its first write and closes it.
- `Text.Split`: the limit on the number of pieces that some callers pass.
- Wrapper overloads and setters of `Client` and `ClientImpl`, the S3 client, file, network and JSON
  helpers, and the endpoint callbacks: delegation or foreign calls that would only add easy members.
