# A verified model of mtg

mtg is a proxy for Telegram that hides its traffic inside what looks like a TLS
connection. This project models the parts of it whose correctness is hardest to see by
reading, and proves, for all inputs and all interleavings, what those parts are for.

Twenty-four modules, most of them one per component:

- **FakeTLS.** `Streams` is the rewindable connection, `Fragments` the reader that joins
  a ClientHello out of several records, `HelloGrammar` and `HelloParser` its contents,
  `Matching` the digest check and the search through all user secrets, `Printer` the
  client side of the repository's soak tool, `ServerHello` the answer. `FragmentSplits`
  proves that no split of a hello into records matters, and `SentHellos` what becomes of
  any hello given by its fields.
- **Records.** `Records` reads and writes TLS records and strips them off a connection.
- **State machines.** `DoppelConn` is the delayed writer (a mutex, a condition variable,
  a pump and any number of callers), `CircuitBreaker` the dialer with its timers,
  atomics and mutex channel, `IdleTimeout` the timer that both relay directions share.
  Each is a step system: a state, steps that are enabled or not, and theorems about
  every list of steps.
- **obfuscated2.** `Obfuscation` has both sides of the handshake, the ciphers that work
  in place, and whole sessions.
- **State that has to agree with something simple.** `SecretCodec` (text forms of a
  secret), `Limiter` (addresses per user), `UserStore` (the user file and its changes),
  `Connections` and `Serving` (the limiter while connections come and go and users
  change), `Gauges` (connection metrics and pooled records), `Scout` (the transparent
  recording connection).

`Bytes`, `Secrets` and `Counting` hold what several share. Code that updates things in place is a class or
a method on arrays, proved against a function of its inputs; the theorems are about
those functions, or about runs of those methods.

HMAC-SHA-256, SHA-256 and AES-CTR are arbitrary functions passed as parameters, so every
theorem holds for all of them. Clocks, random draws, the anti-replay cache, the order of
map iteration, what a read returns and when a timer fires are parameters or free
choices. A connection is a byte string with an end that stays.

## Where the code does less than its comments or names say

Each of these is proved, with the exact condition under which the expected property holds.

- The record cap is named ten and admits eleven (`FragmentationInvariance`).
- The 16-bit length of the reconstructed record is right only for bodies of at most
  65531 bytes (`ReconstructedLength`).
- The GREASE mask drops more suites than section 2 of RFC 8701 reserves: of the masked
  ones exactly those with two different bytes (`MaskedExactly`, `MaskIsWider`).
- The name type of a server name list is read once, while section 3 of RFC 6066 gives
  every entry its own, so lists of two or more names do not parse back
  (`SingleNameLists`).
- Noise of more than 16379 bytes silently drops the third record of the server's answer
  (`FlightReads`, `NoiseFits`).
- A half-open trial whose context ends while it waits for the mutex strands the breaker
  (`StrandedRun`, `HalfOpenedCanBeLeft`).
- The forbidden openings of an obfuscated2 frame are forbidden on the plain frame only;
  on the wire one appears exactly where its encipherment is allowed
  (`WireOpeningsExactly`). Bytes that arrive together with an error stay enciphered and
  leave the cipher behind (`FailedReadIsCiphertext`, `LaggingReadExactly`).
- Two goroutines are the most that the idle tracker can serve, since a late store may
  put an old stamp over a new one (`TwoAreTheMost`); a relay has two.
- Zero limits and parts of a second do not survive the user file (`RestoredWhenLasting`).
- An expiration after the year 9999 in UTC can be patched in and written, and then the
  whole file does not load (`PersistThenReload`, `LatePatchLocksOut`).
- A patch that fails to be written has already made the limiter forget a user whose
  secret it was to change (`FailedPatchKeepsCounts`).
- The file is truncated before it is written, so a write that fails half way has changed
  it. Creating and patching are taken back in memory, which parts memory and disk unless
  the write left there what there was (`Serve`). Torn at its first byte, a write leaves
  a file that loads and has no users (`TornWriteForgetsEverybody`).
- Deleting is not taken back: if the file could not be opened, the user is gone from
  memory and comes back with the next reload (`FailedDeletionComesBack`).
- Nothing keeps two users from having one key, and then a connection counted under one
  may be given back under the other (`SharedKeyRun`). Deleting or re-keying a user who
  is connected loses count too (`DeletedWhileConnected`). The counts are right exactly
  where neither happens (`RightWhenDisciplined`).
- A stream that is both connected to Telegram and fronted leaves a gauge too high for
  good (`ExactWhenOrderly`), and the Prometheus processor's shutdown takes nothing back
  (`PrometheusShutdownKeeps`).

## Model

| member | source | states |
|---|---|---|
| Streams.ConnRewind.constructor | mtglib/conns.go:66-73 | a new wrapper tees and is going to return the whole input |
| Streams.ConnRewind.Read | mtglib/conns.go:52-54 | the bytes returned are the next unread ones; the network gives up only what a replay cannot supply; only tee'd reads enter the buffer |
| Streams.ConnRewind.Rewind | mtglib/conns.go:56-64 | the buffered bytes come again before whatever the network holds; nothing happens on an empty buffer |
| Streams.RewindExact | mtglib/conns.go:45-73 | a rewound connection yields the original stream if and only if nothing was read past the tee'd buffer |
| Streams.ReadExactly | mtglib/internal/tls/fake/utils.go:106-119 | exactly the next n bytes, or a failure if and only if there are fewer, for every way the network cuts its reads |
| Fragments.FragmentedHandshakeReader.ParseNextFragment | mtglib/internal/tls/fake/utils.go:99-122 | takes one record of type 22 and version 3,1, with the same error and the same bytes left over as the one-record grammar |
| Fragments.FragmentedHandshakeReader.Fill | mtglib/internal/tls/fake/utils.go:82-94 | skips empty records, counting them, and stops at the cap |
| Fragments.FragmentedHandshakeReader.Read | mtglib/internal/tls/fake/utils.go:77-97 | whatever size is asked for, a read followed by pulling the rest is one pull of the whole |
| Fragments.FragmentedHandshakeReader.ReadExactlyPayload | mtglib/internal/tls/fake/utils.go:124-158 | a loop of reads of any sizes is one pull of n payload bytes, with its error |
| Fragments.PullPart | mtglib/internal/tls/fake/utils.go:77-97 | reading part of a buffered payload first does not change what is read in all |
| Fragments.PullSkip | mtglib/internal/tls/fake/utils.go:84-94 | skipping to the next non-empty record first does not change what is read in all |
| Fragments.ParseClientHello | mtglib/internal/tls/fake/utils.go:124-158 | both buffers, the error and the bytes left on the connection are those of the reassembly of the raw stream |
| FragmentSplits.PullTwice | mtglib/internal/tls/fake/utils.go:128-155 | reading a header and then a body is one read of both |
| FragmentSplits.PullEncoded | mtglib/internal/tls/fake/utils.go:77-122 | over any records, a pull yields the concatenated payloads, takes as few records as hold them, and fails exactly when that is more than the cap allows |
| FragmentSplits.FragmentationInvariance | mtglib/internal/tls/fake/utils.go:77-158 | every split of a message into records, empty ones included and whatever follows, gives the same two buffers if and only if the message ends within eleven records; otherwise the error is the cap |
| FragmentSplits.SplitsAgree | mtglib/internal/tls/fake/utils.go:124-158 | up to eleven records give what the unfragmented record gives, and that record is the reconstructed copy |
| FragmentSplits.WireBytes | mtglib/internal/tls/fake/utils.go:141-156 | the bytes of a record and of the reconstructed copy, lengths with the most significant byte first |
| FragmentSplits.ReconstructedLength | mtglib/internal/tls/fake/utils.go:141-148 | the length field of the copy is the true length if and only if the body has at most 65531 bytes |
| FragmentSplits.PullSound | mtglib/internal/tls/fake/utils.go:77-122 | every successful pull took a list of well-formed records whose payloads are what was delivered and what is buffered |
| FragmentSplits.ReassembleSound | mtglib/internal/tls/fake/utils.go:124-158 | nothing but at most eleven records beginning with the returned message is ever accepted, and exactly those bytes are consumed |
| Bytes.XorBitwise | mtglib/internal/tls/fake/client_side.go:88-90 | the exclusive or of two bytes has a bit set exactly where they differ |
| HelloGrammar.FirstUsableIsFirst | mtglib/internal/tls/fake/client_side.go:136-157 | the chosen suite is the first that is neither zero nor masked; none is chosen if and only if there is none |
| HelloGrammar.GreaseMasked | mtglib/internal/tls/fake/client_side.go:26-27 | every value reserved by section 2 of RFC 8701 is masked out |
| HelloGrammar.MaskedExactly | mtglib/internal/tls/fake/client_side.go:26-27 | a nonzero masked suite is one that RFC 8701 reserves if and only if its two bytes are the same |
| HelloGrammar.MaskIsWider | mtglib/internal/tls/fake/client_side.go:140-153 | the chosen suite is the first nonzero one that RFC 8701 does not reserve if and only if that suite is not masked or there is none |
| HelloGrammar.DropsUnreserved | mtglib/internal/tls/fake/client_side.go:150-152 | a list on which the parser passes over a suite that is not reserved |
| HelloGrammar.StepExtension | mtglib/internal/tls/fake/client_side.go:185-213 | an encoded extension of another type is stepped over, one of type 0 decides, whatever follows |
| HelloGrammar.FirstServerNameDecides | mtglib/internal/tls/fake/client_side.go:185-258 | after any other extensions the first server name extension decides, even if garbage follows it |
| HelloGrammar.NoServerName | mtglib/internal/tls/fake/client_side.go:185-260 | a well-formed block without a server name extension has no names |
| HelloGrammar.SingleNameLists | mtglib/internal/tls/fake/client_side.go:219-257 | a list encoded after section 3 of RFC 6066 parses back to its names if and only if it has at most one |
| HelloGrammar.NamesLength | mtglib/internal/tls/fake/client_side.go:241-255 | accepted names account for every byte of the list |
| HelloGrammar.ListParts | mtglib/internal/tls/fake/client_side.go:219-237 | of the length of a name list only matters whether it is zero; then the name type, then the names |
| HelloGrammar.BlockParts | mtglib/internal/tls/fake/client_side.go:170-183 | the block of the announced length decides, whatever follows it |
| HelloGrammar.ShortBlock | mtglib/internal/tls/fake/client_side.go:170-183 | a block shorter than announced is refused |
| HelloParser.Buffer.Next | mtglib/internal/tls/fake/client_side.go:194-209 | the slice handed out is the front of the unread bytes, shorter only at the end |
| HelloParser.Buffer.ReadFull | mtglib/internal/tls/fake/client_side.go:110-128 | all n bytes or a failure |
| HelloParser.Buffer.Rewrite | mtglib/internal/tls/fake/client_side.go:215-216 | a buffer rewritten from a slice of its own array holds exactly that slice, although source and target overlap |
| HelloParser.ParseSuites | mtglib/internal/tls/fake/client_side.go:140-153 | the whole list is consumed and the result is the first usable suite |
| HelloParser.ParseCiphers | mtglib/internal/tls/fake/client_side.go:130-165 | suites and compression methods as the grammar has them, suite, error and remaining bytes; for encoded fields see `HandshakeOfEncoded` |
| HelloParser.ParseHandshake | mtglib/internal/tls/fake/client_side.go:106-168 | agrees with the grammar on every byte string, random, session id, suite, error and remaining bytes; for encoded fields see `HandshakeOfEncoded` |
| HelloParser.ParseNames | mtglib/internal/tls/fake/client_side.go:239-257 | the names are those of the recursive grammar, with its error |
| HelloParser.ParseNameList | mtglib/internal/tls/fake/client_side.go:218-257 | the data of a server name extension as the grammar has it |
| HelloParser.NextExtension | mtglib/internal/tls/fake/client_side.go:194-209 | type and data of the first extension, or a failure if and only if it is cut short |
| HelloParser.ScanExtensions | mtglib/internal/tls/fake/client_side.go:185-260 | the loop computes the recursive grammar of the extension block and ends on every input |
| HelloParser.ParseSNI | mtglib/internal/tls/fake/client_side.go:170-261 | agrees with the grammar on every byte string |
| Matching.XorAllCancels | mtglib/internal/tls/fake/client_side.go:88-90 | exclusive or undoes itself, and is zero only on equal strings |
| Matching.SkewWindow | mtglib/internal/tls/fake/client_side.go:96-101 | the absolute, saturating difference is tolerated exactly inside the window on both sides of the present, or with the longest tolerance |
| Matching.AcceptedExactly | mtglib/internal/tls/fake/client_side.go:79-103 | by bytes: 28 of them must equal the digest, and the other four, XORed with it and read with the lowest first, must be a second inside the window; otherwise which error |
| Matching.StampedInTime | mtglib/internal/tls/fake/client_side.go:92-101 | a digest stamped with a time is accepted if and only if the time is in the window, and otherwise refused for its time |
| Matching.AuthenticWhenStamped | mtglib/internal/tls/fake/client_side.go:79-103 | a random is accepted if and only if it is the digest with a timestamp folded into its last four bytes that lies at most the tolerance before or after the present, or any timestamp if the tolerance is the longest duration |
| Matching.VerifyRandom | mtglib/internal/tls/fake/client_side.go:79-103 | the digest is over the record with a blank random, and the in-place comparison decides as `AcceptedExactly` says byte by byte |
| Matching.ReadClientHello | mtglib/internal/tls/fake/client_side.go:45-104 | result and error are those of one attempt on the stream, which `SentIsDecided` spells out for every hello; the connection is left where the reassembly ended |
| Matching.MatchClientHello | mtglib/proxy.go:236-261 | every attempt sees the stream from its first byte; the first secret that accepts the pristine stream wins, otherwise the last error or the invalid-secret error is returned; all bytes taken off the network stay tee'd |
| Matching.AttemptSettles | mtglib/proxy.go:240-256 | no retry reads past the tee'd buffer, so the next rewind starts over |
| Matching.RestIsSuffix | mtglib/internal/tls/fake/utils.go:124-158 | what a reassembly leaves is the end of the stream, on success and on every error |
| Matching.DoFakeTLSHandshake | mtglib/proxy.go:204-234 | the connection proceeds with the first accepting secret and the network just after the hello, or is dropped there if the answer cannot be sent; without an accepting secret, or on a replayed session id, the rewound connection yields exactly the original stream |
| Printer.BuildSNI | tools/proxysoak/main.go:184-196 | the bytes are one server name extension with consistent lengths |
| Printer.BuildBlank | tools/proxysoak/main.go:146-164 | the printed record is the encoding of a hello with a blank random |
| Printer.PatchRandom | tools/proxysoak/main.go:171-179 | only the random field changes, to the digest with the timestamp folded in |
| Printer.BuildClientHello | tools/proxysoak/main.go:138-182 | the output is the encoding of a hello whose random is the stamped digest of itself with a blank random |
| Printer.BlankPrinted | tools/proxysoak/main.go:166-179 | blanking the random of a printed record gives what its digest was computed over |
| Printer.BodyParses | mtglib/internal/tls/fake/client_side.go:106-168 | a printed body parses to its random, session id and suite |
| Printer.ExtensionsParse | mtglib/internal/tls/fake/client_side.go:170-261 | the printed extensions parse to the one host |
| Printer.PrintedAttempt | mtglib/internal/tls/fake/client_side.go:45-104 | what any secret decides on a hello printed for another one, over any split into at most eleven records and any bytes behind it |
| Printer.PrintedIsAccepted | tools/proxysoak/main.go:138-196 | parser after printer recovers random, session id and suite if and only if the 32-bit timestamp is at most the tolerance away from the present, on either side, over any such split |
| Printer.DigestTellsApart | mtglib/internal/tls/fake/client_side.go:79-94 | a key is refused for its digest on a hello stamped with another digest if and only if the first 28 bytes of the digests differ |
| Printer.PrintedIsServed | mtglib/proxy.go:204-261 | end to end, a printed hello passes all secrets of other hosts and all secrets of the same host whose key digests it differently, proceeds with its own, and leaves the network at the bytes behind it |
| SentHellos.HandshakeOfEncoded | mtglib/internal/tls/fake/client_side.go:106-168 | for every list of suites, session id, compression methods and tail: the random, the session id, the first suite that is neither zero nor 0x?a?a, and exactly the tail; without such a suite the cipher error |
| SentHellos.CutIsRefused | mtglib/internal/tls/fake/client_side.go:106-168 | a hello that ends anywhere inside these fields is refused as unreadable, or for its ciphers if all suites had come and none would do |
| SentHellos.OddLength | mtglib/internal/tls/fake/client_side.go:134-153 | an odd length of the suite list is rounded down, and the last byte belongs to what follows |
| SentHellos.OneNameParses | mtglib/internal/tls/fake/client_side.go:219-257 | one name behind any length but zero is that name |
| SentHellos.BlankOfEncoded | mtglib/internal/tls/fake/client_side.go:79-84 | what is digested is the record with 32 zeros for the random and every other byte as sent |
| SentHellos.SentIsDecided | mtglib/internal/tls/fake/client_side.go:45-104 | for every hello with a server name, any suites, compression methods, other extensions and split into at most eleven records: a secret accepts it if and only if the name is its host and the random is the digest of the blanked record stamped with a time in the window, and yields the sent fields |
| SentHellos.MaskedIsRefused | mtglib/internal/tls/fake/client_side.go:155-157 | no secret accepts a hello of which all suites are passed over |
| SentHellos.NamelessIsRefused | mtglib/internal/tls/fake/client_side.go:68-77 | every secret refuses a hello without a server name extension because the host is missing |
| Records.NextOfEncoded | mtglib/internal/tls/utils.go:10-52 | an encoded record is read back, whatever follows |
| Records.NextIsEncoded | mtglib/internal/tls/utils.go:10-28 | nothing but an encoded record is read |
| Records.RecordBytes | mtglib/internal/tls/utils.go:37-52 | the five bytes of a header and the payload |
| Records.ReadRecord | mtglib/internal/tls/utils.go:10-28 | type, payload, partial payload, error and bytes left are those of the record grammar |
| Records.WriteRecordInPlace | mtglib/internal/tls/utils.go:37-52 | the header is put before the payload in the same buffer; longer payloads than 16379 bytes are refused untouched |
| Records.WriteRecord | mtglib/internal/tls/utils.go:30-35 | writes the encoded record, or nothing and an error for a payload that does not fit |
| Records.AppDataOfEncoded | mtglib/internal/tls/conn.go:50-69 | records of other types, wherever they stand, do not show in the application data |
| Records.TlsConn.Read | mtglib/internal/tls/conn.go:50-69 | delivers the next application data, at least a byte of it, and fails only when none is left |
| Records.ReadRun | mtglib/internal/tls/conn.go:50-69 | any sequence of reads delivers a prefix of the application data in order, all of it if a read fails |
| ServerHello.GenerateServerHello | mtglib/internal/tls/fake/server_side.go:63-126 | nested buffers come out as one handshake record with consistent lengths |
| ServerHello.GenerateFlight | mtglib/internal/tls/fake/server_side.go:128-162 | the three records with a blank random; the third is missing if the noise does not fit |
| ServerHello.CopyDigest | mtglib/internal/tls/fake/server_side.go:56 | the digest replaces the random field and nothing else |
| ServerHello.SplitAtRandom | mtglib/internal/tls/fake/server_side.go:43-61 | flights that differ in their random differ at the random field only |
| ServerHello.SendServerHello | mtglib/internal/tls/fake/server_side.go:43-61 | blanking the random field of the answer and taking the digest over client random and answer gives the random field back |
| ServerHello.ServerMessageParses | mtglib/internal/tls/fake/server_side.go:83-126 | a reader that checks every nested length gets random, session id, suite and key share back |
| ServerHello.FlightReads | mtglib/internal/tls/fake/server_side.go:43-162 | the answer reads as a handshake, a change-cipher and one application-data record with nothing left over if and only if the noise has at most 16379 bytes |
| ServerHello.NoiseFits | mtglib/internal/tls/fake/server_side.go:142-154 | all random draws fit if and only if the calibration is off or mean plus jitter is at most 16380 |
| ServerHello.NoiseRange | mtglib/internal/tls/fake/server_side.go:142-154 | which sizes can be drawn: mean minus to mean plus jitter, none below 1000, or 2500 to 4699 without calibration |
| ServerHello.FlightOnWire | mtglib/internal/tls/fake/server_side.go:43-162 | every byte of the answer |
| DoppelConn.Stats.Size | mtglib/internal/doppel/stats.go:93-113 | the size and the counters after a request, with the reset after a second |
| DoppelConn.SizePhases | mtglib/internal/doppel/stats.go:93-113 | without a gap above a second, requests get 1450 less the draw up to the fortieth, 4096 less the draw up to the sixtieth, 16379 after |
| DoppelConn.FixedSizes | mtglib/internal/doppel/stats.go:98-100 | without dynamic sizing every request gets 16379 |
| DoppelConn.PumpOnce | mtglib/internal/doppel/conn.go:70-81 | one turn over the reused buffer puts the front of the stream on the wire as one record, whatever the buffer held |
| DoppelConn.AlwaysInv | mtglib/internal/doppel/conn.go:36-95 | every interleaving of Write, Stop and the pump keeps mutual exclusion, the wakeup, size, full-record, byte and torn-record invariants |
| DoppelConn.NoLostWakeup | mtglib/internal/doppel/conn.go:36-95 | the pump is parked over a non-empty buffer or a set done flag only while some caller stands between its unlock and its notification; never after a broadcast |
| DoppelConn.NeverParksAgain | mtglib/internal/doppel/conn.go:86-95 | once Stop has broadcast, no later state has the pump parked |
| DoppelConn.NeverStuck | mtglib/internal/doppel/conn.go:36-95 | while bytes wait or done is set, somebody already inside can take a step |
| DoppelConn.StopCanComplete | mtglib/internal/doppel/conn.go:50-95 | from every state after a broadcast, those already inside can bring the pump to its end without any new call |
| DoppelConn.BytesConserved | mtglib/internal/doppel/conn.go:36-84 | what the Write calls have brought, in the order in which they held the mutex, is what was emitted, is in flight and waits; every payload has 1 to 16379 bytes |
| DoppelConn.WritesAreAccepted | mtglib/internal/doppel/conn.go:36-48 | the bytes accepted are those of the Write calls of the run, each once and whole, when its caller holds the mutex |
| DoppelConn.SizesFollowTicks | mtglib/internal/doppel/conn.go:59-77 | the pump takes as many bytes as there are up to the size asked for, and that size is settled by the times of its ticks |
| DoppelConn.EndedIsCancelled | mtglib/internal/doppel/conn.go:60-83 | a pump that has ended, by a failed write too, leaves the context cancelled |
| DoppelConn.TornIsSilent | mtglib/internal/tls/conn.go:50-69 | a record cut short anywhere delivers nothing to a reader |
| DoppelConn.PeerReadsWhatWasWritten | mtglib/internal/doppel/conn.go:50-84 | over any run, a reader of the wire gets exactly the emitted payloads, a prefix of what was written, with other records in between and wherever a failed write stopped |
| CircuitBreaker.AlwaysInv | network/circuit_breaker.go:38-203 | every interleaving of dials, timer callbacks and cancellations keeps the six invariants |
| CircuitBreaker.TimersAlwaysMatch | network/circuit_breaker.go:119-185 | with the mutex free, armed timers are those of the state, and a closed or opened breaker has its timer armed or that timer's callback still to run, stale callbacks notwithstanding |
| CircuitBreaker.OneTrialPerReset | network/circuit_breaker.go:84-90 | at most one compare-and-swap succeeds between two resets of the attempt counter |
| CircuitBreaker.ClosedCountsFailures | network/circuit_breaker.go:51-82 | while closed with the mutex free, the counter is the number of failures since the last switch, all of them failures, and below the limit |
| CircuitBreaker.OpensAtTheLimit | network/circuit_breaker.go:51-82 | every step from closed to opened comes after exactly the limit of failures since the switch before, with no success among them |
| CircuitBreaker.LimitOpens | network/circuit_breaker.go:69-80 | a failed dial on a closed breaker opens it if and only if it reaches the limit |
| CircuitBreaker.ChangesHaveCauses | network/circuit_breaker.go:51-171 | over every run: closed to opened only by a dial begun while closed that failed, half-opened to opened only by a failed trial, half-opened to closed only by a trial or a dial begun while closed that succeeded, opened to half-opened only by the timer, opened to closed only by a late success, and no other change |
| CircuitBreaker.OpenedRefusesDials | network/circuit_breaker.go:38-49 | no dial that found the breaker opened gets any further, and one in the base dialer found it closed, or half-opened |
| CircuitBreaker.SectionVerdict | network/circuit_breaker.go:57-171 | a critical section is one step: however others run in between, its job leaves with the state that its outcome and the state at the lock decide, for dials, trials and both timer callbacks |
| CircuitBreaker.TrialDecides | network/circuit_breaker.go:106-114 | in every run a trial that takes the mutex of a half-opened breaker leaves it closed if and only if it succeeded, and opened if and only if it failed |
| CircuitBreaker.StuckForever | network/circuit_breaker.go:84-117 | a half-opened breaker with its trial used up and nobody under way stays so for ever |
| CircuitBreaker.HalfOpenedCanBeLeft | network/circuit_breaker.go:84-117 | a reachable half-opened breaker with the mutex free can still leave that state if and only if a trial is free, or a trial or a dial begun while closed that has not failed is under way; which way it leaves is `TrialDecides` and `ChangesHaveCauses` |
| CircuitBreaker.CancelledTrialStrands | network/circuit_breaker.go:93-99 | a trial whose context ends at the mutex leaves such a stuck breaker |
| CircuitBreaker.StrandedRun | network/circuit_breaker.go:38-203 | a concrete run from the constructor to a breaker that is stuck |
| Obfuscation.CipherTwice | mtglib/obfuscation/obfuscator.go:84-96 | enciphering twice at the same position gives the data back |
| Obfuscation.CipherPieces | mtglib/obfuscation/conn.go:16-34 | enciphering in pieces is enciphering in one go |
| Obfuscation.CipherStream.XORKeyStream | mtglib/obfuscation/obfuscator.go:41-69 | the buffer is enciphered in place and the position moves by its length |
| Obfuscation.Revert | mtglib/obfuscation/handshake_frame.go:73-75 | key and vector are reversed in place as one block, the rest stays |
| Obfuscation.DcSurvives | mtglib/obfuscation/handshake_frame.go:60-71 | a requested data centre comes back unchanged if and only if it is 1 to 32768; zero becomes 2 and a negative one loses its sign |
| Obfuscation.GenerateHandshake | mtglib/obfuscation/handshake_frame.go:77-111 | the frame is the first draw with an allowed opening, with connection type and data centre written in |
| Obfuscation.PatchedOpening | mtglib/obfuscation/handshake_frame.go:77-111 | writing those fields cannot make an allowed opening forbidden |
| Obfuscation.ForbiddenByBytes | mtglib/obfuscation/handshake_frame.go:86-104 | the openings that are drawn again, byte by byte |
| Obfuscation.PatchedBytes | mtglib/obfuscation/handshake_frame.go:106-107 | six bytes are written, the connection type and the data centre with its low byte first, and every other byte is the draw |
| Obfuscation.ParamsByPosition | mtglib/obfuscation/obfuscator.go:84-96 | the key is hashed before the secret if there is one; after the reversal key and vector are the 48 bytes from the end |
| Obfuscation.WireByPosition | mtglib/obfuscation/obfuscator.go:69-71 | which bytes of the frame are enciphered, and from which keystream position |
| Obfuscation.TypeByPosition | mtglib/obfuscation/obfuscator.go:41-53 | connection type and data centre are the deciphered bytes 56 to 62, untouched by the reversal |
| Obfuscation.SendHandshake | mtglib/obfuscation/obfuscator.go:58-82 | by positions of the frame: bytes 8 to 56 go out in the clear, the others enciphered at their positions; the sending cipher has the key of bytes 8 to 40 hashed before the secret and the vector of bytes 40 to 56, the receiving one the same 48 bytes from the end |
| Obfuscation.ReadHandshake | mtglib/obfuscation/obfuscator.go:27-54 | by positions of the wire: the receiving cipher has the key of bytes 8 to 40 hashed before the secret and the vector of bytes 40 to 56, the sending one the same 48 bytes from the end; the data centre is in the deciphered bytes 60 and 61 if the four before are 0xdd, and a refusal otherwise |
| Obfuscation.HandshakeAgrees | mtglib/obfuscation/obfuscator.go:27-96 | with equal secrets the reader derives the sender's ciphers with the directions exchanged and recovers the data centre |
| Obfuscation.OpeningOnWire | mtglib/obfuscation/obfuscator.go:69-71 | for every cipher, the opening on the wire is the enciphered opening of the frame, so it is a given one if and only if the frame opens with that one enciphered |
| Obfuscation.WireOpeningsExactly | mtglib/obfuscation/handshake_frame.go:77-111 | for every cipher and key block, some allowed frame puts a given opening on the wire, a forbidden one included, if and only if that opening enciphered is allowed |
| Obfuscation.Direction.Write | mtglib/obfuscation/conn.go:27-34 | the written data is appended to what the peer is going to get |
| Obfuscation.Direction.Read | mtglib/obfuscation/conn.go:16-25 | whatever number of bytes arrives deciphers to the next bytes the peer wrote; bytes that come with an error are handed on as they were on the wire and the cipher is not moved over them, so later reads are deciphered that far behind |
| Obfuscation.FailedReadIsCiphertext | mtglib/obfuscation/conn.go:18-21 | the bytes of a failed read are what the peer wrote if and only if the keystream is zero there |
| Obfuscation.LaggingReadExactly | mtglib/obfuscation/conn.go:16-25 | and what a later read yields is what the peer wrote if and only if the keystream repeats itself at the distance of the bytes passed over |
| Obfuscation.Exchange | mtglib/obfuscation/conn.go:16-34 | over any run of reads and writes of any sizes each side has a prefix of what the other wrote, and every read of at least one byte gets one if one waits |
| Obfuscation.Session | mtglib/obfuscation/obfuscator.go:27-82 | handshake and run together, from one random frame |
| SecretCodec.HexRoundTrip | mtglib/secret.go:116-118 | decoding the hexadecimal text gives the bytes back |
| SecretCodec.Base64RoundTrip | mtglib/secret.go:111-113 | decoding the unpadded base64 text gives the bytes back |
| SecretCodec.GroupIsNumber | mtglib/secret.go:111-113 | three bytes and their four digits are the same number in base 256 and base 64 |
| SecretCodec.Alphabets | mtglib/secret.go:68-70 | the digits are those of sections 8 and 5 of RFC 4648 |
| SecretCodec.BreaksAreSkipped | mtglib/secret.go:70 | a line break may stand anywhere in base64 text |
| SecretCodec.HexInEitherCase | mtglib/secret.go:68 | hexadecimal digits may be capitals |
| SecretCodec.Base64IsNotHex | mtglib/secret.go:63-76 | the prefix byte puts the second base64 character between g and v, so the hexadecimal decoder always refuses it |
| SecretCodec.SecretRoundTrip | mtglib/secret.go:63-125 | both text forms parse back to the secret if and only if it has a host; without one both give the same error |
| SecretCodec.AcceptedText | mtglib/secret.go:63-98 | text is accepted as a secret if and only if its bytes, hexadecimal if possible, are 0xee, the 16 bytes of the key and a host that is not empty |
| SecretCodec.AcceptedTextNormalizes | mtglib/secret.go:63-145 | whatever text was accepted, both forms of its secret are accepted with the same result |
| SecretCodec.SecretCell.Set | mtglib/secret.go:63-98 | result and error of parsing; on error nothing is assigned, except that a missing host is found after the decoded key and the empty host were |
| Limiter.ConnectionLimiter.IncLocked | internal/users/limits.go:126-134 | one more connection of one user from one address |
| Limiter.ConnectionLimiter.TryAcquire | internal/users/limits.go:31-74 | admitted if and only if there is no limit, or a positive one and the address is known or fewer distinct ones are held; counted exactly when admitted |
| Limiter.ConnectionLimiter.DoRelease | internal/users/limits.go:77-101 | one connection less, no count below one is kept and no user with an empty table, even for releases without an acquisition |
| Limiter.ConnectionLimiter.ClearUser | internal/users/limits.go:104-109 | the user is forgotten and nobody else |
| Limiter.ConnectionLimiter.Stats | internal/users/limits.go:112-124 | distinct addresses and total connections of the user, in whatever order the table is walked |
| Limiter.DistinctAfter | internal/users/limits.go:31-101 | distinct addresses of a user grow only by an admission, and then not beyond the limit read for it |
| Limiter.AdmittedWhen | internal/users/limits.go:45-74 | with a positive limit a connection is let in if and only if it brings no new address, however many are held, or leaves no more than the limit |
| Connections.ClearedWhenIdle | internal/users/limits.go:104-109 | forgetting a user keeps the table right if and only if the user has no live connection |
| Connections.SharedKeyLoses | internal/users/store.go:67-78 | whenever two users have one key, whatever their limits, a change of a limit and a connection that comes and goes can leave the table wrong |
| Connections.ForeverWhenSteady | internal/users/limits.go:31-101 | from any state, the table of every user is the multiset of addresses of its live admitted connections whatever connections do and whatever limits are set next, if and only if it is so now, keys are distinct and every live connection is still found under its user |
| Connections.ChangeKeepsWhenHarmless | internal/users/store.go:188-353 | a creation, a patch of the secret, a deletion or a reload keeps that if and only if it brings no key that a user or a live connection has and takes no key or count from a connected user |
| Connections.RightWhenDisciplined | internal/users/limits.go:31-134 | over any run, with limits read from the users, the table is right at every point and for all that connections and limits may do next, if and only if every change was such a one |
| Connections.CountsAddUp | internal/users/limits.go:112-124 | counts by address add up to the number of live connections of the user |
| Connections.SharedKeyRun | internal/users/store.go:188-237 | a run in which two users are created with one secret and the first is left with a count and no connection |
| Connections.DeletedWhileConnected | internal/users/store.go:278-298 | a run after which two addresses are live under a limit of one |
| Connections.NeverMoreThanTheLimit | internal/users/limits.go:31-74 | whatever happens to the users, the table never holds more distinct addresses of a user than the largest limit read |
| Connections.LiveWithinLimit | internal/users/limits.go:31-74 | and where every change was harmless, neither are more addresses connected |
| UserStore.Store.UserBySecret | internal/users/store.go:67-78 | finds some user with the key, in whatever order the users are walked, and nobody if and only if there is none |
| UserStore.Store.Acquire | internal/users/limits.go:31-74 | counted under the user found and within the limit read, or let in uncounted if nobody has the key |
| UserStore.Store.Release | internal/users/limits.go:77-101 | given back under whatever user is found then |
| Serving.Ask | internal/users/store.go:188-298 | every call to the store is one step of the connection model on users and counts, or none if it was refused |
| Serving.ServeRun | mtglib/proxy.go:111-118 | any run of arrivals, departures, calls and reloads on the store is a run of those steps, so after harmless changes the limiter's tables are the live connections |
| Serving.ServeThenReport | internal/users/limits.go:112-124 | and what it reports of a user is the number of distinct addresses and the number of connections live under that user |
| UserStore.OrderIsCanonical | internal/users/store.go:376-392 | two lists with the same members, both strictly increasing by name, are equal |
| UserStore.LessExactly | internal/users/store.go:385 | a name is less if it is a proper prefix or smaller at the first character that differs |
| UserStore.Sort | internal/users/store.go:383-389 | the exchange sort in place gives a strictly increasing list of the same users, for different names |
| UserStore.SortedUsers | internal/users/store.go:376-392 | exactly the users of the map, in increasing order, whatever order the map is walked in |
| UserStore.ListsAreCanonical | internal/users/store.go:376-392 | two walks of the same map give the same list |
| UserStore.RowRoundTrip | internal/users/config.go:48-128 | the row of a user parses to the user in whole seconds and without a zero limit if and only if the expiration has a four-digit year in UTC; otherwise the expiration is refused |
| UserStore.StoredKeeps | internal/users/config.go:109-128 | the file keeps the whole second an expiration falls into, and everything else but a zero limit |
| UserStore.RowSecret | internal/users/config.go:64-76 | the secret of a row is the one its text denotes in either form, or a new one for the default host if the text is empty |
| UserStore.FourDigitYears | internal/users/config.go:118-120 | the times that can be written are those of the years 0 to 9999 of the Gregorian calendar in UTC |
| UserStore.RestoredWhenLasting | internal/users/config.go:80-119 | loaded users are the stored ones if and only if none has a zero limit or parts of a second |
| UserStore.CreatedSurvives | internal/users/config.go:48-91 | a user parsed from a row with a formatted expiration survives unchanged and can be read back |
| UserStore.FromUsers | internal/users/config.go:109-128 | the row of every user, in order |
| UserStore.ToIndex | internal/users/config.go:93-107 | loads if and only if every row parses and no name comes twice; then the index holds exactly the parsed rows |
| UserStore.RowsAreCanonical | internal/users/store.go:355-374 | the rows in the file are a function of the set of users |
| UserStore.EqualStoresWriteEqualBytes | internal/users/store.go:355-392 | two stores with equal users and settings write equal bytes under equal revisions, in whatever order their maps are walked |
| UserStore.Store.Persist | internal/users/store.go:355-374 | the file becomes the canonical rows and the unchanged settings; the disk holds all of it, what it held, or a part of it, as the write works, cannot open the file or is torn, and the revision moves only if it works |
| UserStore.Store.Reload | internal/users/store.go:315-353 | succeeds exactly if the file is missing, or can be read and every row of it loads under different names; what is replaced then, and that nothing changes otherwise |
| UserStore.LoadedUsers | internal/users/store.go:315-374 | canonical rows load if and only if every expiration can be read back, to what the file keeps of every user |
| UserStore.PersistThenReload | internal/users/store.go:315-392 | a reload after a successful persist succeeds if and only if every expiration can be read back; then it restores settings and revision, and the users if and only if all of them are lasting; otherwise nothing changes |
| UserStore.LateTimeGoesIn | internal/users/patch.go:119-139 | a time that parses but cannot be written back is refused on creation and accepted by a patch, and the row it is stored as does not parse |
| UserStore.LatePatchLocksOut | internal/users/patch.go:119-139 | for every store, patching a user to the last second of the year 9999 one hour west of UTC is accepted and written, and the next reload fails |
| UserStore.Store.Create | internal/users/store.go:188-237 | created exactly when the request is good, the revision current, the name new and the file written; otherwise users and revision are as before, the disk is what the write left, and memory and disk stay together if and only if that is what was there |
| UserStore.Store.Patch | internal/users/store.go:240-275 | the edited user replaces the old one exactly when the file was written; otherwise users and revision are as before, and memory and disk stay together if and only if the write left on disk what was there; a changed secret makes the limiter forget the user either way |
| UserStore.FailedPatchKeepsCounts | internal/users/store.go:262-272 | a patch that fails on disk leaves the users, and leaves the counts if and only if the secret stays or the user is idle; the disk is what the write left |
| UserStore.TornWriteForgetsEverybody | internal/users/store.go:355-374 | for every store and patch, a write torn at its first byte parts memory and disk, and the next reload succeeds without any user |
| UserStore.EditedLastsWhen | internal/users/patch.go:23-73 | an edited user survives the file if and only if the edit sets neither a zero limit nor part of a second |
| UserStore.EditedSecret | internal/users/patch.go:26-33 | a patched secret is the one its text denotes, in either form, and is refused if and only if it has no host or an empty key, or another field is unreadable |
| UserStore.EditedFields | internal/users/patch.go:23-73 | fields that are not set stay, those that are set are exactly what was set |
| UserStore.Store.Delete | internal/users/store.go:278-298 | refused for a bad name, an old revision or an unknown user; otherwise gone from memory and from the limiter, with the disk as the write left it, and memory and disk stay together if and only if the file was written |
| UserStore.Serve | internal/users/store.go:188-298 | a call parts memory and disk if and only if it was a deletion that was not written, or a creation or patch whose failed write changed the disk |
| UserStore.StoreRun | internal/users/store.go:188-298 | over any run of creations, patches and deletions, memory and disk agree as long as no write was torn and no deletion failed to be written, and the file can be read back as long as no patch set an expiration that cannot |
| UserStore.FailedDeletionComesBack | internal/users/store.go:278-298 | for every store and user, a deletion that cannot open the file is undone by the next reload if and only if the file can be read back |
| Gauges.StreamInfo.Reset | stats/stream_info.go:14-20 | the flag and every tag are gone |
| Gauges.Processors.Acquire | stats/pools.go:13-15 | a blank record that neither the pool nor a live stream has |
| Gauges.Processors.Release | stats/pools.go:17-20 | the record is blank and pooled, and no other stream changes |
| Gauges.Processors.EventStart | stats/statsd.go:19-33 | one step of the event model, no record shared, pooled records blank, even if the stream was started before |
| Gauges.Processors.EventConnectedToDC | stats/statsd.go:35-48 | one step of the event model on the stream's own record; nothing for unknown streams |
| Gauges.Processors.EventDomainFronting | stats/statsd.go:50-62 | one step of the event model on the stream's own record; nothing for unknown streams |
| Gauges.Processors.EventFinish | stats/statsd.go:85-110 | one step of the event model, and the record goes back to the pool |
| Gauges.Processors.ShutdownStatsd | stats/statsd.go:138-148 | the state after a finish event for each stream of that processor, in any order |
| Gauges.Processors.ShutdownPrometheus | stats/prometheus.go:135-140 | the streams of that processor are forgotten and nobody else's, pooled records are blank and unshared, and no gauge changes |
| Gauges.DriftOfStep | stats/statsd.go:19-110 | no event ever lowers how much a gauge overstates its streams; the events in order are exactly those that leave it alone |
| Gauges.ExactWhenOrderly | stats/statsd.go:19-110 | after a log of events every gauge is the number of matching live streams if and only if each stream started once at a time and then connected or was fronted at most once; no gauge is ever too low |
| Gauges.LifeOfAStream | stats/statsd.go:19-110 | a start raises the client gauge of ipv4 or ipv6, a connection the gauge of that address and data centre, by one and no other gauge, and the end puts both back |
| Gauges.LifeOfAFrontedStream | stats/statsd.go:50-110 | the same for a stream that is handed to the fronting site |
| Gauges.StatsdShutdownTakesBack | stats/statsd.go:138-148 | after shutdown each gauge of the processor is its drift, so zero after an orderly log, and no other processor's gauge changes |
| Gauges.PrometheusShutdownKeeps | stats/prometheus.go:135-140 | after an orderly log, its gauges are all zero after shutdown if and only if no stream was live |
| Scout.Collected.Add | mtglib/internal/doppel/scout_conn_collected.go:25-33 | time, type and length of the record are appended |
| Scout.Collected.MarkWrite | mtglib/internal/doppel/scout_conn_collected.go:36-42 | the index is set once, to the number of records so far |
| Scout.ScoutConn.Read | mtglib/internal/doppel/scout_conn.go:20-51 | bytes come out as they went in, the notes are those of the records taken with the present time on the new ones, and a failure means that every whole record was passed on |
| Scout.ScoutConn.Write | mtglib/internal/doppel/scout_conn.go:53-59 | the bytes pass unchanged and the index is set only after a change-cipher record was seen |
| Scout.ScoutRun | mtglib/internal/doppel/scout_conn.go:20-59 | over any run the output is a prefix of the input and the notes are exactly the records taken, which are as few as hold the output; after every operation the write index is the number of records noted before the first write that came after a change-cipher record, unset if and only if there was none, and no later operation changes it |
| IdleTimeout.AlwaysTimes | mtglib/conns.go:108-167 | what every interleaving of any number of goroutines keeps, with stamping and storing, loading and comparing as separate steps: times in order, and each goroutine's stamps in its program order |
| IdleTimeout.AlwaysSilent | mtglib/conns.go:128-156 | with two goroutines, every stamp that a failed read could have seen was a whole timeout old |
| IdleTimeout.AlwaysTouched | mtglib/conns.go:138-167 | over every run each goroutine has stored as many stamps as it received data or sent bytes, but for one touch under way, and each no older than what it stands for |
| IdleTimeout.EveryActivityIsTouched | mtglib/conns.go:146-167 | every activity is covered by a stamp of its goroutine that is no older, unless the goroutine is still at that very touch |
| IdleTimeout.EveryTouchIsActivity | mtglib/conns.go:123-167 | and every stamp is the touch of one activity that was no later |
| IdleTimeout.TimesOutOnlyWhenIdle | mtglib/conns.go:123-156 | with the two goroutines of a relay, a read fails with a timeout only if every activity of either whose touch was stored by its check was a whole timeout old, even where a late store had put an older stamp over a newer one |
| IdleTimeout.StaleStoreHidesActivity | mtglib/conns.go:123-130 | with three, some run fails a read at the very moment of an activity whose touch was stored |
| IdleTimeout.TwoAreTheMost | mtglib/conns.go:108-156 | so that holds of every run if and only if there are at most two goroutines |
| IdleTimeout.TouchAfterLoadIsMissed | mtglib/conns.go:128-130 | a stamp stored between the load and the look at the clock is not seen |
| IdleTimeout.TimesOutInTime | mtglib/conns.go:138-156 | if deadlines are met exactly, a read fails no later than twice the timeout after the later of its call and a stamp stored by then, with any number of goroutines |
| IdleTimeout.PendingIsBounded | mtglib/conns.go:138-156 | nor does a read stay pending beyond that |
| IdleTimeout.BoundIsTight | mtglib/conns.go:138-156 | for every timeout some run comes within one tick of the bound |

## Left out

- The strength of HMAC, SHA-256, AES and X25519: they are arbitrary functions here.
- The stable bloom filter behind the anti-replay cache and the CIDR lists: thin wrappers of other libraries; the cache is a predicate.
- NewStats and Delay of the doppel statistics: floating-point estimation; any delay is admitted, since the timer may fire at any time.
- The ganger loop and the crawling around the scout connection: network plumbing.
- Relay, sockets, DNS, SOCKS5, HTTP clients, socket options and the proxy protocol header: input and output.
- Configuration, command line, API routing, loggers, data centre lists and their preference order: only easy members.
- Listing, link settings and active secrets of the user store, and the JSON forms of its requests: only easy members; unreadable fields of a request are one case.
- UserStore.Serve: that two contents of the file are parted assumes that their hashes differ, since a revision is a hash.
- UserStore.Store.Acquire: looking up the user and counting are one step, although a change of the users may come between the two locks.
- Scheduling of goroutines: the step systems say what can happen and that somebody can go on, not that the Go scheduler lets them.
- Wrapped error texts, and which of the end-of-input errors of the Go library is returned: they are one error each in the model.
- IdleTimeout.TimesOutOnlyWhenIdle: the retry loop of Read is the Begin, Expire, Load and Decide steps of a step system rather than a loop over an object, because the other goroutine touches the tracker in between.
- DoppelConn.AlwaysInv: Write, Stop and the pump are steps on one state value rather than methods of an object, because they interleave; the reused buffer of the pump is in PumpOnce.
- CircuitBreaker.AlwaysInv: the dialer is steps on one state value for the same reason; the result of a dial is reduced to whether it succeeded.
- Printer.BuildClientHello: for hosts of at most 65447 bytes, which is where the 16-bit record length still holds the record.
- Obfuscation.Exchange: runs whose reads do not fail; after an error nothing is promised of the connection.
- Obfuscation.GenerateHandshake: the unbounded redrawing is a finite list of draws, and none is returned when all are forbidden.
- Records.TlsConn.Read: says nothing of reads after the first error, since a partial payload stays buffered then.
- UserStore.Store.Persist: TOML and the time layout are parameters. TOML is assumed to be invertible where it can be written, the layout to be read back exactly for four-digit years; the calendar itself is not modelled.
- Gauges.Processors.EventStart: address and data centre arrive as text, and traffic and other counters that only grow are not modelled.
