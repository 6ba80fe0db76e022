# CryptoWrapper: verified model of the secret channel, file installation and key files

CryptoWrapper (`cw`) serves cryptographic operations over JSON-RPC. Passphrases reach it on
a separate pipe as one-use CWS1 frames; outputs are installed through temporary files. This
project models those parts in Dafny and proves what they promise.
`dafny verify dfyconfig.toml` checks everything.

## What is modelled

**The secret channel** is the centre. `ChannelCore` gives each critical section of
`SecretReader` as a function on the shared fields and on a heap of secret buffers.
`SecretReader` is the same object in imperative form (arrays zeroed in place, a wake-up
channel closed and replaced), every method proved equal to the function. `ChannelSystem` is a
transition system whose steps are those critical sections: one pump, any number of
`runOperation` calls, `Close`, cancellation at any moment, and a runner that may return
anything and may overwrite the secret it was given. A run is a list of events; nondeterminism
is in the events, so "for every list of events" means every interleaving. `ChannelInvariant`
and `ChannelHistory` hold the inductive invariant, part by part; `SOUND` is the set of states
that satisfy it, and `RunKeeps` puts every reachable state in it. `ChannelTheorems`,
`ChannelProgress`, `ChannelSchedule` and `ChannelCauses` state the results.

**The CWS1 codec** (`SecretFrame`, with UTF-8 of RFC 3629 in `Utf8`) covers the reader, the
server's writer and the example client's writer, including the wrap-around of the 16- and
32-bit length fields, and streams of frames.

**File installation** (`AtomicFiles`) runs `AtomicPath` and `AtomicPair` on a `Disk` object
whose every change is recorded in `seen`, so that contracts can speak about each moment and
not only about the return. The function `fails` says which system calls fail and is
arbitrary; the write callback is an arbitrary script on its temporaries.

**Key files** (`SymmetricKey`) go through that same disk. `AlgorithmList` is the normaliser of
OpenSSL listings and `LineReader` the line reassembly of the Swift client. `Text` holds the
functions of Go's `strings` and `bytes` packages that these need, exact on bytes.

**Literal statements.** What crosses the border of the program is stated with literal
characters and numbers, independently of the constants and functions that compute it: the
bytes of a frame (`OnTheWire`, `Fault`), the codes and arguments of an operation
(`ReplyExplained`), digits and sizes of keys, white space (`SpaceIff`), and the printed form
of an OpenSSL list (`AlgorithmText`).

Go strings are byte sequences throughout. Buffers are numbered in order of allocation, so
buffer `i` belongs to frame `i` of the stream.

## Findings

- RPC.md (lines 127-131) says that each reference can be claimed once. The reader
  refuses a reference only while it is pending, so a repeated one can be claimed again.
  `ReferenceClaimedOnceIff` proves that the sentence holds exactly of streams without a
  repeated reference; what does hold always is one claim per frame (`FrameClaimedOnce`).
- `AtomicPair` does not compare its absolute destinations. If both paths resolve to one place
  the second output wins and nil is returned. Its contract says when a success means both
  outputs: exactly when the destinations differ or the two outputs are equal. In
  `FirstOutputLost` two spellings of one place make it report success with the first output
  gone. `newKeygenCommand` compares the paths as given (`internal/cli/keygen.go:54`), which
  does not prevent it.
- `AtomicPair` registers the removal of a temporary only after closing it
  (`internal/secureio/files.go:103-106`), so a failing close leaves that empty temporary
  behind. `CloseFails` is the exact condition, on the calls: the error is `CloseFailed(i)`,
  and temporary `i` is left, if and only if every check and call before passes and the close
  of output `i` fails. Apart from it only a failing second rename with force leaves a change.
  `TemporaryLeft` and `FirstOutputLeft` are disks on which each of the two happens.
- A cancellation does not make a waiting read fail: the wait may see the wake-up first, and a
  turn before the wait never looks at the context (`internal/rpcapi/secrets.go:59-81`).
  `CancelledEndIff` proves how an accepted operation ends that was cancelled before its runner
  came back: as `cancelled` if and only if it asked for no secret or got one, as `failed` if
  and only if it got none. `CancelledWaiterHasTwoEnds` takes one waiter to both ends, from
  a state that `CancelledWaiterReached` reaches with every input that begins with a frame.

## Assumptions

- `int` has 64 bits, as on the release targets.
- The bytes that the secret pipe delivers are a finite sequence followed by an end or an
  error; after `Close` the reader may fail earlier. A reader that blocks is a pump that takes
  no step, and any reachable state of an endless stream has read only a finite part of it.
- `os.CreateTemp` picks names in the directory of the destination that are neither taken nor
  destinations; a discarded `os.Remove` succeeds; no other process changes the directories;
  the callback touches only its temporaries and leaves them regular or absent. Two different
  absolute paths are two different places, so no directory on the way is a symbolic link.

## Model

| member | source | states |
|---|---|---|
| Utf8.ValidIffEncoding | internal/rpcapi/secrets.go:137-140 | the validity table accepts exactly the encodings of sequences of Unicode scalar values |
| SecretFrame.LengthFieldsRoundTrip | internal/rpcapi/secrets.go:197-200 | a 16- or 32-bit length field keeps a length exactly when it fits, so no accepted length is truncated |
| SecretFrame.ReadIffEncoded | internal/rpcapi/secrets.go:116-150 | codec bijection: a frame is read if and only if it is valid and its encoding is what the input starts with |
| SecretFrame.ReadIsTheWire | internal/rpcapi/secrets.go:116-150 | reading gives the frame whose bytes the input starts with, or the first fault, each error if and only if its fault is the first |
| SecretFrame.PrefixFree | internal/rpcapi/secrets.go:190-205 | no encoded frame is a proper prefix of another |
| SecretFrame.ReadAllOfEncoded | internal/rpcapi/secrets.go:84-92 | reading a concatenation of encoded frames and any tail yields those frames, then what the tail yields |
| SecretFrame.ReadAllIsEncoded | internal/rpcapi/secrets.go:84-92 | whatever a stream yields re-encodes to a prefix of the bytes read |
| SecretFrame.UniquelyDecodable | internal/rpcapi/secrets.go:84-150 | two frame lists with the same encoding are the same list, and reading finds it |
| SecretFrame.TruncatedStream | internal/rpcapi/secrets.go:116-150 | a stream cut inside its last frame yields every earlier frame, then the error of the field where it was cut, never a frame |
| SecretFrame.AppendSecretFrame | internal/rpcapi/secrets.go:190-205 | appends exactly the bytes of the frame: "CWS1", big-endian lengths of 2 and 4 bytes, reference, secret; or refuses a reference that is not 1 to 256 bytes of UTF-8, or a secret over 65536 bytes |
| SecretFrame.ClientSecretFrame | examples/go-rpc-client/main.go:113-131 | writes the same bytes field by field, without the UTF-8 check |
| SecretFrame.WriteWithBoth | examples/go-rpc-client/main.go:113-131 | both writers give the same result exactly for references that are UTF-8 or have a refused length; the reader takes what the server's writer makes and refuses what only the client's makes |
| SecretFrame.ClientFrameIsRead | internal/rpcapi/secrets.go:116-150 | the client's frame is read back as its pair, or refused as not UTF-8 when that is what it is |
| SecretReader.ReadSecretHead | internal/rpcapi/secrets.go:116-140 | header and reference are read as the codec says, with the error of the first fault; the buffer that the reference was read into is erased |
| SecretReader.ReadSecretFrame | internal/rpcapi/secrets.go:116-150 | a whole frame is read into a fresh buffer; of a payload that comes in part, the very buffer it was read into is erased |
| SecretReader.SecretReader.constructor | internal/rpcapi/secrets.go:37-50 | a new reader has nothing pending, no error and one open wake-up channel |
| SecretReader.SecretReader.SignalLocked | internal/rpcapi/secrets.go:183-186 | exactly the current wake-up channel is closed and a fresh one takes its place |
| SecretReader.SecretReader.SetErrorLocked | internal/rpcapi/secrets.go:170-181 | only a first error is recorded; clearing erases and forgets every pending secret in any map order; waiters are woken |
| SecretReader.SecretReader.LookupLocked | internal/rpcapi/secrets.go:61-74 | a pending secret goes to the caller before any error is looked at; else the error; else the open channel to wait on |
| SecretReader.SecretReader.DeliverLocked | internal/rpcapi/secrets.go:87-112 | the pump's section: closed, duplicate, overflow or filed, with the erasures of each case |
| SecretReader.SecretReader.PumpOnce | internal/rpcapi/secrets.go:85-113 | one turn of the pump: reads a frame and delivers it, or records why it could not |
| SecretReader.SecretReader.Pump | internal/rpcapi/secrets.go:84-114 | the whole loop, undisturbed, processes the rest of the stream |
| SecretReader.PumpFilesAll | internal/rpcapi/secrets.go:84-114 | undisturbed, the pump files every frame of a stream that repeats no reference and fits 32 places: each is found intact under its reference, nothing else is added, nothing is lost, and the end is recorded |
| SecretReader.SecretReader.Close | internal/rpcapi/secrets.go:152-168 | closes once, erases all pending secrets, keeps an earlier error |
| Basics.Zero | internal/rpcapi/secrets.go:207-211 | overwrites a whole buffer with zeros |
| ChannelInvariant.RunKeeps | internal/rpcapi/secrets.go:52-186 | every reachable state of pump, operations and Close satisfies the inductive invariant |
| ChannelInvariant.StepKeeps | internal/rpcapi/secrets.go:52-186 | every single step of every event keeps the invariant |
| ChannelHistory.RunHistory | internal/rpcapi/secrets.go:84-150 | in every reachable state the histories (stories, claims, queues, parsed input) agree with the state |
| ChannelTheorems.OneHolder | internal/rpcapi/secrets.go:52-181 | ownership: each secret buffer is in one place only (pump, pending under its own reference, one operation of that reference) or all zeros |
| ChannelTheorems.ClaimCarriesItsFrame | internal/rpcapi/secrets.go:61-66 | every return carries a whole frame of the stream to an operation of its reference |
| ChannelTheorems.FrameClaimedOnce | internal/rpcapi/secrets.go:61-66 | no frame is returned twice and no operation gets two |
| ChannelTheorems.NoLostWakeup | internal/rpcapi/secrets.go:59-81 | a waiter whose reference is pending, or for whom an error, a close or the pump's end has come, can wake up |
| ChannelTheorems.ErasedAtQuiescence | internal/rpcapi/server.go:48-49 | after Close, with the pump gone and every operation back, every secret buffer is all zeros |
| ChannelTheorems.ErasedAfterOperation | RPC.md:129-130 | in every reachable state a claimed buffer is with the operation that claimed it, or that operation is done and the buffer is all zeros |
| ChannelTheorems.BoundedAndExplained | internal/rpcapi/secrets.go:93-109 | at most 32 frames pend; exit and close always leave an error; a recorded read error is how reading the input ends |
| ChannelCauses.ErrorIff | internal/rpcapi/secrets.go:93-109 | the recorded error is Duplicate exactly if, before any error, the pump held a frame whose reference was pending; Overflow exactly if it held another while 32 waited; Closed exactly if the channel was closed; a read error exactly if the reading ended so |
| ChannelTheorems.FirstErrorStands | internal/rpcapi/secrets.go:170-173 | once recorded, the error never changes in any continuation |
| ChannelTheorems.PoisonedForEver | internal/rpcapi/secrets.go:93-109 | after a duplicate, an overflow or Close nothing is pending and nothing is claimed in any continuation |
| ChannelTheorems.NoFrameLost | internal/rpcapi/secrets.go:84-113 | in every reachable state that is not poisoned, each parsed frame is in exactly one place: with the pump, waiting intact under its reference, or returned whole; a read error costs none |
| ChannelTheorems.PoisonedIff | internal/rpcapi/secrets.go:93-109 | a run poisons the channel if and only if it closes it or meets a frame that cannot be filed (closed, reference taken, 32 waiting); then all that neither the pump nor an operation has is erased |
| ChannelTheorems.FirstInFirstOut | internal/rpcapi/secrets.go:61-66 | per reference, reads in lock order return a prefix of the stream's payloads for it, in stream order, reuse included |
| ChannelTheorems.OperationStory | internal/rpcapi/server.go:176-217 | of every finished operation of every run: parameters are refused exactly when both choices are given or a required one is missing; the trace follows from the reply and its last stage tells the kind of reply; the runner is called once if and only if "running" was reported, with the request's arguments, "--no-passphrase" appended if so chosen, and the very secret that this operation's own read returned, framed under the requested reference |
| ChannelCauses.ReplyIsTheRunners | internal/rpcapi/server.go:205-216 | in every continuation the reply is what the runner returned: its output, or code 1002, 1003, 1004 for exit status 2, 3, 4 and 1001 otherwise, unless it was cancelled by then |
| ChannelCauses.ReplyExplained | internal/rpcapi/server.go:176-247 | every reply of every run has its cause: refused parameters, no channel, a bad reference, a cancelled wait, the channel's error, or the return of the runner with its outcome and any Cancel before it |
| ChannelTheorems.CancelledNeverCompletes | internal/rpcapi/server.go:206-214 | an operation cancelled before its runner came back never reports a result or the runner's failure in any continuation |
| ChannelTheorems.CancelledEndIff | internal/rpcapi/server.go:192-209 | in every continuation an accepted operation cancelled before its runner came back ends as cancelled if and only if it asked for no secret or claimed one, and as failed if and only if it claimed none |
| ChannelTheorems.CancelledWaiterHasTwoEnds | internal/rpcapi/secrets.go:76-80 | from any state with a cancelled waiter whose secret is pending, one run ends it as failed and another as cancelled |
| ChannelSchedule.CancelledWaiterReached | internal/rpcapi/secrets.go:76-80 | every input that begins with a frame has a run to a cancelled waiter whose secret is pending |
| ChannelProgress.NoStuckOperation | internal/rpcapi/secrets.go:59-81 | while an operation has not returned, it or the pump can take a step |
| ChannelProgress.StepUsesWork | internal/rpcapi/secrets.go:59-114 | every step of the program uses up a bounded amount of work, although signals wake waiters again |
| ChannelProgress.StepsRunOut | internal/rpcapi/secrets.go:59-114 | from any reachable state the program takes at most that many steps before it waits for its surroundings |
| ChannelProgress.RestIsCompletion | internal/rpcapi/server.go:176-217 | when no step is left every operation has returned, and after Close every secret is erased |
| ChannelSchedule.CalmRun | internal/rpcapi/secrets.go:84-113 | with at most 32 frames of distinct references, no Close and no cancellation, no interleaving poisons the channel |
| ChannelSchedule.ScheduleIndependent | internal/rpcapi/secrets.go:52-113 | in such runs what each finished reader got depends on the stream alone: its own payload, or the stream's error for an absent reference |
| ChannelSchedule.EveryReaderServed | internal/rpcapi/secrets.go:52-113 | such a run taken to its end gives every reader of a carried reference its payload |
| ChannelSchedule.DrainRun | internal/rpcapi/secrets.go:52-113 | every frame of every stream can be claimed by some run |
| ChannelSchedule.ReferenceClaimedOnceIff | RPC.md:127-131 | each reference is claimed at most once in all runs exactly when the stream repeats none |
| AtomicFiles.AtomicPath | internal/secureio/files.go:14-66 | errors leave the initial file system without a temporary; success installs the callback's whole content with the mode over nothing or, forced, a regular file; no other state is ever seen; success and each error occur exactly when the named check or one of seven system calls is the first not to pass |
| AtomicFiles.InspectOutput | internal/secureio/files.go:22-41 | passes exactly an absent or, forced, a regular destination in a directory, when both calls succeed; each error exactly for its own reason |
| AtomicFiles.InstallOutput | internal/secureio/files.go:43-65 | the same for the part from the temporary to the rename, with its exact condition of success |
| AtomicFiles.AtomicPair | internal/secureio/files.go:75-126 | success, exactly when all checks and ten calls pass and the callback leaves two regular files, installs both (both are there if and only if the destinations differ or the outputs are equal); an error changes nothing but for a close that fails, which leaves exactly that temporary, and for a second rename that fails with force, which leaves exactly the first output new; every error if and only if its check or call is the first not to pass; every moment shows nothing new, the first output, or both |
| AtomicFiles.PrepareTemps | internal/secureio/files.go:79-107 | passes if and only if both outputs pass their checks and their three calls; each error if and only if its check or call is the first not to pass; the deferred removals of an early return |
| AtomicFiles.InstallPair | internal/secureio/files.go:116-125 | two renames and the roll-back of the first without force, each result if and only if its call fails |
| AtomicFiles.FirstOutputLost | internal/secureio/files.go:116-125 | on a disk where nothing fails, two spellings of one place give success and lose the first of two different outputs |
| AtomicFiles.TemporaryLeft | internal/secureio/files.go:103-106 | on a disk where only the close of output i fails, the error is CloseFailed(i) and exactly that temporary is left |
| AtomicFiles.FirstOutputLeft | internal/secureio/files.go:119-123 | on a disk where only the second rename fails, with force exactly the first output is left |
| SymmetricKey.KeyTextRoundTrip | internal/cli/cms.go:338-350 | reading the written text of a key returns it exactly for the three lengths |
| SymmetricKey.EncodeHexDigits | internal/cli/keygen.go:173 | byte i is written as two digits of "0123456789abcdef", high digit first |
| SymmetricKey.AcceptedText | internal/cli/cms.go:338-351 | every accepted file is, but for case and surrounding space, the text of the key it yields |
| SymmetricKey.AcceptedIff | internal/cli/cms.go:337-351 | a file is accepted if and only if its trimmed text spells, in digits of either case, a key of 16, 24 or 32 bytes; each error if and only if it spells another key, or none |
| SymmetricKey.SpacedTextRoundTrip | internal/cli/cms.go:337-351 | the digits of a key in any case, with any blanks, tabs and line ends around them, are read as that key |
| SymmetricKey.KeyFileRoundTrip | internal/policy/algorithms.go:61-78 | for every algorithm of the table and every key of its size: written, read back, and the inferred cipher suits the key |
| SymmetricKey.BitsAreInTheName | internal/policy/algorithms.go:61-78 | the table is exactly: AES, Camellia and ARIA with 128, 192 and 256 bits as their names say, ChaCha20 with 256, SM4 with 128 |
| SymmetricKey.InferredCipher | internal/cli/cms.go:353-364 | exactly keys of 128, 192 and 256 bits get a cipher, AES-GCM of their own size |
| SymmetricKey.CipherSaysItsSize | internal/cli/cms.go:366-384 | a cipher accepts a key exactly if the key has the size in the cipher's name |
| SymmetricKey.WriteKey | internal/cli/keygen.go:172-180 | both buffers are zero afterwards, whatever happens; the file is the key's text with mode 0600, or nothing changed |
| SymmetricKey.NewSymKey | internal/cli/keygen.go:159-180 | succeeds exactly when algorithm, random source, destination and every call allow it, and then the destination is the drawn key in hexadecimal and a line end, with mode 0600; else nothing changed; the buffer that the source filled is erased |
| SymmetricKey.DecodeKey | internal/cli/cms.go:337-351 | the text is zero afterwards; the key is what the text encodes, or zero with the error of the failing check |
| SymmetricKey.ReadHexKey | internal/cli/cms.go:326-352 | returns the key if and only if the path is a readable regular file whose text is a key, else the error that the text gives; the buffer that the file was read into is erased |
| SymmetricKey.WriteThenRead | internal/cli/cms.go:326-352 | on one disk, the file that symkey writes is read back as the key that was drawn, for every algorithm |
| SymmetricKey.DecodeInto | internal/cli/cms.go:339-340 | in-place hexadecimal decoding succeeds exactly on an even number of digits |
| LineReader.Client.ReadLine | examples/swift/CryptoWrapperRPC.swift:104-119 | one call does what the chunk-wise specification says to buffer and pipe |
| LineReader.NextLineIsFirst | examples/swift/CryptoWrapperRPC.swift:104-119 | it returns the first line of all bytes present or still to come, and loses none |
| LineReader.SplitIffJoined | examples/swift/CryptoWrapperRPC.swift:104-119 | lines without LF, each followed by LF, then the retained bytes: there is exactly one such reading of a byte string |
| LineReader.ChunkingIrrelevant | examples/swift/CryptoWrapperRPC.swift:104-119 | the lines of a session do not depend on the chunks and, with the retained bytes, are what was received |
| AlgorithmList.AddAlgorithmAliases | internal/openssl/client.go:277-286 | adds exactly the non-empty aliases that are no OIDs |
| AlgorithmText.ListingIsComplete | internal/openssl/client.go:243-294 | completeness: the names listed of an output are exactly those its entries stand for (plain names, names with a target, alias lists without dotted OIDs; headings, properties and remarks stand for none), the output being printed with literal characters |
| AlgorithmText.ListEntries | internal/openssl/client.go:242-274 | the same of ListAlgorithms on such an output |
| AlgorithmText.AliasesListed | internal/openssl/client.go:277-286 | an alias list printed with ", " yields exactly its aliases that are no dotted OIDs |
| Text.SpaceIff | internal/cli/cms.go:337 | TrimSpace takes from either end exactly the encoded characters of Unicode white space |
| Text.TrimIs | internal/openssl/client.go:244 | white space on both sides is taken away, all of it, and nothing else |
| AlgorithmList.ListAlgorithms | internal/openssl/client.go:242-274 | the result is strictly increasing byte by byte and its elements are the names of the set of lines, whatever order the map is walked in |
| AlgorithmList.ListingIsCanonical | internal/openssl/client.go:269-274 | two outputs with the same set of lines have the same listing |
| AlgorithmList.NamesStandInLines | internal/openssl/client.go:243-274 | nothing is made up: every listed name stands in one piece within one line of the output |
| AlgorithmList.NamesAreProper | internal/openssl/client.go:243-294 | no listed name is empty and no dotted OID comes from an alias list |

## Left out

- runOperation and the waiting loop of Read are on values, as steps of the transition system, because they interleave with the pump and with Close; the locked sections they run are also methods of the class.
- The jrpc2 transport, its limit of four handlers, the delivery of cancellations, notifications to requests without an identifier, and JSON: library behaviour; cancellation is an event that may come at any moment.
- Copies of a secret that the runner makes for itself, and the string that the frame reader returns as the reference.
- The runner, the OpenSSL subprocess and the C library behind internal/cmslib: foreign calls; their outcomes are arbitrary.
- The texts of errors, and which file-system error a failing call returned: only the branch taken is kept.
- SymmetricKey.NewSymKey: names reach the policy table already in lower case and trimmed; Unicode case folding is not modelled.
- The other policy tables, command-line flags and methods.go: settled by reading one table, or dependent on cobra.
- ParseVersion and Supported, key classification, exit-code tables and handshake contents: easy members.
- Passphrase prompts, passphrase files and RunPassphrase: terminal, environment and pipe input and output.
- Crashes, unsynced data and other processes at work in the destination directory.
