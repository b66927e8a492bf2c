# etar, modelled and verified in Dafny

`etar` reads, writes and validates tar and tar.zst archives over asynchronous byte
streams whose content is not trusted. This project models its read path, a tower of
stateful byte-stream adapters, together with the writer that produces archives, and
proves what the tower promises as a whole.

```
source -> Meter -> magic peek, decoder -> Cap -> HeaderGuard -> tar parser -> Reader -> lent bodies (Bounded)
entries, bodies (Exact) -> tar builder -> optional encoder -> Counted -> sink
```

Every adapter is a class whose fields are those of the source, and every `poll_read` or
`poll_write` is a method that updates them in place. The environment is adversarial: each
poll of a source or sink may be pending, fail, or move any part of what was asked for; a
caller offers any buffer size; and any awaited call may be abandoned whenever it is
pending. Against that environment the proofs establish one-shot meanings, which are
recursive functions over the whole input:

* `Framing.Frame` reads a whole stream as headers, data and PAX size overrides. The
  resumable guard refines it for every chunking.
* `Pax.Read` is what the PAX record loop computes; it is characterised by a grammar that
  is stated without a parser.
* `Parser.Scan` and `Listings.List` say which entries an archive holds and how it ends. The
  reader's answers are that listing, item by item, and the set of archives that finish
  cleanly is characterised by their framing.
* `Writers.TarOf` is the archive a writer leaves behind. It is listed as exactly the
  entries that were appended.

What these functions mean is stated once more on bytes and numbers, without naming them or
their constants: the lemmas whose names end in `InNumbers` or `InBytes`, `Paths.Confined`,
`Open.OpensIff` and `RoundTrip.TypeBytes` say which bytes are let through, which error any other
input gets, and what type byte goes with which kind of entry.

| file | models |
|---|---|
| `Streams.dfy`, `Base.dfy`, `Errors.dfy` | the environment, bytes and widths, error values |
| `Decimal.dfy`, `Pax.dfy` | checked decimals and the PAX record parser (`src/guard.rs`) |
| `Framing.dfy`, `Guard.dfy` | what framing means, and the incremental `HeaderGuard` (`src/guard.rs`) |
| `Compress.dfy`, `Cap.dfy`, `Open.dfy` | metering, magic peek, decoder, caps, entry opening (`src/compress.rs`, `src/open.rs`) |
| `Parser.dfy` | a declared model of the tar parser the reader is built on |
| `Paths.dfy` | path validation and confinement (`src/entry.rs`) |
| `Listing.dfy`, `ReaderRuns.dfy`, `Reader.dfy` | archive meaning, the control protocol, the stateful reader (`src/reader.rs`) |
| `Output.dfy`, `Pack.dfy`, `Writer.dfy`, `WriterRuns.dfy` | the writer, its body adapters and its protocol (`src/pack.rs`, `src/writer.rs`) |
| `RoundTrip.dfy`, `Ustar.dfy` | writer to reader, for every agreeing header codec and for a concrete ustar one |
| `Witness.dfy` | concrete archives on which the code does less than one would expect |

## Where the code does less than one would expect

These are properties of the code as it stands. Each is stated with its exact condition.

* **A plain archive can be mistaken for zstd.** `src/compress.rs` chooses the decoder by
  the first four bytes of the stream, and a plain archive starts with the path of its
  first entry. A path that begins with the bytes 28 B5 2F FD is accepted by `SafePath`.
  `RoundTrip.PlainRoundTrip` shows that the plain round trip holds if and only if the
  archive does not start with those bytes, `Ustar.UstarRoundTrip` turns this into a test
  on the first entry alone, and `Witnesses.MagicEntryIsLost` gives an archive that is lost.
* **The guard's own errors are not final.** It raises two kinds of error. A rejected header
  stays in the guard and is inspected again by the next poll; as the override is consumed
  before the overflow check, it may then be accepted. Behind a bad PAX body the guard goes
  on to the next header. `Guard.HeaderGuard.PollRead` gives the state after either error,
  and `Guard.DrainThenInsist` the exact condition: errors are final if and only if the complete
  header at the place of the error is rejected both under the override left and under the
  override which that rejection leaves. `Witnesses.RejectedOnceOnly` and
  `Witnesses.BadPaxOnceOnly` are archives where either kind is not final. Only the
  reader's poisoning makes errors final (`ReaderRuns.RunSafety`).
* **Directories and links can have bodies.** `docs/api.md` says that directory and link
  entries with nonzero body lengths are rejected. The code compares the header's own size
  with zero, and a PAX size override is not looked at. `Listings.NonFileBody` says exactly
  when an accepted entry of such a kind has a body, and `Witnesses.DirectoryCarriesBytes`
  is an archive that is accepted whole and whose only entry is a directory with five bytes.

## Model

| member | source | states |
|---|---|---|
| `Decimal.ParseIsValue` | src/guard.rs:185-194 | the checked left fold yields the place-value meaning of the numeral exactly on non-empty digit strings whose value fits 64 bits, so an overflow partway implies overflow of the whole |
| `Decimal.PrintParse` | src/guard.rs:185-194 | printing any 64-bit number and parsing it gives the number back |
| `Decimal.LeadingZeros` | src/guard.rs:185-194 | any number of leading zeros changes neither verdict nor value |
| `Pax.ParsePaxSize` | src/guard.rs:161-183 | the record loop over a shrinking body computes the recursive reading, terminates on every body, and never leaves its slices' bounds |
| `Pax.ReadIffGrammar` | src/guard.rs:161-183 | a body is accepted exactly when it is the concatenation of self-length-prefixed, newline-ended records whose `size` values are 64-bit decimals; the result is the last such value; the only error is malformed input |
| `Pax.ReadPrint` | src/guard.rs:161-183 | parsing the print of any good record list returns its last size, whatever bytes the values hold and however the length is spelt |
| `Pax.BothLengths` | src/guard.rs:161-183 | both self-consistent spellings of one record, with lengths 9 and 10, are read as the same size |
| `Pax.ReadHead` | src/guard.rs:165-171 | each turn of the loop takes at least three bytes and no more than there are |
| `Framing.HeaderInNumbers` | src/guard.rs:45-83 | what becomes of any 512 bytes at any offset, by byte values: a zero block ends the framing; otherwise the fault is a refused type if and only if byte 156 is none of the nine let through, a breach of the metadata limit if and only if it is 120, 76 or 75 and the readable size is above the limit, malformed if and only if the type is let through and the size in force cannot be read or rounded up; in all other cases the header is framed |
| `Framing.FaultInNumbers` | src/guard.rs:45-159 | every fault of a framing is one of three errors, and a refused type byte or an oversized extension stands at the very offset of its fault |
| `Framing.CutInNumbers` | src/guard.rs:103-118 | when an input is cut short, less than a header block of it does not get through |
| `Framing.Overrides` | src/guard.rs:69-81 | for every stream and every record: the length skipped after an ordinary header is the last size of the most recent completed PAX record since the previous ordinary header, else the raw size; `L` and `K` records do not consume it, a later PAX record without a size clears it, it is used at most once, and records are contiguous |
| `Framing.OverridesInNumbers` | src/guard.rs:69-81 | the same without looking back record by record: across any run of `L` and `K` records, an ordinary record has the size that the PAX record in front of the run sets, and its own when that one sets none, is ordinary, or is not there |
| `Framing.RejectionIsNotFinal` | src/guard.rs:76-81 | inspected again under the override its rejection leaves, a header is accepted if and only if it was rejected for an overflowing override and its own size does not overflow |
| `Framing.FramePrefix` | src/guard.rs:45-159 | every decision made on part of the input stands when more arrives |
| `Framing.StopBounds` | src/guard.rs:87-131 | framing ends inside the input, and a trailer's zero block lies wholly inside it |
| `Guard.Drain` | src/guard.rs:87-131 | chunking independence: for any pending answers, inner chunk sizes and caller buffers, the inspected headers, the bytes passed on and the first error with its offset are those of framing the whole input at once; the loop ends; an error is the guard's own exactly when it is one of three kinds no reader underneath reports, and behind it the guard stands under the override that the records framed before it leave |
| `Guard.DrainInNumbers` | src/guard.rs:87-131 | a whole run in bytes: without an error everything is passed on but a partial header before any trailer, a refused entry type is reported only where byte 156 is none of the nine let through, and a breach of the metadata limit only where an extension is above it |
| `Guard.PollAgain` | src/guard.rs:111-127 | polled after an error of either kind, the guard errs again if and only if the complete header it stands before is rejected under the override left, at the same offset and without a byte, save that a header not yet collected can be lost to the reader underneath |
| `Guard.Insist` | src/guard.rs:76-81 | finality of the guard's errors: two in a row mean that the header is rejected under both overrides, and then every later poll errs |
| `Guard.DrainThenInsist` | src/guard.rs:87-131 | a whole run past the first error: from a fresh guard, the first error is the framing's, behind its records and at its offset, and it is final if and only if the complete header there is rejected under the override the framing leaves behind and under the one that rejection leaves, save that a header not yet collected can be lost to the reader underneath |
| `Guard.FaultIsOwn` | src/guard.rs:51-82 | every fault of a framing is one of the guard's own three errors |
| `Guard.HeaderGuard.PollRead` | src/guard.rs:87-131 | one poll passes on the next input bytes in order, an empty success with room to spare means the end of the input, every error of its own is the fault its framing ends with at that very offset, and bytes accompany one only at the end of a PAX body; after an error the guard frames on from there, holding a rejected header with the override its inspection left, or behind a bad PAX body with the override from before that record |
| `Guard.HeaderGuard.ReadData` | src/guard.rs:134-158 | the same for a poll inside a record's data, with the state after a bad PAX body |
| `Guard.HeaderGuard.FillHeader` | src/guard.rs:102-110 | after any pending answer or error the bytes pulled are those emitted followed by those held, so collecting a header resumes without loss |
| `Guard.HeaderGuard.Inspect` | src/guard.rs:45-83 | the method decides as the framing does, and every verdict's effect on trailer flag, capture state, override and data length, rejections included: those leave flag and length alone, and may consume the override or open a capture |
| `Guard.HeaderGuard.Capture` | src/guard.rs:141-146 | of the data bytes passing by, exactly those still inside the declared size are kept |
| `Guard.HeaderGuard.CaptureIsExact` | src/guard.rs:63-82 | while a PAX body is open it holds exactly the first bytes of the record's data, kept and wanted bytes make up the declared size, that is within the metadata limit, and no more is wanted than data is left |
| `Guard.HeaderGuard.TakenWithinReach` | src/guard.rs:96-131 | the guard has passed on no more than its framing allows, before an error and after it |
| `Compress.Meter.PollRead` | src/open.rs:136-156 | the count is the number of source bytes pulled after every poll, and a transport error keeps its kind and is marked as such |
| `Compress.Decoded` | src/compress.rs:8-24 | however the first four bytes are chunked, and for shorter streams, the decoder chosen is that of a prefix test on the whole stream and the peeked bytes are replayed exactly; it can be abandoned only while pending |
| `Compress.Decoder.PollRead` | src/compress.rs:27-39 | decoded bytes come in order, never ahead of what the pulled input decodes to, and the end is reported only when everything was pulled and decoded and no frame is incomplete; an error means that the transport failed or the stream is corrupt or incomplete |
| `Caps.Cap.PollRead` | src/open.rs:233-261 | delivered bytes never exceed the total cap and stay within the ratio above the floor, after every poll and under later growth of the meter; a breach withdraws the whole read, names its cap, and every later read fails; short of a transport failure or a bad stream only a breach fails |
| `Caps.Cap.Breach` | src/open.rs:264-280 | no cap is reported exactly when the charged total is within both, and the total cap is reported first |
| `Caps.Cap.MeteredBeforeDecoded` | src/open.rs:275-277 | no decoded byte appears before the first encoded byte, so the guard against a zero meter never hides a breach |
| `Caps.RawFits` | src/open.rs:264-280 | an uncompressed stream within the total cap breaches no cap, under any ratio but zero |
| `Caps.FitsInNumbers` | src/open.rs:264-280 | the caps in numbers: a stream fits exactly when it is complete, within the total, and at most eight mebibytes long or nowhere decoded to more than the ratio times what was fed |
| `Parser.Entries.Next` | src/reader.rs:166-169 | whatever the chunking, the parser's answer over the guarded stream is that of scanning the whole input from its position, unless the stream underneath fails; a call is given up only after a pending answer, and no entry comes with an extension above the metadata limit |
| `Parser.ExtensionsAreModest` | src/guard.rs:63-68 | what the guard bounds for the parser: every extension body collected for an entry is within the metadata limit |
| `Parser.Entries.ReadExtension` | src/guard.rs:63-68 | the extension being buffered is within the limit too, and joining it leaves parser and guard at the same header |
| `Parser.Entries.DataSound` | src/guard.rs:149-156 | behind a sound extension the scan and the guard's framing go on at the same header and under the same override |
| `Parser.Entries.HeaderLost` | src/guard.rs:111-113 | a header lost to a guard error is lost to the rejection of that very header |
| `Parser.Entries.PollBody` | src/open.rs:28-37 | one poll of an entry's body hands over its next bytes and never reaches beyond its end |
| `Paths.NewInBytes` | src/entry.rs:71-110 | on the bytes of the path: it is refused as empty, for a zero byte, for a leading slash, or, apart from those, if and only if two dots stand in it between slashes or its ends; otherwise it is accepted as it is |
| `Paths.SegmentsJoin` | src/entry.rs:89-101 | the pieces a path is taken apart into hold no slash, and joined by slashes they give the path back |
| `Paths.LeadsTo` | src/entry.rs:89-101 | an accepted path leads, from any directory, through exactly its pieces in order, empty ones and single dots left out |
| `Paths.Confined` | src/entry.rs:89-110 | following an accepted path from any directory stays below that directory at every step, and every name it goes down by is non-empty, without a slash, and neither one dot nor two |
| `Open.OpenEntry` | src/open.rs:39-117 | an opened entry has a safe path within the length limit, a permitted kind that goes with its type byte, a claimed size within the entry limit, and a size of zero unless it is a file |
| `Open.KindsInNumbers` | src/open.rs:75-119 | an opened entry is a symbolic link if and only if its type byte is 50, a hard link if and only if 49, a directory if and only if 53, a file if and only if 0, 48 or 55; its target, path, size, owner, mode and time are what the accessors read; and a link with nothing else wrong is refused if and only if links of its own kind are not allowed |
| `Open.OpensIff` | src/open.rs:39-119 | exactly which raw entries are opened, by type byte and accessor values and without the order of the checks, and exactly when an entry is refused for its payload, its size, its kind, its path or as malformed |
| `Open.Bounded.PollRead` | src/open.rs:178-199 | at most the cap is delivered, in order; the read that would exceed it is withdrawn and reported, and every later read fails |
| `Listings.AcceptedIffFramed` | src/reader.rs:155-238 | the acceptance language: a clean end is reached exactly when the stream frames as records, then one zero block, then at least 512 bytes all zero up to the end, and the records are usable within the limits; the entries are then the records that are not extensions |
| `Listings.EndInNumbers` | src/reader.rs:155-238 | what is listed, whatever came before, where no entry can be found: cut short, malformed; a zero block, a clean end if and only if at least 512 zero bytes and nothing else follow; a type byte that is none of the nine, an extension above the limit, or a size that cannot be read or rounded up, the error of each |
| `Listings.EntryInNumbers` | src/reader.rs:202-213 | what is listed for an ordinary header: malformed for a bad checksum, one entry too many at the limit, the reason it is not opened for, or the entry with its bytes and then the listing from its end on |
| `Listings.CollectedInNumbers` | src/guard.rs:149-158 | what an extension does to the listing: it joins the next header in the slot its type byte names, and a second one of its kind, a cut one and a bad PAX body are malformed |
| `Listings.ScanEndIsTrailer` | src/guard.rs:46-49 | where the parser sees the end of the archive the guard sees the trailer, at the same offset |
| `Listings.FoundSize` | src/guard.rs:76-80 | the body length of an entry is the override in force, or else the header's own size |
| `Listings.NonFileBody` | src/open.rs:45-48 | an accepted directory or link has a body if and only if a PAX record overrides its size with a number above zero |
| `ReaderRuns.RunSafety` | src/reader.rs:104-190 | over every interleaving: after a failed or abandoned call or a failed body read no later call yields an entry or a clean end; a clean end is repeated for ever; at most `max_entries` entries are yielded |
| `ReaderRuns.Reachable` | src/reader.rs:155-213 | in every reachable control state the entries yielded are those counted and within the limit, and no state is both poisoned and finished |
| `Readers.Drive` | src/reader.rs:104-190 | the same of the reader itself: any sequence of calls, body polls and dropped bodies yields a run of the protocol, so every call after a failure or cancellation is refused and every call after a clean end ends again; the entries lent are the first ones of the archive, and all of them once it has ended |
| `Readers.Reader.NextEntry` | src/reader.rs:155-190 | the answers are, one by one, the entries of the archive's listing, then its end or its error; only a failure underneath or giving up after a pending answer changes that, every step obeys the control protocol, and every exit but success poisons; when the header at hand has a type byte that is not let through or is an oversized extension, nothing but a failure underneath hides just that error, and a breach of the total cap is always reported as such |
| `Readers.Reader.VerifyEnd` | src/reader.rs:215-238 | for any chunking of the drain, the end is clean only if zeros alone, and at least 512 of them, follow the zero block to the end of a completely decoded input, and it is refused as malformed only if that is not so |
| `Readers.FirstHeaderDecides` | src/open.rs:283-296 | an archive whose first header has a type byte that is not let through, or is an extension above the limit, is refused for just that and is never sound |
| `Readers.ReadEntry.PollRead` | src/reader.rs:48-61 | a lent body yields the bytes of the entry in order, at most the cap; any failed read poisons the reader, and is explained by the transport, the cap or the archive |
| `Readers.CopyBody` | src/reader.rs:277-279 | reading a body to its end terminates, yields the whole body, and succeeds only within the entry limit |
| `Readers.Validate` | src/reader.rs:270-287 | a report is exact: the source's full length, the decoded length, and one entry for each visible record of an acceptable archive; a refusal is the archive's own reason, or that of the transport, of a bad stream, or of the very cap the stream exceeds; it is left unfinished only when abandoned while pending |
| `Readers.ReadAll` | README.md:24-31 | reading every entry and every body collects exactly the archive's listing up to its clean end, and a first part of it before that |
| `Readers.OpenReader` | src/reader.rs:125-152 | opening puts the tower in place with nothing consumed that the reader will not see, fails only if the transport does, and can be abandoned only while pending |
| `Output.Counted.PollWrite` | src/writer.rs:205-219 | the count is the number of bytes the sink accepted, up to the 64-bit ceiling, under any partial writes |
| `Output.Stream.Write` | src/writer.rs:139-147 | a completed write extends the plain tar stream by exactly the data, and the sink holds it, or a prefix of its compression |
| `Output.Stream.Shutdown` | src/writer.rs:181-192 | after shutdown the sink holds exactly the encoding of the whole tar stream |
| `Pack.Exact.PollRead` | src/pack.rs:157-184 | whatever went before, the next bytes of the source pass in order, and no more of them than are still wanted; a mismatch is flagged only for a body that has another length or for a poll into a full buffer, which never succeeds while bytes are wanted, and it stays flagged |
| `Pack.AppendFile` | src/pack.rs:86-113 | absent failures of sink and body transport, a file is packed if and only if its body has exactly the declared length, however chunked, and the record then holds exactly those bytes |
| `Pack.AppendMeta` | src/pack.rs:116-135 | a bodyless entry adds exactly its header record |
| `Pack.Append` | src/pack.rs:35-83 | for every kind: success exactly adds the entry's record; a payload on anything but a file is refused as that, and nothing else is; a file without a body likewise; any other rejection is for a wrong length, an unencodable header, or an input-output failure |
| `Writers.BuiltEntriesFit` | src/writer.rs:43-72 | an entry that either constructor returns is packed exactly when its header can be encoded and its body has the declared length, and is never refused for a missing or misplaced body; every kind is taken by exactly one of them |
| `Writers.Writer.Append` | src/writer.rs:155-174 | success appends exactly one entry behind the earlier ones; any other outcome poisons; a poisoned writer only refuses |
| `Writers.Writer.Finish` | src/writer.rs:177-197 | a sink comes back only from an unpoisoned writer; it then holds the encoding of exactly the appended records in order and the terminator, and the count is the bytes it accepted |
| `WriterRuns.FinishMeansAllSucceeded` | src/writer.rs:115-197 | over every sequence of calls, a successful finish means that every append before it succeeded, none failed and none was abandoned |
| `Writers.AppendAll` | src/writer.rs:155-174 | appending any list of entries, going on after failures, is a run of the protocol; a writer not poisoned at the end holds exactly the list, and every entry of it was fit to be packed |
| `Writers.AppendAndFinish` | src/writer.rs:115-197 | the same of the writer itself: a sink comes back only if every append of the list succeeded, and it then holds the encoding of exactly the list |
| `RoundTrip.TarReads` | src/pack.rs:35-135 | for every list of entries within the limits, a finished archive is listed as exactly those paths, metadata and bodies, in order, and ends cleanly |
| `RoundTrip.RecordRead` | src/pack.rs:35-135 | one record at any offset, with or without a long name in front, is listed as its entry |
| `RoundTrip.TypeBytes` | src/pack.rs:43-83 | byte 156 of the header block a record stores is 48 for a file, 53 for a directory, 50 for a symbolic and 49 for a hard link, and 76 in the long-name block in front of it |
| `RoundTrip.PlainRoundTrip` | src/compress.rs:8-39 | a plain archive reads back whole under every decoder if and only if it does not start with the zstd magic |
| `RoundTrip.CompressedRoundTrip` | src/compress.rs:27-39 | a compressed archive reads back whole, whatever its first entry is called |
| `RoundTrip.ExpectedIsSound` | src/reader.rs:270-287 | an archive of entries within the limits gives validation no reason to refuse it |
| `RoundTrip.RecoveredReads` | src/reader.rs:125-190 | a stream, plain or compressed, that decodes to a writer's archive within the caps lists the appended entries and gives no reason for refusal |
| `RoundTrip.LegibleWhen` | src/compress.rs:27-39 | when a finished archive can be read back: in plain format, within the caps, unless it starts with the magic; compressed, whenever the decoder undoes the encoder within the caps |
| `RoundTrip.FinishAndValidate` | src/writer.rs:177-197 | in either format, finishing and then validating reports the number of appended entries, the archive's length, and the writer's own byte count; otherwise the sink or the source failed, or was pending when given up |
| `RoundTrip.FinishAndRead` | README.md:14-31 | in either format, what is read back from the finished sink is the paths, metadata and bodies appended, in order, and the clean end comes exactly behind the last of them; otherwise the sink or the source failed, or was pending when given up |
| `RoundTrip.PackAndRead` | README.md:14-31 | from what a caller puts in to what a caller gets out: for any list of entries, either format and any chunking, if the writer finishes then every entry was fit to be packed and reading back yields the list in order |
| `Ustar.UstarIsFaithful` | src/pack.rs:25-32 | a concrete codec in the ustar layout, with GNU magic and long names, meets the agreement the round trips ask for |
| `Ustar.BlockFields` | src/pack.rs:25-32 | every numeric and text field, the kind, the magic and the checksum of an encoded header read back |
| `Ustar.UstarRoundTrip` | src/compress.rs:8-39 | for ustar archives the plain round trip holds if and only if the first path, when it fits the name field, does not start with the magic bytes |
| `Ustar.MagicIffMistakable` | src/compress.rs:27-39 | an archive starts with the magic exactly when its first entry's name field does |
| `Ustar.MagicPathIsMistaken` | src/entry.rs:71-75 | a concrete safe path whose one-entry archive starts with the magic |
| `Witnesses.MagicEntryIsLost` | src/compress.rs:8-39 | that entry is storable and within the limits, and a lawful decoder does not list it |
| `Witnesses.RejectedOnceOnly` | src/guard.rs:76-81 | an archive whose file header is rejected for its override and, inspected again, frames to the trailer |
| `Witnesses.BadPaxOnceOnly` | src/guard.rs:149-156 | an archive whose PAX body is bad and behind which the guard finds the trailer |
| `Witnesses.DirectoryCarriesBytes` | src/open.rs:45-48 | an archive that is accepted whole as one directory claiming no size and carrying five bytes |

## Left out

What the environment is taken to be:

- A source holds at most 2^64 - 1 bytes, encoded and decoded, so the byte counters, which
  wrap in the source, never do. `usize` is 64 bits wide.
- A source or body hands over no bytes together with a pending answer or an error. Each
  stream answers pending an arbitrary but finite number of times, which only bounds waiting
  loops.
- An abandoned call is one dropped at a pending answer, the only place where an `async` call
  can be dropped. Wakers, pinning, the `unsafe` buffer advance and atomic memory ordering are
  not modelled; the single reader makes every step sequential.

Dependencies that are not part of this model and are replaced by declared ones:

- The zstd coder and encoder are arbitrary functions that never retract output; the decoder
  yields nothing for no input, may read ahead, and may report a corrupt stream as soon as it is one.
- The `tokio_tar` parser: `Parser.Entries` joins long names, long links and PAX records to
  the next header, refuses two of a kind, stops at one zero block, and reports a body cut
  short as its end. Header accessors (path, link, size, owner, time, checksum) are
  arbitrary functions, so sparse entries and base-256 numbers are covered only as values of
  those functions. The `path` keyword of a PAX record is a matter of the path accessor.
- The parser's own readings of a header's size and of a PAX `size` are functions of its own.
  That they are the guard's is the hypothesis `Parser.ReadsAlike` (`Readers.SameReadings`),
  under which the reader's theorems hold; the dependency's PAX reader is not checked against it.
- The `tokio_tar` builder: header encoding is an arbitrary function, tied to the accessors by
  `RoundTrip.Faithful`; its normalisation of paths is the parameter `stored`.

Contracts that say less than they might:

- `Readers.Reader.NextEntry`: the arm for a missing parser (src/reader.rs:168) is omitted; the reader's invariant shows it is never taken.
- `Compress.Decoder.PollRead`: reads into the buffer of the decoder are modelled by one held byte string; its capacity bounds a single pull and nothing else.
- `Writers.Writer.Finish`: it consumes the writer in the source. Here the object survives, and `WriterRuns.FinishMeansAllSucceeded` takes a finish as the last event instead.
- `RoundTrip.FinishAndRead`: that a compressed archive stays within the ratio is a hypothesis on the coder, which is arbitrary here.
- `Ustar.UstarIsFaithful`: the codec writes the fields the model uses and the GNU magic, and leaves all others zero. The builder's own number formats (for values too large for octal) are not modelled.

Not modelled because it would only add easy members:

- Limit setters, default limits, error display texts, re-exports and accessors.
- Flushing a sink, which passes straight through.
- Resolving link targets, which the source hands over uninterpreted on purpose.
- Interoperation with other tar programs and stores, heap measurements, benchmarks, fuzzing and release scripts.
