# Verified models of the MPEG-TS, Ogg/Opus and Annex-B containers

This project models, in Dafny 4.11, the container code of the repository that has no foreign code
between its two ends, and proves what it is for. `dafny verify dfyconfig.toml` checks everything.

- **MPEG-TS** (`mpegts/`, ISO/IEC 13818-1): the muxer that cuts H.264 and H.265 access units into
  188-byte packets, and the demuxer that finds the tables and reassembles the units of every track.
- **Ogg/Opus** (`oggwriter/`, `oggreader/`, RFC 3533 and RFC 7845): the multi-track writer, its page
  splitting, in-place or appended end-of-stream marking, and the page reader.
- **Shared algorithms**: the table-driven CRC-32, and the two NAL unit splitters.

## How it is organised

| files | what they hold |
|---|---|
| `Bytes`, `Crc32` | bytes, fixed-width integers, Go's wrap-around; the CRC register, its table and its algebra |
| `H26x`, `AnnexB` | batch and streaming NAL splitting, access unit delimiters, random access |
| `Packet`, `Pes`, `Psi`, `Tracks` | packet header, adaptation field, PES header, timestamps, sections, PAT, PMT |
| `Packetizer`, `TsWriter` | one PES packet as packets; the `Writer` class over its reused packet buffer |
| `EsStream`, `TsReader` | the `esStream` state machine over two swapped buffers; the `Reader` class |
| `Channels`, `RoundTrip`, `Loss`, `Splice`, `Duplicates`, `Cadence` | theorems about whole streams, and the runs that break what does not always hold |
| `OggPage`, `OggPaging`, `OggReader`, `OggStream` | page bytes, lacing, page parsing, logical bitstreams |
| `Opus`, `OpusTags` | packet durations, OpusHead, OpusTags |
| `OggMux`, `OggRuns`, `OggFile`, `OggWrap`, `OggWriter` | the written file as a value, its invariant, the finished file, a run whose page counter wraps; the `Writer` class |

Code that updates fields, arrays or local variables is a class or a method. Every such method is
proved equal to a function of the old state, and the theorems are about these functions:
`TsWriter.Write`, `EsStream.Handle`, `TsReader.FindTracks`, `TsReader.AllUnits`, `OggMux.Step`,
`OggReader.ParsePage`, and so on. Bytes are numbers below 256; a source expression that joins
disjoint bit fields with `|` is written as a sum; the CRC lives in 32-bit vectors.

The sink never fails and the source is a finite byte string. Random serial numbers, the UTF-8 test
and the result of the Opus depacketizer are parameters.

## What turned out to be true only under a condition

Each line names the lemma with the condition, and the lemma with an input or a run at which the
property fails. The code is modelled as it is.

- A unit larger than the size limit is dropped, except that a unit whose PES packet fits one
  transport packet is not tested against the limit (`RoundTrip.SizeOk`), although the option's
  comment in `mpegts/reader.go` promises the bound for all units (`RoundTrip.OversizedReturned`).
- Timestamp unwrapping recovers a value near a non-negative reference if and only if the reference
  leaves half a wrap below the `int64` limit (`Pes.ExtendExact`, `Pes.UnwrapFails`). A negative
  reference counts as none.
- A repeated packet that starts a unit rebuilds the same state if and only if the decoding time it
  gets is not negative and leaves room to extend from (`Duplicates.HandledTwice`,
  `Duplicates.RepeatedNegative`).
- Tables are less than 9000 ticks old at every unit if and only if the two times are less than 2^63
  apart (`Cadence.TablesRecent`, `Cadence.TablesOverdue`).
- A clock reference parses to 300 times the delayed decoding time modulo 2^33 if and only if the
  delay does not underflow and the 64-bit product wraps a multiple of 75 times (`Cadence.ClockExact`,
  `Cadence.ClockWrong`).
- The counter reveals the loss of `n` packets inside a unit if and only if `n` modulo 16 is neither 0
  nor, unless a unit starts next, 15 (`Loss.NoticedExactly`). If every gap that ends inside a unit
  is of that kind, exactly the units that arrived whole are returned (`Loss.LossSafe`); gaps of up to
  14 packets always are (`Loss.ShortGapsNoticed`). With 16 packets lost a reader returns a unit that
  nobody wrote (`Splice.SixteenLost`).
- Where Ogg pages cannot be rewritten, a stream gets its end-of-stream page if and only if its page
  counter, modulo 2^32, is not 0 (`OggFile.EndsOnce`, `OggWrap.EndLess`).
- Parsing a written tag set gives it back if and only if no comment name has an equals sign
  (`OpusTags.TagsRoundTrip`, `OpusTags.EqualsInName`), which validation guarantees.
- A page is accepted whatever its first four bytes are (`OggReader.SignatureUnchecked`); the converse
  theorem `OggReader.PageIsCanonical` is about pages that begin with `OggS` and have version 0.

## Model

| member | source | states |
|---|---|---|
| Crc32.BuildTable | mpegts/crc32.go:10-25 | the nested loops fill every slot with the bit-serial register's value for that byte |
| Crc32.TableStep | mpegts/crc32.go:29-31 | one table lookup equals eight clocks of the polynomial register with the byte's bits fed in |
| Crc32.TableDriven | mpegts/crc32.go:27-34 | for every seed and byte string the lookup loop ends at the bit-serial register's value |
| Crc32.RegisterInjective | mpegts/crc32.go:27-34 | the same bytes never take two different register values to the same one |
| Crc32.BurstDetected | mpegts/crc32.go:27-34 | strings that differ only within four consecutive bytes never have equal CRCs, for any seed |
| Crc32.ZeroResidue | mpegts/psi.go:54-60 | four trailing bytes are the CRC of the rest exactly when the register run over all of it ends at zero |
| H26x.ForEachNal | mpegts/h26x.go:26-47 | visits the units of the recursive splitter in order, up to and including the first the visitor refuses |
| H26x.CheckAud | mpegts/h26x.go:52-64 | answers whether the first unit is an access unit delimiter of the codec |
| H26x.CheckRandomAccess | mpegts/h26x.go:68-100 | answers whether any unit is an IDR (H.264) or IRAP (H.265) slice |
| H26x.AudAddsOneNal | mpegts/h26x.go:26-47 | prepending a delimiter adds exactly one unit in front and leaves the others as they were |
| H26x.AudNormalForm | mpegts/writer.go:108-126 | the written unit starts with a delimiter by the code's own test, writing it again adds none, and the random access verdict stays |
| AnnexB.Reader.ReadPrefix | internal/annexb/reader.go:62-79 | consumes a three- or four-byte start code or reports why there is none |
| AnnexB.Reader.Next | internal/annexb/reader.go:26-60 | every call returns the next unit of the batch splitter, or the end of the stream |
| AnnexB.ReadAll | internal/annexb/reader.go:26-60 | calling Next to the end gives exactly the units forEachNAL visits for every stream that begins with a start code, and none for any other; the error is the end of the stream or, for four bytes that begin otherwise, an invalid prefix |
| AnnexB.FramingRoundTrip | mpegts/h26x.go:26-47 | joining non-empty units without 00 00 01 behind four-byte start codes and splitting returns the list |
| AnnexB.StreamedFraming | internal/annexb/reader.go:26-79 | reading such a stream to the end with the streaming splitter returns the same list |
| Packet.MarshalHeader | mpegts/packet.go:50-71 | writes the four header bytes and no other byte of the buffer |
| Packet.HeaderRoundTrip | mpegts/packet.go:25-71 | a written header parses back to the same fields whatever follows it |
| Packet.HeaderIsCanonical | mpegts/packet.go:25-71 | a header that parses is exactly what the marshaler writes for the parsed fields |
| Packet.MarshalAdaptation | mpegts/adaptation.go:69-97 | writes exactly the announced number of bytes: flags, clock reference, stuffing; no other byte changes |
| Packet.PcrRoundTrip | mpegts/adaptation.go:39-97 | a clock reference keeps its extension and the low 33 bits of its base |
| Packet.AdaptationRoundTrip | mpegts/adaptation.go:24-97 | a marshaled field parses back to itself and to its own length |
| Pes.TimestampRoundTrip | mpegts/pes.go:91-104 | five bytes hold exactly the timestamp modulo 2^33, whatever the prefix |
| Pes.HeaderRoundTrip | mpegts/pes.go:30-86 | a written header parses to its own length and to both timestamps modulo 2^33, DTS written or implied |
| Pes.ExtendCongruent | mpegts/reader.go:331-344 | whatever the reference, the unwrapped value keeps the 33 bits read |
| Pes.ExtendNear | mpegts/reader.go:331-344 | for a non-negative reference with room above it the result is within 2^32 of it |
| Pes.ExtendExact | mpegts/reader.go:331-344 | a value closer than 2^32 is recovered if and only if the reference is below 2^63 - 2^32 |
| Pes.UnwrapFails | mpegts/reader.go:331-344 | at 2^63 - 2^32 a value that equals its reference is not recovered |
| Pes.UnwrapRun | mpegts/reader.go:297-344 | a run of times with steps below 2^32 is recovered exactly after masking, serializing and parsing each |
| Psi.SectionRoundTrip | mpegts/psi.go:39-129 | a marshaled section parses back, whatever follows it |
| Psi.MarshalRoundTrip | mpegts/psi.go:26-129 | and so does what the marshaler writes, pointer field included |
| Psi.CheckIsZeroResidue | mpegts/psi.go:54-60 | a section with sound fixed fields is accepted exactly when the register over it, CRC included, is zero |
| Psi.DamageDetected | mpegts/psi.go:39-64 | damage within four consecutive bytes behind the length field is always rejected |
| Psi.SectionAssembler.FeedPayload | mpegts/psi.go:76-101 | the assembler's fields and result are those of the specified state machine |
| Psi.FeedBounded | mpegts/psi.go:76-101 | on every input the assembler holds fewer than 4098 bytes while active |
| Psi.SplitIndependent | mpegts/psi.go:76-101 | however a section is cut and padded, nothing is returned before its last byte, then exactly the section, then nothing |
| Psi.MarshaledSplitIndependent | mpegts/psi.go:76-129 | the same for everything the marshaler builds |
| Psi.ParsePat | mpegts/pat.go:17-32 | the loop returns the programs of the section, network entries left out, or the error |
| Psi.PatRoundTrip | mpegts/pat.go:17-47 | a program list with non-zero numbers survives marshaling and parsing |
| Psi.ParsePmt | mpegts/pmt.go:25-56 | the table of the section, program descriptors skipped, or the error |
| Psi.ParseStreams | mpegts/pmt.go:40-53 | the re-slicing loop returns the streams of the rest of the section, or the error |
| Psi.PmtRoundTrip | mpegts/pmt.go:25-76 | a stream list survives marshaling and parsing |
| Tracks.TracksRoundTrip | mpegts/track.go:40-61 | announcing tracks and selecting the supported streams returns the tracks |
| Packetizer.PacketizeUsable | mpegts/writer.go:203-248 | every packet of a cut-up unit passes the reader's checks and yields exactly the part of the payload put into it |
| Packetizer.ChunksExact | mpegts/writer.go:203-248 | the parts concatenate to the payload, none is empty, only the first has unit start and random access, counters run modulo 16 |
| Packetizer.PsiPacketOpened | mpegts/writer.go:179-191 | a table's packet opens to the table followed by stuffing |
| TsWriter.Writer.AddTrack | mpegts/writer.go:38-52 | rejects PIDs out of range or in use, otherwise appends the track |
| TsWriter.OptionsSucceed | mpegts/writer.go:38-52 | the track options succeed exactly for distinct PIDs in range |
| TsWriter.NewWriter | mpegts/writer.go:73-103 | succeeds exactly for 1 to 33 distinct tracks with PIDs in range, and ends with the two marshaled tables |
| TsWriter.Writer.NextCc | mpegts/writer.go:193-198 | returns the PID's counter and advances it by one modulo 16 |
| TsWriter.Writer.WriteSection | mpegts/writer.go:179-191 | one packet freshly built in the reused buffer; its counter advances |
| TsWriter.Writer.MaybeWritePsi | mpegts/writer.go:163-177 | writes both tables and remembers the DTS, or does nothing, by the specified test |
| TsWriter.Writer.FillPacket | mpegts/writer.go:231-240 | the inner loop fills the rest of the packet with the next bytes of the segment list, across segment borders |
| TsWriter.Writer.WriteNextPacket | mpegts/writer.go:211-246 | one packet of a unit, all its 188 bytes freshly written |
| TsWriter.Writer.WritePes | mpegts/writer.go:203-248 | terminates and writes exactly the packets of the concatenated segments |
| TsWriter.Writer.WriteAccessUnit | mpegts/writer.go:128-161 | the three rejections in order, then tables if due, then the unit; a rejected call changes nothing |
| TsWriter.Writer.WriteH264 | mpegts/writer.go:108-115 | state and output are those of the specified call, delimiter added where missing |
| TsWriter.Writer.WriteH265 | mpegts/writer.go:119-126 | the same for H.265 |
| EsStream.Append | mpegts/reader.go:288-292 | Go's append: contents extended, in place exactly while the capacity lasts and in new storage otherwise |
| EsStream.Stream.FinishUnit | mpegts/reader.go:317-327 | swaps the two buffers, which never share storage, and returns what was accumulated |
| EsStream.Stream.StartNext | mpegts/reader.go:297-315 | starts a unit from a PES header, or waits for the next one |
| EsStream.Stream.HandlePacket | mpegts/reader.go:266-295 | duplicate, loss, start, continuation and overflow as specified; a returned unit is untouched by the one that starts in the same call |
| EsStream.HandleTidy | mpegts/reader.go:266-327 | every packet keeps: not collecting means nothing held, and the accumulator is bounded |
| TsReader.StreamsStayTidy | mpegts/reader.go:249-295 | the same for every stream over arbitrary input |
| TsReader.PacketsOfStream | mpegts/reader.go:104-111 | reading whole packets from concatenated packets returns them |
| TsReader.Reader.ReadTables | mpegts/reader.go:114-152 | finds tracks and remaining input as specified, or reports that there is no usable program |
| TsReader.Reader.ReadPat | mpegts/reader.go:154-166 | takes the first program's PID from a sound table and ignores anything else |
| TsReader.Reader.ReadPmt | mpegts/reader.go:168-193 | registers the supported streams of a sound table, a later stream replacing an earlier one on the same PID |
| TsReader.NewReader | mpegts/reader.go:81-97 | a reader that will return exactly the specified units, or the error of its option or of the search |
| TsReader.Reader.HandlePacket | mpegts/reader.go:249-264 | unusable packets and those of no stream change nothing, others go to their stream only |
| TsReader.Reader.NextAccessUnit | mpegts/reader.go:221-247 | every call returns the next unit still due, flushing the streams at the end of the input, then only io.EOF |
| Channels.DemuxProjects | mpegts/reader.go:249-295 | what a stream does depends on the usable packets with its PID only |
| Channels.AllUnitsProject | mpegts/reader.go:221-295 | so do the units returned on a track, the flush included |
| Channels.WrittenForPid | mpegts/writer.go:128-248 | in a whole written run the packets of a PID are those of its units, with running counters |
| RoundTrip.UnitRun | mpegts/reader.go:266-327 | reading one written unit brings out the one before it and holds this one exactly, if it fits |
| RoundTrip.StreamRoundTrip | mpegts/reader.go:266-344 | a stream returns what it held and then every written unit that fits, with data, times and flag |
| RoundTrip.TablesFound | mpegts/reader.go:114-193 | a reader that starts at two written tables finds the tracks behind them |
| RoundTrip.MuxDemux | mpegts/writer.go:108-248 | for every valid track list and every run of calls with well-spaced times, the reader finds the tracks and returns on each exactly the accepted units that fit, in order, up to io.EOF |
| RoundTrip.OversizedReturned | mpegts/reader.go:271-294 | a written unit of more than one byte is returned by a reader whose limit is one byte |
| Loss.GapNoticed | mpegts/reader.go:266-281 | a counter repeats or follows after a loss only if the losses are 15 or 0 modulo 16 |
| Loss.NoticedExactly | mpegts/reader.go:266-295 | a packet behind a gap inside a unit makes the reader drop the unit begun, or start the next without returning it, exactly if the counter reveals the gap |
| Loss.ShortGapsNoticed | mpegts/reader.go:266-281 | however the losses fall, gaps of up to 14 packets are all revealed |
| Loss.StreamLoss | mpegts/reader.go:266-327 | if every gap that ends inside a unit is revealed, a stream returns exactly the units all of whose packets and whose following unit start arrived, and holds at most the beginning of one |
| Loss.LossSafe | mpegts/reader.go:114-327 | a whole written run with such losses: the tracks are found, each track returns exactly the surviving units, in order, with exact bytes and flag and times modulo 2^33, and the flush returns at most the beginning of one |
| Splice.SixteenLost | mpegts/reader.go:266-295 | a written run of two units with 16 packets lost inside the first: the reader returns one unit before the end, and it is neither of the two |
| Duplicates.HandledTwice | mpegts/reader.go:266-315 | repeating a packet changes nothing, if and only if its decoding time can be extended from |
| Duplicates.RepeatedNegative | mpegts/reader.go:266-315 | a unit start at time -1 handled twice does not leave the state as it was |
| Duplicates.RepeatsIgnored | mpegts/reader.go:266-327 | any number of repetitions of every packet of a settled stream leaves state and units unchanged |
| Duplicates.TrackRepeats | mpegts/reader.go:221-327 | for any input on which decoding times can be extended from: repeating packets of a track and interleaving the tracks anew leaves the units of the track as they were, the flush included |
| Duplicates.RepetitionsIgnored | mpegts/reader.go:221-327 | for any such input: if deleting the packets that repeat the previous one of their PID leaves it, both give one and the same list of units |
| Duplicates.WrittenRepetitionsIgnored | mpegts/reader.go:221-327 | so it is for every written run of well-timed calls |
| Duplicates.DuplicatesIgnored | mpegts/reader.go:221-327 | a written run of well-timed calls with each track's packets repeated and the tracks interleaved in any way returns on each track exactly the accepted units that fit |
| Cadence.TablesRecent | mpegts/writer.go:163-177 | behind every unit's latest tables lies a DTS not later than its own and, exactly if less than 2^63 away, less than 9000 ticks before it |
| Cadence.TablesOverdue | mpegts/writer.go:163-177 | two accepted calls, the earliest time and time 0: the second comes 9000 ticks or more after the latest tables |
| Cadence.TablesJoinable | mpegts/writer.go:163-177 | a reader that starts where tables were written finds the tracks |
| Cadence.ClockPlaced | mpegts/writer.go:153-248 | the packets of a call hold one clock reference, in the first packet of the unit, exactly if its track is the first |
| Cadence.ClockExact | mpegts/writer.go:153-159 | the clock reference parses to 300 times the delayed DTS modulo 2^33, with the exact condition on overflow |
| Cadence.ClockWrong | mpegts/writer.go:153-159 | at time 2^62 the clock reference is wrong |
| OggPage.CreatePage | oggwriter/oggwriter.go:1115-1145 | builds the page in a byte buffer, the checksum over the page with its field zero |
| OggReader.Reader.ParseNextPage | oggreader/oggreader.go:264-331 | returns the next page or the error, counts exactly the bytes of accepted pages, and in every case leaves the input where the source does: behind a page with a wrong checksum, behind what a short page still had |
| OggReader.Reader.PageChecksum | oggreader/oggreader.go:303-326 | the checksum over header, segments and payload with the stored one taken as zero |
| OggReader.PageRoundTrip | oggreader/oggreader.go:264-331 | every written page is accepted with all its fields, whatever follows it |
| OggReader.PageIsCanonical | oggreader/oggreader.go:264-331 | an accepted page with the Ogg signature and version 0 has exactly the bytes the writer creates for its fields |
| OggReader.SignatureUnchecked | oggreader/oggreader.go:264-331 | any four bytes pass for the signature |
| OggReader.DamageDetected | oggreader/oggreader.go:303-326 | damage within four consecutive payload bytes is always rejected |
| OggPaging.FillSegments | oggwriter/oggwriter.go:1022-1040 | the lacing values of one page |
| OggPaging.CreatePages | oggwriter/oggwriter.go:1008-1074 | terminates with exactly the specified pages and their bytes |
| OggPaging.PagesNumbered | oggwriter/oggwriter.go:1008-1091 | a payload of length L makes L/65025 + 1 pages, numbered on; all but the last are full and without granule position, all but the first continue the packet |
| OggStream.PacketPieces | oggwriter/oggwriter.go:1008-1074 | the lacing values of a packet's pages are L/255 times 255 and L mod 255, and the payloads concatenate to the packet |
| OggStream.PagesReadBack | oggreader/oggreader.go:264-331 | repeated parsing of written pages accepts them all, in order, up to the end of the input |
| OggStream.DamageContained | oggreader/oggreader.go:264-331 | with one page damaged within four payload bytes, reading on reports one checksum mismatch and returns every other page, those behind it included |
| OggStream.StreamReassembled | oggwriter/oggwriter.go:965-1074 | cutting the pages of a stream at lacing values below 255 returns its packets |
| Opus.SampleCount | oggwriter/oggwriter.go:1204-1242 | accepted packets are not empty and last up to 120 ms |
| Opus.WholeFrames | oggwriter/oggwriter.go:1204-1262 | and a multiple of 2.5 ms |
| Opus.DurationsAgree | oggwriter/oggwriter.go:1244-1262 | the bit tests give the frame duration of the standard's configuration table for every TOC byte |
| Opus.HeadRoundTrip | oggwriter/oggwriter.go:901-924 | a written OpusHead is read back with all its fields |
| OpusTags.BuildCommentHeader | oggwriter/oggwriter.go:926-963 | allocates exactly the needed bytes and fills them with the tag set |
| OpusTags.ParseOpusTags | oggreader/oggreader.go:374-452 | the loops return the specified tag set or error |
| OpusTags.TagsRoundTrip | oggreader/oggreader.go:374-479 | written tags are read back if and only if no comment name has an equals sign |
| OpusTags.EqualsInName | oggreader/oggreader.go:374-479 | a comment named by an equals sign is not read back as written |
| OpusTags.ValidTagsRoundTrip | oggwriter/oggwriter.go:759-843 | every tag set that passes validation is read back |
| OpusTags.TagsAreCanonical | oggreader/oggreader.go:374-479 | every accepted packet begins with the canonical bytes of the tags it was read as |
| OggRuns.RunInvariant | oggwriter/oggwriter.go:427-571 | after any run of calls an open writer satisfies the invariant, and a closed one is Close of such a state |
| OggFile.FileOfRun | oggwriter/oggwriter.go:427-571 | any run: serials distinct, OpusHead pages first, then OpusTags pages; each stream's pages are those of its headers and audio with its end marked; the file reads back and every packet is recovered |
| OggFile.StructureOfRun | oggwriter/oggwriter.go:427-571 | the same runs, page by page: all streams begin before anything else; every stream has one beginning page, its first, numbers 0, 1, 2, ..., and after Close an end on its last page only, under the exact condition; every page behind the header pages belongs to an audio packet or is the end page, with the granule position due |
| OggFile.AudioConserved | oggwriter/oggwriter.go:487-514 | the audio packets of a track are exactly the accepted ones, in order |
| OggFile.IdPage | oggwriter/oggwriter.go:1264-1283 | the file starts with one beginning-of-stream page for each track, in order |
| OggFile.StreamPage | oggwriter/oggwriter.go:965-1074 | every page of a stream: number, beginning flag on the first only, end flag on the last only, granule position the running sum of durations where a packet is completed |
| OggFile.EndsOnce | oggwriter/oggwriter.go:539-571 | a closed stream ends on its last page and nowhere else, with the exact condition for appended end pages |
| OggWrap.EndLess | oggwriter/oggwriter.go:1303-1306 | a run of 2^32 - 2 packets: the counter wraps to 0 and no page of the closed stream ends it |
| OggFile.FinalReassembled | oggwriter/oggwriter.go:1285-1323 | however the end is marked, the packets come out as they went in |
| OggWriter.RewrittenPage | oggwriter/oggwriter.go:1285-1301 | rebuilding from the saved last page gives one page again, equal up to the end flag, for every last packet |
| OggWriter.RewriteIsLocal | oggwriter/oggwriter.go:1285-1301 | same length, and only byte 5 and bytes 22 to 25 may differ |
| OggWriter.PageReplaced | oggwriter/oggwriter.go:1285-1301 | writing it at the saved offset replaces that page of the file and no other |
| OggWriter.Writer.WritePages | oggwriter/oggwriter.go:976-1003 | appends the pages and saves the last one with its offset, if the output is seekable |
| OggWriter.Writer.WritePage | oggwriter/oggwriter.go:965-1006 | file, page counter and saved page are those of one more packet |
| OggWriter.Writer.StartLocked | oggwriter/oggwriter.go:1264-1283 | all OpusHead pages, then all OpusTags pages, once |
| OggWriter.Writer.AllocateSerial | oggwriter/oggwriter.go:845-862 | returns the first drawn serial that no track has |
| OggWriter.Writer.NewTrack | oggwriter/oggwriter.go:427-472 | the rejections in order, otherwise one more track with a serial of its own |
| OggWriter.Writer.WriteOpusPayload | oggwriter/oggwriter.go:1186-1202 | advances the granule position by the packet's duration and writes the packet, or reports it as invalid |
| OggWriter.Writer.WriteRtp | oggwriter/oggwriter.go:487-514 | the rejections in order, then headers if not yet written, then the packet |
| OggWriter.Writer.MarkTrackEndOfStream | oggwriter/oggwriter.go:1285-1301 | the file becomes the one with the track's last page marked |
| OggWriter.Writer.MarkEnds | oggwriter/oggwriter.go:552-557 | the loop marks every track's last page, each where it was saved |
| OggWriter.Writer.WriteNilEndOfStreamPage | oggwriter/oggwriter.go:1303-1323 | appends an empty end page, unless the page counter is 0 |
| OggWriter.Writer.Close | oggwriter/oggwriter.go:539-571 | starts if nothing was written, marks all ends one way or the other, and closes; a second call changes nothing |

## Left out

- io.Reader, io.Writer, os.File and mutexes: the sink never fails and each call is atomic, so a retry after a failed write, short reads other than the end of the input, and joined close errors are not modelled.
- OggWriter, the single-track Ogg writer: the same page code with headers written at construction; its in-place rewriting is the one modelled for the multi-track writer.
- The RTP depacketizers: their code is in another repository, so the payload of an RTP packet is a parameter.
- h264writer, h265writer, ivfwriter and the IVF and rtpdump codecs: they rest on those depacketizers or are short fixed layouts.
- h264reader and h265reader: header fields and NAL type names over the splitter modelled here.
- Functional options: a track's configuration is a parameter once options and defaults are applied; channel mapping validation is the type `Opus.Mapping`.
- OggWriter.Writer.AllocateSerial: takes its random numbers as a parameter that contains a free serial, because nothing bounds the number of draws in the source.
- UTF-8 validity is a predicate given to the writer.
- Error texts: each distinct error is one constructor.
- Growth of Go slices: new storage is twice the needed length, which nothing observable depends on.
- Seek: the current position of a seekable output is the length of the file written so far.
- OggReader.Reader.ParseNextPage: the byte count is an unbounded integer, because 2^63 bytes cannot be read from a finite source in memory.
- NewWith and ResetReader of the Ogg reader: a call of ParseNextPage followed by the header parser modelled here, and a replacement of the source.
- Close of the MPEG-TS writer: it closes the sink and writes nothing.
