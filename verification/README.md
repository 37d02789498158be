# libARStream2 / libBeaver core, modelled in Dafny

libARStream2 streams H.264 video over RTP (RFC 3550). A sender cuts NAL
units into RTP packets, and a receiver rebuilds them and passes them to an
H.264 filter. That filter reassembles access units, follows which
macroblocks arrived, conceals lost slices and keeps per-frame statistics.
A resender forwards received NAL units to further peers. libBeaver is the
Parrot drone's lighter variant. It has its own H.264 filter, a bit writer
for user-data SEI NAL units, the deserialisers of Parrot's SEI records,
and `beavertool`, which turns a recorded stream into per-frame records.
Four Python scripts read the statistics files that these programs write.

This project models the logic of that core and proves what it promises:

- **Intrusive pools and FIFOs** (`linked_fifo.dfy`). This is one class over
  an array of slots, each with `prev`/`next` links. Ghost sequences name
  the queue and the LIFO free list, and the invariant says they are
  disjoint and that `count` is the queue's length. Several users build on it:
  - the RTP packet FIFO (`rtp_packet_fifo.dfy`);
  - the NALU and access-unit FIFOs and the per-access-unit NALU list
    (`h264.dfy`);
  - the sender's NALU FIFO (`rtp_h264.dfy`).
- **Other pools and arrays:**
  - libBeaver's slot-flagged AU FIFO (`beaver_filter.dfy`);
  - the recorder's buffer pool (`h264_filter.dfy`);
  - the resender's buffer pool and resender array
    (`rtp_receiver_resender.dfy`).
- **RTP header construction** (section 5.1 of RFC 3550), with the
  microsecond-to-90 kHz timestamp conversion. Also the RTCP
  RTP-to-NTP conversion (section 6.4.1 of RFC 3550, `rtcp.dfy`).
- **The two H.264 filters.** This covers SPS/PPS synchronisation, the
  picture geometry (section 7.4.2.1.1 of ITU-T H.264), the frame_num gap
  rule (section 7.4.3), and the sync type of an output access unit. It
  also covers the copy loop, the macroblock status maps, the statistics,
  and the location and marking of missing slices.
  - Files: `beaver_filter.dfy`, `h264_filter.dfy`, `h264_filter_rules.dfy`,
    `h264_filter_error.dfy`.
- **Byte codecs:**
  - the Parrot user-data SEI classifier and deserialisers
    (`beaver_parrot.dfy`);
  - the SEI writer with emulation prevention (section 7.4.1 of ITU-T
    H.264), payload type and size coding (section 7.3.2.3.1), the
    rbsp_trailing_bits and the Annex B start code (`beaver_writer.dfy`).
- **Sender and receiver arithmetic:**
  - configuration checks and derived sizes;
  - the NALU timeout rule;
  - the sender's NALU submission and flush;
  - the 2048-point monitoring rings and the windowed counters of
    GetMonitoring.

  Files: `monitoring_ring.dfy`, `rtp_sender.dfy`, `rtp_receiver.dfy`.
- **`beavertool extract`** (`beaver_tool.dfy`): it cuts access units out
  of a NAL unit stream, counts frames and bytes, and assembles 64-bit
  timestamps.
- **The four log scripts.** They share column resolution, the "0" default,
  integer parsing (`stat_file.dfy`) and 16-bit/8-bit sequence-number
  unwrapping (`seq_unwrap.dfy`). They are modelled in
  `beaver_frameinfo.dfy`, `beaver_rtpsender.dfy`, `beaver_rtpreader.dfy`
  and `beaver_pcmdmonitor.dfy`.
- **The two error-string tables** (`arstream2_error.dfy`,
  `beaver_error.dfy`).
- **Shared helpers:** `cint.dfy` holds C integer arithmetic (unsigned
  wrap-around, truncating division, big-endian bytes), and `c_text.dfy`
  holds C-locale character classes.

C pointers into a pool are slot indices, with NULL as -1. Optional
arguments are `Option` values. The library's collaborators (the H.264
parser and writer, the stream recorder, application callbacks, sockets,
clocks and malloc) are not part of this model. What they answer enters an
operation as a parameter.

Where the code does something its design evidently did not intend, the
model has two halves. An "as written" member follows the code and comes
with a lemma that exhibits the difference. The rest of the model uses the
corrected member. These pairs are listed under "## Findings", and the
table labels their rows "(as written)" and "(intended)".

## Model

| member | source | states |
|---|---|---|
| ArStream2Error.ToString | src/arstream2_error.c:10-52 | every library code has a non-empty description, and "unknown error" is returned exactly for values outside the enumeration (the default case) |
| ArStream2Error.FromString | src/arstream2_error.c:12-49 | reading a description back gives a code whose description it is (inverse partner of ToString) |
| ArStream2Error.DescriptionsDistinct | src/arstream2_error.c:12-46 | the eleven descriptions are pairwise distinct: each names its code back |
| BeaverError.ToString | src/beaver_error.c:10-34 | the five codes 0-4 have their own non-empty text and exactly the other values read "Unknown value" |
| BeaverError.DescriptionsDistinct | src/beaver_error.c:12-28 | two different codes among the five never share a description |
| Rtcp.NtpFromRtp | src/arstream2_rtcp.h:136-139 | the conversion yields 0 whenever either clock coefficient is still 0 |
| Rtcp.NtpFromRtpQuotient | src/arstream2_rtcp.h:138 | for a non-negative scaled timestamp and positive tsAnum, C's truncating divisions and the uint64 cast reduce to the exact quotient (scaled + tsAnum/2) / tsAnum |
| Rtcp.NtpFromRtpRoundsToNearest | src/arstream2_rtcp.h:138 | the result is the integer nearest to (rtp - tsB) * tsAden / tsAnum, halves rounding up |
| Rtcp.NtpFromRtpMonotonic | src/arstream2_rtcp.h:138 | with positive coefficients a later RTP timestamp never maps to an earlier NTP time |
| SeqUnwrap.Feed | tools/scripts/beaver_rtpreader.py:97-111 | one line of the unwrap: the state keeps the line's number, the index is the number plus the offset, the missing count is never negative, and the first line (previous -1) keeps the offset and counts nothing missing |
| SeqUnwrap.Run | tools/scripts/beaver_rtpreader.py:97-111 | feeding the numbers of all lines gives one index and one missing count per line |
| SeqUnwrap.RunPrefix | tools/scripts/beaver_rtpreader.py:73-111 | the indices and counts of a prefix of the lines are the prefix of those of all lines: a later line never changes an earlier entry |
| SeqUnwrap.OffsetsGrow | tools/scripts/beaver_rtpreader.py:99-101 | every index minus its number is a non-negative multiple of the modulus, never larger than the final offset, and the final offset is the last index minus the last number |
| SeqUnwrap.StepFacts | tools/scripts/beaver_rtpreader.py:98-105 | between two lines the index grows by the wrap-corrected difference, and the missing count is that difference less one when positive, else 0 |
| SeqUnwrap.MissingIsGap | tools/scripts/beaver_rtpreader.py:102-107 | the first line has none missing, and every later line's missing count is the gap to the previous index less one (0 when the index does not grow) |
| SeqUnwrap.LastOffset | tools/scripts/beaver_rtpreader.py:109-111 | after a line the state holds that line's number and its index less the number |
| SeqUnwrap.ForwardIndices | tools/scripts/beaver_rtpreader.py:98-105 | for numbers within [0, m) that each step forward by less than m/2 modulo m, the index grows by exactly that modular step and the missing count is the step less one |
| SeqUnwrap.DeltaIsStep | tools/scripts/beaver_rtpreader.py:98-100 | the wrap correction -32768/+65536 (and -128/+256) computes the forward modular step when that step is below half the modulus |
| SeqUnwrap.MissingAccounts | tools/scripts/beaver_rtpreader.py:102-108 | with every step forward, lines seen plus lines counted missing equal the span from the first index to the last |
| SeqUnwrap.PcmdWrapExample | tools/scripts/beaver_pcmdmonitor.py:91-94 | an 8-bit counter 254, 255, 0, 1 unwraps to 254, 255, 256, 257 |
| SeqUnwrap.LossExample | tools/scripts/beaver_rtpreader.py:102-105 | numbers 10, 12, 13 count one packet missing before 12 and none elsewhere |
| StatFile.IndexOf | tools/scripts/beaver_rtpsender.py:16 | the first position of the separator, or the length when there is none; no earlier position holds it |
| StatFile.Split | tools/scripts/beaver_rtpsender.py:16 | line.split(' '): at least one part, no part contains a space, and joining the parts with spaces gives the line back |
| StatFile.SplitJoin | tools/scripts/beaver_rtpsender.py:16 | splitting a space-joined list of space-free parts gives the parts back (the other half of the round trip) |
| StatFile.SkipTrailingSpaces | tools/scripts/beaver_rtpsender.py:18 | the result is a prefix of its input, what it drops is all white space, and it does not end in white space |
| StatFile.Strip | tools/scripts/beaver_rtpsender.py:18 | str.strip(): the result is empty or begins and ends with a non-space character |
| StatFile.StripPadded | tools/scripts/beaver_rtpsender.py:18 | stripping a name padded with white space on both sides gives the name back |
| StatFile.LastMatch | tools/scripts/beaver_rtpsender.py:17-20 | the column a header name ends up at is the last field that strips to it; -1 exactly when no field does |
| StatFile.Resolve | tools/scripts/beaver_rtpsender.py:17-20 | the fill loop never adds or removes a dictionary key |
| StatFile.ResolveFinds | tools/scripts/beaver_rtpsender.py:17-20 | after the fill a known name maps to its last matching header field, or keeps its previous value when the header has none |
| StatFile.ColumnIndex.constructor | tools/scripts/beaver_rtpsender.py:9 | the column dictionary starts with every known name at -1 |
| StatFile.ColumnIndex.Fill | tools/scripts/beaver_rtpsender.py:12-21 | the loop over the header fields leaves the dictionary as Resolve of its old value and the split header |
| StatFile.GetStringVal | tools/scripts/beaver_rtpsender.py:30-34 | the field at the column's index when the column was found and the line is long enough, otherwise "0" |
| StatFile.ReadsNamedColumn | tools/scripts/beaver_rtpsender.py:12-34 | after filling from a header, a line's value for a key is the field under that key's last header position, or "0" |
| StatFile.Digits | tools/scripts/beaver_rtpsender.py:36-37 | the decimal text of a natural number is a non-empty digit string whose value is that number |
| StatFile.IntRoundTrip | tools/scripts/beaver_rtpsender.py:36-37 | int() of any integer's decimal text, with white space around it, gives the integer back |
| StatFile.MissingColumnReadsZero | tools/scripts/beaver_rtpsender.py:30-37 | a column the header lacks, or that the line is too short for, reads as the integer 0 |
| StatFile.IntVals | tools/scripts/beaver_rtpsender.py:88-95 | the getters of one line either all give integers, each the int() of its own column, or some int() raises: None exactly when one of the keys fails |
| StatFile.ReadAll | tools/scripts/beaver_rtpsender.py:83-95 | the loop reads every line or raises: one row of integers per line, each that line's values, and None exactly when some line has a non-number in a read column |
| StatFile.ReadAllSnoc | tools/scripts/beaver_rtpsender.py:83-95 | a line int() accepts appends its values to those of the lines before it |
| StatFile.ReadAllStops | tools/scripts/beaver_rtpsender.py:83-95 | a single line int() rejects fails the whole file |
| StatFile.FirstSet | tools/scripts/beaver_rtpsender.py:96-97 | a variable that takes the current value while still unset ends as the first value differing from unset; it stays unset exactly when all values are unset |
| StatFile.FirstSetSnoc | tools/scripts/beaver_rtpsender.py:96-97 | one more line changes the reference only while it is still unset |
| BeaverRtpSender.Records | tools/scripts/beaver_rtpsender.py:88-95 | one record per row of values, the eight getters in their order |
| BeaverRtpSender.RecordsSnoc | tools/scripts/beaver_rtpsender.py:88-95 | the records of one more row are the earlier records plus that row's |
| BeaverRtpSender.Accumulate | tools/scripts/beaver_rtpsender.py:68-130 | after the loop every one of the nine lists has one entry per line read |
| BeaverRtpSender.AccumulateSnoc | tools/scripts/beaver_rtpsender.py:85-128 | one more line applies the loop body once to the variables the earlier lines left |
| BeaverRtpSender.EntryOfLine | tools/scripts/beaver_rtpsender.py:85-128 | the entries of line i are those the loop body computes from the variables left by lines 0..i-1; later lines never change them |
| BeaverRtpSender.AuTimestamps | tools/scripts/beaver_rtpsender.py:90 | the auTimestamp column of the lines, one per line |
| BeaverRtpSender.SeqNums | tools/scripts/beaver_rtpsender.py:92 | the rtpSeqNum column of the lines, one per line |
| BeaverRtpSender.RefTimeHolds | tools/scripts/beaver_rtpsender.py:96-97 | refTime is the first nonzero auTimestamp read, or 0 |
| BeaverRtpSender.UnwrapHolds | tools/scripts/beaver_rtpsender.py:114-121 | seqNumOffset and previousSeqNum are the 16-bit unwrap state of the sequence numbers read |
| BeaverRtpSender.CounterHolds | tools/scripts/beaver_rtpsender.py:105-113 | droppedPacketsCounter counts the dropped lines since the last sent one |
| BeaverRtpSender.PacketTimeFromFirstAu | tools/scripts/beaver_rtpsender.py:96-99 | packetTime is the send time less the first nonzero auTimestamp of the lines so far, this one included, in seconds |
| BeaverRtpSender.PacketTimeOfLine | tools/scripts/beaver_rtpsender.py:98-99 | packetTime of line i is its send time less the reference the loop holds then, in seconds |
| BeaverRtpSender.RefTimeOfLine | tools/scripts/beaver_rtpsender.py:96-97 | the reference used on line i is the first nonzero auTimestamp among lines 0..i |
| BeaverRtpSender.SendOrDropTimes | tools/scripts/beaver_rtpsender.py:100-113 | a sent packet (bytesSent > 0) gets its acquisition-to-network and network times in the send lists and 0 in the drop lists, a dropped packet the other way round; byte counts are copied |
| BeaverRtpSender.PacketIndexUnwrapped | tools/scripts/beaver_rtpsender.py:114-120 | packetIndex is the 16-bit unwrap of the sequence numbers |
| BeaverRtpSender.DroppedBeforeSent | tools/scripts/beaver_rtpsender.py:105-113 | a sent packet carries the number of dropped lines just before it; a dropped one carries 0 |
| BeaverRtpSender.DroppedAccounted | tools/scripts/beaver_rtpsender.py:105-113 | every dropped line is counted exactly once: the counts on sent packets plus the trailing dropped lines are all the dropped lines |
| BeaverRtpSender.DroppedExample | tools/scripts/beaver_rtpsender.py:105-113 | sent, dropped, dropped, sent gives droppedPacketsBefore 0, 0, 0, 2 |
| BeaverRtpSender.RtpSenderStat.Empty | tools/scripts/beaver_rtpsender.py:73-81 | the nine lists start empty |
| BeaverRtpSender.RtpSenderStat.Add | tools/scripts/beaver_rtpsender.py:99-128 | each list gets the line's entry appended, nothing else changes |
| BeaverRtpSender.RtpSenderStat.Consume | tools/scripts/beaver_rtpsender.py:86-128 | one pass of the loop body: the new variables and the lists with the line's entry appended |
| BeaverRtpSender.RtpSenderStat.Load | tools/scripts/beaver_rtpsender.py:68-130 | the constructor raises exactly when some line has a non-number in a read column; otherwise its lists are those the specification Accumulate gives on the parsed lines |
| BeaverRtpSender.ReadsSnoc | tools/scripts/beaver_rtpsender.py:83-130 | one more line either raises or applies the loop body once |
| BeaverRtpSender.ReadsAll | tools/scripts/beaver_rtpsender.py:83-130 | the loop as run line by line fails exactly when ReadAll fails and otherwise gives Accumulate of the records |
| BeaverRtpReader.Records | tools/scripts/beaver_rtpreader.py:78-83 | one record per row of values, the six getters in their order |
| BeaverRtpReader.RecordsSnoc | tools/scripts/beaver_rtpreader.py:78-83 | the records of one more row are the earlier records plus that row's |
| BeaverRtpReader.AuMicros | tools/scripts/beaver_rtpreader.py:84 | the RTP timestamp read on its 90 kHz clock in microseconds: 90 times the result is 1000 times the timestamp |
| BeaverRtpReader.Accumulate | tools/scripts/beaver_rtpreader.py:62-113 | after the loop the five lists have one entry per line read |
| BeaverRtpReader.AccumulateSnoc | tools/scripts/beaver_rtpreader.py:75-111 | one more line applies the loop body once to the variables the earlier lines left |
| BeaverRtpReader.EntryOfLine | tools/scripts/beaver_rtpreader.py:75-111 | the entries of line i are those the loop body computes from the variables left by lines 0..i-1 |
| BeaverRtpReader.RecvTimestamps | tools/scripts/beaver_rtpreader.py:78 | the recvTimestamp column, one per line |
| BeaverRtpReader.Lags | tools/scripts/beaver_rtpreader.py:88 | recvTimestamp less the access unit time of each line, one per line |
| BeaverRtpReader.SeqNums | tools/scripts/beaver_rtpreader.py:81 | the rtpSeqNum column, one per line |
| BeaverRtpReader.RefTime1Holds | tools/scripts/beaver_rtpreader.py:85-86 | refTime1 is the first nonzero reception time read, or 0 |
| BeaverRtpReader.RefTime2Holds | tools/scripts/beaver_rtpreader.py:87-88 | refTime2 is the first nonzero lag read, or 0 |
| BeaverRtpReader.UnwrapHolds | tools/scripts/beaver_rtpreader.py:97-111 | seqNumOffset and previousSeqNum are the 16-bit unwrap state of the numbers read |
| BeaverRtpReader.PacketTimeFromFirstRecv | tools/scripts/beaver_rtpreader.py:85-90 | packetTime is the reception time less the first nonzero reception time so far, this line included, in seconds |
| BeaverRtpReader.NetworkRecvTimeOf | tools/scripts/beaver_rtpreader.py:87-95 | with a shifted timestamp the network time is reception less it; without, it is the line's lag less the first nonzero lag so far, in milliseconds |
| BeaverRtpReader.FirstLineNoDelay | tools/scripts/beaver_rtpreader.py:87-94 | without a shifted timestamp the first line's network time is 0 |
| BeaverRtpReader.BytesCopied | tools/scripts/beaver_rtpreader.py:83-96 | the bytes list copies each line's bytes column |
| BeaverRtpReader.IndexUnwrapped | tools/scripts/beaver_rtpreader.py:97-110 | packetIndex and missingPacketsBefore are the 16-bit unwrap of the sequence numbers |
| BeaverRtpReader.RtpReaderStat.Empty | tools/scripts/beaver_rtpreader.py:67-71 | the five lists start empty |
| BeaverRtpReader.RtpReaderStat.Add | tools/scripts/beaver_rtpreader.py:90-110 | each list gets the line's entry appended |
| BeaverRtpReader.RtpReaderStat.Consume | tools/scripts/beaver_rtpreader.py:76-111 | one pass of the loop body: the new variables and the lists with the line's entry appended |
| BeaverRtpReader.RtpReaderStat.Load | tools/scripts/beaver_rtpreader.py:62-113 | the constructor raises exactly when some line has a non-number in a read column; otherwise its lists are Accumulate of the parsed lines |
| BeaverRtpReader.ReadsSnoc | tools/scripts/beaver_rtpreader.py:73-113 | one more line either raises or applies the loop body once |
| BeaverRtpReader.ReadsAll | tools/scripts/beaver_rtpreader.py:73-113 | the loop as run fails exactly when ReadAll fails and otherwise gives Accumulate of the records |
| BeaverPcmdMonitor.Records | tools/scripts/beaver_pcmdmonitor.py:81-86 | one record per row of values, the six getters in their order |
| BeaverPcmdMonitor.RecordsSnoc | tools/scripts/beaver_pcmdmonitor.py:81-86 | the records of one more row are the earlier records plus that row's |
| BeaverPcmdMonitor.Accumulate | tools/scripts/beaver_pcmdmonitor.py:62-111 | after the loop the eight lists have one entry per line read |
| BeaverPcmdMonitor.AccumulateSnoc | tools/scripts/beaver_pcmdmonitor.py:78-109 | one more line applies the loop body once |
| BeaverPcmdMonitor.SeqNums | tools/scripts/beaver_pcmdmonitor.py:81 | the seqNum column, one per line |
| BeaverPcmdMonitor.IndexUnwrapped | tools/scripts/beaver_pcmdmonitor.py:89-102 | pcmdIndex and missingPcmdBefore are the 8-bit unwrap of the sequence numbers, and seqNumOffset/previousSeqNum are its state |
| BeaverPcmdMonitor.ColumnsCopied | tools/scripts/beaver_pcmdmonitor.py:103-108 | seqNum and the five timestamps are kept as read, line by line |
| BeaverPcmdMonitor.PcmdMonitorStat.Empty | tools/scripts/beaver_pcmdmonitor.py:67-74 | the eight lists start empty |
| BeaverPcmdMonitor.PcmdMonitorStat.Add | tools/scripts/beaver_pcmdmonitor.py:102-109 | each list gets the line's entry appended |
| BeaverPcmdMonitor.PcmdMonitorStat.Consume | tools/scripts/beaver_pcmdmonitor.py:79-109 | one pass of the loop body: the new unwrap state and the lists with the line's entry appended |
| BeaverPcmdMonitor.PcmdMonitorStat.Load | tools/scripts/beaver_pcmdmonitor.py:62-111 | the constructor raises exactly when some line has a non-number in a read column; otherwise its lists are Accumulate of the parsed lines |
| BeaverPcmdMonitor.ReadsSnoc | tools/scripts/beaver_pcmdmonitor.py:76-111 | one more line either raises or applies the loop body once |
| BeaverPcmdMonitor.ReadsAll | tools/scripts/beaver_pcmdmonitor.py:76-111 | the loop as run fails exactly when ReadAll fails and otherwise gives Accumulate of the records |
| BeaverFrameInfo.Collect | tools/scripts/beaver_frameinfo.py:288-292 | values of all lines or None: each value its line's, None exactly when some line has none |
| BeaverFrameInfo.Parses | tools/scripts/beaver_frameinfo.py:291-292 | one parse per line |
| BeaverFrameInfo.ParseAll | tools/scripts/beaver_frameinfo.py:288-292 | one parsed line per line of the file, or None |
| BeaverFrameInfo.ParsedLines | tools/scripts/beaver_frameinfo.py:291-292 | each parsed line is the parse of its own line, and parsing fails exactly when some line's acquisitionTs is not a number |
| BeaverFrameInfo.Accumulate | tools/scripts/beaver_frameinfo.py:220-366 | when the loop does not raise, the six lists have one entry per kept line |
| BeaverFrameInfo.MaxTs | tools/scripts/beaver_frameinfo.py:292-296 | a reference: the latest acquisition timestamp of the lines, or 0, bounds every one of them |
| BeaverFrameInfo.HighsIncrease | tools/scripts/beaver_frameinfo.py:292-296 | the lines that set a new maximum have strictly increasing positive timestamps, the last one holding the maximum |
| BeaverFrameInfo.SkippedAreLate | tools/scripts/beaver_frameinfo.py:295-364 | a line that does not set a new maximum is not later than 0 or than some earlier line |
| BeaverFrameInfo.MaxIsSome | tools/scripts/beaver_frameinfo.py:295-296 | a nonzero maximum is the timestamp of some line |
| BeaverFrameInfo.KeepsHighs | tools/scripts/beaver_frameinfo.py:292-362 | the loop keeps exactly the record-setting lines in order: prevTime is the maximum, and each list entry is the kept line's own value (frameTime its timestamp in seconds); prevIndex is the last kept frame index |
| BeaverFrameInfo.FailsOnHigh | tools/scripts/beaver_frameinfo.py:295-362 | the loop raises exactly when a record-setting line has a non-number in an integer column |
| BeaverFrameInfo.KeptIncrease | tools/scripts/beaver_frameinfo.py:295-299 | the kept acquisition timestamps strictly increase and are all positive |
| BeaverFrameInfo.LostFramesEstimate | tools/scripts/beaver_frameinfo.py:353-362 | with an estimatedLostFrames column the estimate is its value; without, it is the gap to the previous kept frame index less one, or 0 for the first kept frame and after a non-positive index |
| BeaverFrameInfo.FrameInfoMonitoring.Empty | tools/scripts/beaver_frameinfo.py:226-285 | the lists start empty |
| BeaverFrameInfo.FrameInfoMonitoring.AddKept | tools/scripts/beaver_frameinfo.py:296-362 | a kept line appends its entry to each list, the estimate chosen by the three-way test |
| BeaverFrameInfo.FrameInfoMonitoring.Load | tools/scripts/beaver_frameinfo.py:220-366 | the constructor raises exactly when ParseAll or Accumulate fails, and otherwise holds Accumulate's lists |
| BeaverFrameInfo.ReadsSnoc | tools/scripts/beaver_frameinfo.py:288-366 | one more line either raises, is skipped, or is kept |
| BeaverFrameInfo.ReadsStops | tools/scripts/beaver_frameinfo.py:288-366 | once the loop has raised, later lines do not matter |
| BeaverFrameInfo.ReadsAll | tools/scripts/beaver_frameinfo.py:288-366 | the loop as run equals the specification: None when parsing fails, Accumulate of the parsed lines otherwise |
| LinkedFifo.LinkedAt | src/arstream2_rtp.c:123-240 | on a well-linked list every slot's next is the following slot (NULL at the end) and its prev the preceding one (the given predecessor at the start) |
| LinkedFifo.LinkedDistinct | src/arstream2_rtp.c:123-240 | a well-linked list never visits the same item twice |
| LinkedFifo.PopFrontChain | src/arstream2_rtp.c:131-139 | unhooking the first item (its successor's prev set to NULL) leaves the rest a well-linked list |
| LinkedFifo.PushFrontChain | src/arstream2_rtp.c:156-166 | linking a new item in front (old first's prev set to it, its prev NULL) gives a well-linked list with it first |
| LinkedFifo.PushBackChain | src/arstream2_rtp.c:183-201 | linking an item after the tail gives a well-linked list with it last |
| LinkedFifo.RemoveChain | src/arstream2_rtp.c:522-537 | unlinking the i-th item by joining its neighbours leaves the list without it, still well linked |
| LinkedFifo.InsertChain | src/arstream2_h264.c:586-609 | linking an item before the i-th one, both neighbours updated, gives the list with it inserted at i |
| LinkedFifo.PopFrontPair | src/arstream2_rtp.c:131-139 | popping one list leaves the other, disjoint list linked as before |
| LinkedFifo.PushFrontPair | src/arstream2_rtp.c:156-166 | pushing on one list leaves the other, disjoint list linked as before |
| LinkedFifo.PushBackPair | src/arstream2_rtp.c:183-201 | appending to one list leaves the other, disjoint list linked as before |
| LinkedFifo.RemovePair | src/arstream2_rtp.c:522-537 | unlinking from one list leaves the other, disjoint list linked as before; the removed item had a NULL prev exactly when first and a NULL next exactly when last |
| LinkedFifo.ChainMissesSlot | src/arstream2_rtp.c:251-262 | a list shorter than the pool leaves some pool item off it, which is why a FIFO below its size always has a free item |
| LinkedFifo.Fifo.EmptyIff | src/arstream2_rtp.c:316-320 | head is NULL exactly when the queue holds nothing, and count agrees with it |
| LinkedFifo.Fifo.Init | src/arstream2_rtp.c:34-61 | a pool of maxCount items, all on the free list, the last one first; the queue is empty |
| LinkedFifo.Fifo.PopFree | src/arstream2_rtp.c:123-145 | with items free, the first free item is returned and unhooked and the rest of the free list stays linked; with none, NULL and nothing changes |
| LinkedFifo.Fifo.PushFree | src/arstream2_rtp.c:148-169 | the item becomes the first of the free list, the queue is untouched |
| LinkedFifo.Fifo.EnqueueItem | src/arstream2_rtp.c:172-204 | a full FIFO returns -2 unchanged; otherwise the item is appended at the tail and the contents gain its value |
| LinkedFifo.Fifo.DequeueItem | src/arstream2_rtp.c:207-240 | an empty FIFO returns NULL; otherwise the head item is returned, unlinked, and the contents lose their first value |
| LinkedFifo.Fifo.Unlink | src/arstream2_rtp.c:522-538 | removing the i-th queued item joins its neighbours (or moves head/tail) and removes exactly its value from the contents |
| LinkedFifo.Fifo.UnlinkAndFree | src/arstream2_rtp.c:522-548 | the i-th item leaves the queue, goes to the front of the free list, and the walk continues at its old successor |
| LinkedFifo.Fifo.Flush | src/arstream2_h264.c:251-272 | every queued item moves to the free list, in reverse queue order on top of the old free list; the count returned is the number queued |
| LinkedFifo.Fifo.EnqueueValue | src/arstream2_rtp.c:243-266 | below capacity a free item is filled with the value and queued: the contents gain it at the end |
| LinkedFifo.Fifo.EnqueueValues | src/arstream2_rtp.c:280-300 | the values are appended in order |
| LinkedFifo.Fifo.TakeHead | src/arstream2_rtp.c:322-336 | the first value is taken off and its item freed |
| LinkedFifo.Fifo.TakeFront | src/arstream2_rtp.c:365-386 | the first min(n, count) values are taken off in order and the rest stay |
| RtpPacketFifo.TimeoutPartition | src/arstream2_rtp.c:511-554 | the packets are split exactly into the ones kept (timeout 0 or later than now) and the ones dropped, as a permutation |
| RtpPacketFifo.KeptAllFresh | src/arstream2_rtp.c:513 | when no packet has expired nothing is dropped |
| RtpPacketFifo.ReportsAppend | src/arstream2_rtp.c:456-459 | the reports of one more packet are the earlier ones plus that packet's |
| RtpPacketFifo.PacketFifo.Init | src/arstream2_rtp.c:23-87 | an empty FIFO of maxCount items, all free |
| RtpPacketFifo.PacketFifo.EnqueuePacket | src/arstream2_rtp.c:243-266 | -2 and no change when full; otherwise 0 and the packet appended |
| RtpPacketFifo.PacketFifo.EnqueuePackets | src/arstream2_rtp.c:269-303 | -1 for a non-positive count, -2 when the packets do not all fit (nothing enqueued), otherwise 0 and all of them appended in order |
| RtpPacketFifo.PacketFifo.DequeuePacket | src/arstream2_rtp.c:306-339 | -2 when empty; otherwise 0, the first packet returned and removed |
| RtpPacketFifo.PacketFifo.DequeuePackets | src/arstream2_rtp.c:342-389 | -1 for a non-positive maximum, -2 when empty; otherwise 0 and the first min(max, count) packets returned in order and removed |
| RtpPacketFifo.PacketFifo.FillMsgVec | src/arstream2_rtp.c:392-423 | -2 when empty; otherwise one message header per queued packet in queue order, the count returned, the queue unchanged and the rest of msgVec untouched |
| RtpPacketFifo.PacketFifo.SendFront | src/arstream2_rtp.c:443-481 | the first min(msgVecCount, count) packets leave the queue, each reported as sent when a callback is set |
| RtpPacketFifo.PacketFifo.CleanFromMsgVec | src/arstream2_rtp.c:425-484 | -2 when empty; otherwise the sent packets leave the queue in order with their sent reports, and their number is returned |
| RtpPacketFifo.PacketFifo.DropExpired | src/arstream2_rtp.c:511-556 | the queue keeps exactly the unexpired packets in order, the expired ones are counted and reported as dropped in order |
| RtpPacketFifo.PacketFifo.CleanFromTimeout | src/arstream2_rtp.c:487-557 | -1 for time 0, -2 when empty, otherwise the expired packets leave the queue, reported as dropped, and their number is returned |
| RtpPacketFifo.PacketFifo.DropAll | src/arstream2_rtp.c:584-622 | all packets leave the queue, each reported as dropped in order |
| RtpPacketFifo.PacketFifo.Flush | src/arstream2_rtp.c:560-623 | -1 for time 0, -2 when empty, otherwise every packet is dropped and reported and their number returned |
| RtpPacketFifo.FifoInit | src/arstream2_rtp.c:34-38 | a non-positive size is refused with -1 and no FIFO; otherwise an empty FIFO of that size |
| RtpPacketFifo.GeneratePacket | src/arstream2_rtp.c:626-699 | a missing payload or a zero payload size returns -1 and leaves the packet alone; otherwise the packet carries the payload and two iovecs, three with a header extension |
| RtpPacketFifo.GeneratedHeaderReadsBack | src/arstream2_rtp.c:667-681 | the header written reads back as version 2, no padding, no CSRC, payload type 96, the extension bit set exactly with an extension, the marker bit as given, and the sequence number, timestamp and sender SSRC |
| RtpPacketFifo.ParseHeaderBytes | src/arstream2_rtp.c:678-681 | the network-order header bytes of any header parse back to its fields |
| RtpPacketFifo.GeneratedIovTotal | src/arstream2_rtp.c:684-696 | the iovec lengths add up to header plus extension plus payload size |
| RtpPacketFifo.RtpTimestampRounds | src/arstream2_rtp.c:651 | the RTP timestamp is the NTP time times the clock rate plus offset, divided by one million and rounded to nearest, modulo 2^64 |
| H264.NaluReset | src/arstream2_h264.c:21-46 | every field of the NALU is cleared: timestamps, flags, sizes and pointers 0, type UNKNOWN, slice type NON_VCL |
| H264.NaluResetUnique | src/arstream2_h264.c:21-46 | a NALU is in the reset state exactly when it equals the reset of any NALU, so resetting forgets everything |
| H264.AuReset | src/arstream2_h264.c:49-67 | the access unit is emptied (sizes, timestamps and NALU list cleared) and keeps its three buffers and their sizes |
| H264.AuResetKeepsOnlyBuffers | src/arstream2_h264.c:49-67 | two access units reset to the same value exactly when they share buffers; resetting twice is resetting once; a reset unit holds an empty NALU list |
| H264.NaluFifoInit | src/arstream2_h264.c:70-110 | -1 and no FIFO for a non-positive size; otherwise a valid FIFO of that size, every item free and zeroed, the queue empty |
| H264.AuFifoInit | src/arstream2_h264.c:275-362 | -1 for a non-positive size; otherwise every access unit free and empty, each buffer allocated with its size exactly when its requested size is positive |
| H264.AuEnqueueNalu | src/arstream2_h264.c:548-583 | the NALU item is linked after the access unit's tail and the list grows by it; the first NALU's timestamps become the access unit's |
| H264.AuDequeueNalu | src/arstream2_h264.c:612-644 | an empty list gives NULL and no change; otherwise the head item is unlinked and returned, count, head and tail follow the rest of the list |
| H264.AuEnqueueNaluBefore | src/arstream2_h264.c:586-609 | (intended) the item is linked before the given NALU, the predecessor's next included, so the list gains it at that position and stays linked |
| H264.InsertKeepsAuList | src/arstream2_h264.c:586-609 | linking before the i-th NALU keeps the access unit's head, tail and count consistent with the list |
| H264.AuEnqueueNaluBeforeAsWritten | src/arstream2_h264.c:595-606 | (as written) the new item's links and the successor's prev are set but the predecessor's next is not |
| H264.EnqueueBeforeAsWrittenLosesItem | src/arstream2_h264.c:595-606 | (as written) inserting before any NALU but the first leaves the predecessor pointing past the new item, so walking the list skips it; before the first it is right |
| H264.AuCheckSizeReallocAsWritten | src/arstream2_h264.c:647-662 | (as written) the buffer is reallocated but bufferSize is never updated, and the result is 0 or -1 |
| H264.AuCheckSizeReallocAsWrittenKeepsSize | src/arstream2_h264.c:649-653 | (as written) a second check for the same size reallocates again because the recorded size did not grow |
| H264.AuCheckSizeRealloc | src/arstream2_h264.c:647-662 | (intended) -1 exactly when growth is needed and realloc fails; after success the buffer holds auSize + size; no other field changes; no growth when it already fits |
| H264.AuCheckSizeReallocSettles | src/arstream2_h264.c:647-662 | (intended) after a successful check, checking again for the same size changes nothing |
| RtpH264.FifoInitAsWritten | src/arstream2_rtp_h264.c:22-59 | (as written) the loop never moves past pool[0], which ends up linked to itself and is the only free item |
| RtpH264.PopFreeRaw | src/arstream2_rtp_h264.c:80-101 | popping the free list hands out the item it points to and moves it to that item's next |
| RtpH264.FifoInitAsWrittenPopsFirstItemTwice | src/arstream2_rtp_h264.c:48-56 | (as written) the first two pops from a FIFO of two or more items both return pool[0] and then the free list is empty |
| RtpH264.FifoInit | src/arstream2_rtp_h264.c:22-59 | (intended) -1 for a non-positive size, otherwise every zeroed item on the free list and an empty queue |
| RtpH264.FifoInitHandsOutDistinctItems | src/arstream2_rtp_h264.c:48-56 | (intended) the free list holds every item of the pool once, so successive pops give distinct items |
| RtpH264.EnqueueNalu | src/arstream2_rtp_h264.c:128-169 | -2 and no change when full; otherwise 0 and the NALU appended |
| RtpH264.EnqueueNalus | src/arstream2_rtp_h264.c:171-217 | -1 for a non-positive count, -2 when count plus the new ones would reach the size; otherwise 0 and all appended in order |
| RtpH264.DequeueNalu | src/arstream2_rtp_h264.c:219-260 | -2 when empty; otherwise 0 and the first NALU returned and removed |
| RtpH264.DequeueNalus | src/arstream2_rtp_h264.c:262-310 | -1 for a non-positive maximum, -2 when empty; otherwise 0 and the first min(max, count) NALUs returned in order and removed |
| BeaverFilter.EnqueueHolds | src/beaver_filter.c:143-173 | filling an unused slot and linking it at the tail marks exactly the queued slots used and appends the access unit to the contents |
| BeaverFilter.DequeueHolds | src/beaver_filter.c:199-216 | unlinking the head slot and clearing its used flag leaves exactly the remaining queued slots used, holding the rest of the contents |
| BeaverFilter.AuFifo.constructor | src/beaver_filter.c:1077-1085 | auFifoSize zeroed slots, none used, and an empty queue |
| BeaverFilter.AuFifo.EnqueueAu | src/beaver_filter.c:126-180 | -2 and no change when fifoCount >= auFifoSize; otherwise the access unit is copied into an unused slot, marked used and appended, so the contents gain it at the end |
| BeaverFilter.AuFifo.DequeueAu | src/beaver_filter.c:182-221 | -2 when empty; otherwise the head access unit is returned, its slot unlinked and marked unused, and the contents lose their first element |
| BeaverFilter.AuFifo.FlushAuFifo | src/beaver_filter.c:224-245 | the FIFO is emptied and every access unit it held is handed to the cancel callback once, in queue order |
| BeaverFilter.HostBytes32 | src/beaver_filter.c:301-305 | the 4-byte host-order image of the size reads back as the size |
| BeaverFilter.SizePrefixed | src/beaver_filter.c:301-305 | the start code is replaced by the NALU size and the rest of the NALU is unchanged |
| BeaverFilter.Status | src/beaver_filter.c:465 | a non-negative status becomes 0 and a negative one is kept |
| BeaverFilter.Filter.constructor | src/beaver_filter.c:1030-1058 | the configuration flags as given, not synchronised, no SPS or PPS, no output buffer, the temporary buffer of 1 MiB only when waiting for sync, and an empty AU FIFO |
| BeaverFilter.Filter.Sync | src/beaver_filter.c:248-289 | -1 and no change when already synchronised; otherwise the filter becomes synchronised, reports SPS and PPS to the callback when there is one, and when it held the AU in the temporary buffer swaps in a real buffer (-1 and no buffer when the request fails) and copies the AU so far when it fits |
| BeaverFilter.Filter.ProcessNalu | src/beaver_filter.c:291-466 | -1 for a NULL buffer or a non-positive size; a parse error changes nothing; an IDR slice makes the AU IDR; after sync a P slice clears all-I; the first SPS and first PPS are stored and storing the second synchronises; the result is the slice or SEI status, Sync's failure, or 0 |
| BeaverFilter.Filter.StoreParamSet | src/beaver_filter.c:403-452 | a parameter set is stored only when none of its kind is stored and the copy is allocated; Sync fires exactly when this completes the pair for the first time |
| BeaverFilter.Filter.ResetCurrentAu | src/beaver_filter.c:494-500 | size 0, not incomplete, sync type NONE, all-I set, and nothing else changes |
| BeaverFilter.Filter.AddNaluToCurrentAu | src/beaver_filter.c:503-521 | the size grows by the NALU size unless the NALU is filtered out (SPS/PPS with filterOutSpsPps, SEI with filterOutSei) |
| BeaverFilter.Filter.EnqueueCurrentAu | src/beaver_filter.c:524-572 | a non-IDR all-I AU becomes IFRAME; output is cancelled when waiting for sync or incomplete and not allowed; 1 exactly when the AU was appended to the FIFO, 0 otherwise with the FIFO unchanged |
| BeaverFilter.Filter.GetSpsPps | src/beaver_filter.c:762-811 | -1 for a NULL size pointer, -2 before sync; otherwise 0, both sizes reported, each set copied only into a non-NULL buffer that is large enough |
| H264FilterRules.SyncGeometry | src/arstream2_h264_filter.c:349-353 | mbWidth is pic_width_in_mbs_minus1 + 1, mbHeight the map-unit height doubled unless frame_mbs_only_flag, mbCount their product, all positive, and maxFrameNum = 2^(log2_max_frame_num_minus4 + 4), a multiple of 16 (section 7.4.2.1.1 of ITU-T H.264) |
| H264FilterRules.FrameGapWraps | src/arstream2_h264_filter.c:454 | a reference AU following frame_num maxFrameNum - 1 shows a gap exactly when its frame_num is not 0: the expected successor wraps modulo maxFrameNum (section 7.4.3 of ITU-T H.264) |
| H264FilterRules.OutputSyncType | src/arstream2_h264_filter.c:2259-2269 | IDR stays IDR; otherwise an all-I AU is IFRAME, else PIR_START when streaming info gives indexInGop 0, else unchanged |
| H264FilterRules.OutputSyncTypeIdempotent | src/arstream2_h264_filter.c:2259-2269 | applying the rule again to its own result gives the same type |
| H264FilterRules.Framed | src/arstream2_h264_filter.c:2344-2351 | a copied NALU of 4 bytes or more, with replacement on, has its start code replaced by the big-endian size less 4, the rest unchanged; otherwise it is copied as is |
| H264FilterRules.Assembled | src/arstream2_h264_filter.c:2326-2355 | the output never exceeds the buffer size |
| H264FilterRules.Kept | src/arstream2_h264_filter.c:2329-2337 | only NALUs that are not filtered out remain, each one of the AU's |
| H264FilterRules.AssembledWhenAllFit | src/arstream2_h264_filter.c:2326-2355 | when every kept NALU fits, the output is the kept NALUs framed and concatenated in list order |
| H264FilterRules.JoinedCons | src/arstream2_h264_filter.c:2326-2355 | the concatenation of a list is its first NALU's framed bytes followed by the rest's |
| H264FilterRules.SizePrefixedRoundTrip | src/arstream2_h264_filter.c:2344-2353 | with start codes replaced by sizes, splitting the output at the size prefixes gives back every NALU's payload, in order |
| H264FilterRules.SliceWalk | src/arstream2_h264_filter.c:2197-2206 | the walk stops at the end of the table or at the first slice whose first macroblock reaches the target, and its position is the start plus the sizes of the slices passed |
| H264FilterRules.SliceSumCons | src/arstream2_h264_filter.c:2204 | the sizes of slices lo..hi are slice lo's plus those after it |
| H264FilterRules.SliceWalkReachesTableEnd | src/arstream2_h264_filter.c:2202 | (as written) walking towards a target no slice start reaches ends at the table end, the index at which the unguarded size read leaves the table |
| H264FilterRules.SliceSumMonotone | src/arstream2_h264_filter.c:2204 | slice starts never decrease along the table, since sizes are not negative |
| H264FilterRules.SliceMbCountAt | src/arstream2_h264_filter.c:2208 | (intended) the size of slice i when i is within the slice count the SEI gives, 0 past it (the code reads the table entry at i unguarded) |
| H264FilterRules.ClipAsWrittenGoesNegative | src/arstream2_h264_filter_error.c:378-382 | (as written) a range starting past the last macroblock gets a negative count, which the memset that follows takes as a huge length |
| H264FilterRules.Clip | src/arstream2_h264_filter_error.c:378-382 | (intended) the clipped count is never negative, never more than asked, keeps first + count within mbCount, and is the count itself when it already fits |
| H264FilterRules.SliceMbStatus | src/arstream2_h264_filter.c:2223-2237 | an I-slice macroblock is VALID_ISLICE; a P-slice one is VALID_PSLICE exactly when its reference macroblock is valid, ERROR_PROPAGATION otherwise |
| H264FilterRules.MarkedSlice | src/arstream2_h264_filter.c:2221-2240 | exactly the slice's macroblocks get the slice status from their reference; every other entry of the map is unchanged |
| H264FilterRules.MarkedSliceStatuses | src/arstream2_h264_filter.c:2221-2240 | marking keeps every entry a valid status and marking the same slice twice is marking it once |
| H264FilterRules.ZeroStats | src/arstream2_h264_filter.c:2441-2468 | statistics start with every counter 0, shaped by class and zone |
| H264FilterRules.Zone | src/arstream2_h264_filter.c:2449 | the zone of a macroblock is a valid zone number |
| H264FilterRules.MbStep | src/arstream2_h264_filter.c:2450-2465 | counting one macroblock leaves the frame counters unchanged |
| H264FilterRules.MbStepCell | src/arstream2_h264_filter.c:2450 | counting one macroblock increments exactly its status and zone cell, modulo 2^32 |
| H264FilterRules.MbStepTick | src/arstream2_h264_filter.c:2451-2465 | a macroblock that is not valid, in an output AU, starts a new error second (globally and in its zone) when more than a second has passed since the last one |
| H264FilterRules.Tally | src/arstream2_h264_filter.c:2441-2468 | counting a map leaves the frame counters unchanged |
| H264FilterRules.RowStep | src/arstream2_h264_filter.c:2445-2450 | the row-by-row loop visits macroblock k = j·mbWidth + i in zone j·ZONE_COUNT/mbHeight, one step of the tally |
| H264FilterRules.CellZone | src/arstream2_h264_filter.c:2449 | the zone of macroblock j·mbWidth + i depends only on its row j |
| H264FilterRules.CellCount | src/arstream2_h264_filter.c:2450 | a reference count: how many of the first n macroblocks have a given status and zone |
| H264FilterRules.TallyCounts | src/arstream2_h264_filter.c:2445-2450 | after counting a map, each status/zone cell grew by the number of macroblocks of that status in that zone, modulo 2^32 |
| H264FilterRules.ErrorSecondAtMostOnce | src/arstream2_h264_filter.c:2455-2459 | over a whole AU the global error second moves at most once: to the current time and count + 1 exactly when the AU is output, has a macroblock not received and more than a second has passed; otherwise it is unchanged |
| H264FilterRules.ZoneErrorSecondAtMostOnce | src/arstream2_h264_filter.c:2460-2464 | the same for each zone: its error second moves once exactly when the output AU has a macroblock not received in that zone and more than a second has passed |
| H264FilterRules.FrameCounted | src/arstream2_h264_filter.c:2469-2485 | total always grows by one; output, discarded and missed each grow by one exactly when their condition holds; nothing else changes |
| H264FilterRules.FrameStats | src/arstream2_h264_filter.c:2434-2485 | one synchronised AU: total +1, output +1 iff output, discarded +1 iff discarded, missed +1 iff a reference AU was discarded or not output; without a map the macroblock counters are unchanged |
| H264FilterRules.StatsOutputTime | src/arstream2_h264_filter.c:2486-2523 | the output time starts at the first AU's time and moves to the current time once an interval has passed |
| H264FilterRules.GuardedDecrement | src/arstream2_h264_filter_error.c:161-163 | the timestamp goes down by the step when it can, else by 1 when positive, and never wraps below 0 |
| H264Filter.AuBufferPoolInit | src/arstream2_h264_filter.c:14-86 | -1 and no pool for a non-positive count; otherwise a pool of maxCount items, none queued, all on the free list, each with its own AU and metadata buffers of the requested sizes (none when a size is not positive) |
| H264Filter.AuBufferPoolPopFreeItem | src/arstream2_h264_filter.c:122-145 | NULL on an empty free list; otherwise the free list's head is handed out and leaves the list; the queue and the items' contents are unchanged |
| H264Filter.AuBufferPoolPushFreeItem | src/arstream2_h264_filter.c:147-169 | -1 for a NULL item, leaving the pool as it was; otherwise the item goes to the head of the free list; the queue is unchanged |
| H264Filter.ScanSei | src/arstream2_h264_filter.c:468-506 | after the SEI loop the streaming information is available exactly when it was before or one of the SEIs is a Parrot streaming v1 SEI that deserialises; the slice table keeps its shape; user data kept from the AU fits the AU's user data buffer |
| H264Filter.ScanSeiLastStreaming | src/arstream2_h264_filter.c:476-496 | the streaming information, slice table and inferred slice size left by the SEI loop are those of the last streaming SEI that deserialises |
| H264Filter.ScanUserDataSeis | src/arstream2_h264_filter.c:472-505 | the loop over the user data SEIs computes ScanSei over all of them |
| H264Filter.SliceTypeOf | src/arstream2_h264_filter.c:441-449 | slice_type mod 5 = 2 gives an I slice, 0 a P slice, and any other value leaves the NALU's slice type as it was |
| H264Filter.SlicedAu | src/arstream2_h264_filter.c:424-465 | an IDR slice makes the AU an IDR; without slice info the first macroblock becomes unknown (-1); with it the AU's reference flag follows nal_ref_idc, a P slice clears slices-all-I, and the AU's frame_num is taken from its first slice only |
| H264Filter.SliceRange | src/arstream2_h264_filter.c:2190-2220 | (intended) the macroblock range a received slice marks: with a streaming SEI, the slice walk's index and the table's size there; otherwise the inferred size from the slice's known first macroblock; the range always lies inside the map, and a slice whose first macroblock is unknown marks nothing |
| H264Filter.SliceRangeAsWrittenBeforeMap | src/arstream2_h264_filter.c:2194-2221 | (as written) with a streaming SEI and a slice whose first macroblock is unknown, the code marks from index -1, one macroblock before the map |
| H264Filter.Filter.constructor | src/arstream2_h264_filter.c:2870-2878 | a zeroed filter taking the configuration's options: not running, not synchronised, no parameter set, no callback, no status map, zero statistics |
| H264Filter.Filter.Start | src/arstream2_h264_filter.c:2728-2768 | BAD_PARAMETERS, with nothing changed, unless both the AU buffer and the AU ready callbacks are given; otherwise the callbacks are installed and the filter runs |
| H264Filter.Filter.Synchronise | src/arstream2_h264_filter.c:310-391 | the filter becomes synchronised, a gray I frame becomes pending when configured, and the SPS and PPS go to the SPS/PPS callback; -1 without an SPS context or when the writer refuses it, leaving no map; on success both status maps hold mbCount UNKNOWN macroblocks |
| H264Filter.Filter.InstallMaps | src/arstream2_h264_filter.c:375-388 | both status maps are (re)allocated for mbCount macroblocks, all UNKNOWN, and the previous frame_num is forgotten |
| H264Filter.Filter.NewStatusMap | src/arstream2_h264_filter.c:377-386 | a new status map of n macroblocks, all UNKNOWN |
| H264Filter.Filter.Fill | src/arstream2_h264_filter.c:2439 | every macroblock of the map gets the given status |
| H264Filter.Filter.ResetAu | src/arstream2_h264_filter.c:2159-2183 | the AU state goes back to its reset value, a reference AU's frame_num becomes the previous frame_num, the current map becomes all UNKNOWN, and the reference map, sync state and statistics are unchanged |
| H264Filter.Filter.SliceAu | src/arstream2_h264_filter.c:424-465 | the AU state becomes SlicedAu of the old state |
| H264Filter.Filter.CheckFrameGap | src/arstream2_h264_filter.c:451-463 | on the first slice of a reference AU whose frame_num does not follow the previous one modulo maxFrameNum, one frame is counted total and missed and the reference map becomes all MISSING; otherwise the statistics and the reference map are unchanged |
| H264Filter.Filter.CountMissedFrame | src/arstream2_h264_filter.c:457-462 | one frame more in total and missed, and the reference map all MISSING |
| H264Filter.Filter.HandleSlice | src/arstream2_h264_filter.c:424-467 | (intended) a slice updates the AU state as SlicedAu says (with slice info only once synchronised), sets the NALU's slice type, and counts a frame gap as CheckFrameGap says; the test is skipped while maxFrameNum is 0 |
| H264Filter.Filter.HandleSei | src/arstream2_h264_filter.c:468-506 | once synchronised the SEIs are scanned as ScanSei says; user data is copied only when it fits the AU's user data buffer, and the AU is otherwise unchanged |
| H264Filter.Filter.StoreParameterSet | src/arstream2_h264_filter.c:507-540 | the first SPS (PPS) that can be allocated is stored and marks SPS (PPS) sync; later ones and failed allocations change nothing |
| H264Filter.Filter.ParseContent | src/arstream2_h264_filter.c:404-544 | when setting up and parsing the NALU both succeed, its type is the parser's and slices, SEIs, SPS and PPS are handled as HandleSlice, HandleSei and StoreParameterSet say; otherwise the NALU and the filter are unchanged |
| H264Filter.Filter.ParseNalu | src/arstream2_h264_filter.c:394-562 | -1 and nothing done for a NALU of 4 bytes or less; otherwise the NALU is parsed, and a running filter holding both parameter sets but not yet synchronised synchronises; the result is 0 unless that synchronisation fails |
| H264Filter.Filter.WalkSlices | src/arstream2_h264_filter.c:2197-2206 | the loop computes SliceWalk: the index and first macroblock of the slice holding the target macroblock |
| H264Filter.Filter.ComputeSliceRange | src/arstream2_h264_filter.c:2193-2220 | (intended) the bookkeeping, first macroblock and count ProcessNalu computes are those of SliceRange |
| H264Filter.Filter.FindSliceRange | src/arstream2_h264_filter.c:2193-2220 | the AU state becomes SliceRange's, and the range returned is SliceRange's |
| H264Filter.Filter.MarkSlice | src/arstream2_h264_filter.c:2221-2240 | the current map becomes MarkedSlice of the old map: the slice's macroblocks get their status and no other macroblock changes |
| H264Filter.Filter.ProcessNalu | src/arstream2_h264_filter.c:2186-2245 | (intended) a non-slice NALU changes nothing; a slice marks the AU's slices received, updates its slice bookkeeping as SliceRange says and marks its macroblocks as MarkedSlice says |
| H264Filter.Filter.CopyBytes | src/arstream2_h264_filter.c:2342 | the bytes are written at the offset and the buffer before it is unchanged |
| H264Filter.Filter.CopyNalu | src/arstream2_h264_filter.c:2342-2351 | the NALU is appended at the offset as Framed says, start code replaced by its size when asked |
| H264Filter.Filter.CopyNalus | src/arstream2_h264_filter.c:2326-2355 | the output buffer holds exactly Assembled: the kept NALUs that fit, in order, each framed, and the size returned is its length and at most the buffer's size |
| H264Filter.Filter.CountMacroblock | src/arstream2_h264_filter.c:2445-2465 | counting one more macroblock gives the Tally of the map up to and including it |
| H264Filter.Filter.TallyRow | src/arstream2_h264_filter.c:2445-2450 | counting a row gives the Tally of the map up to the row's end |
| H264Filter.Filter.TallyMacroblocks | src/arstream2_h264_filter.c:2441-2468 | counting every macroblock of the map gives Tally of the whole map |
| H264Filter.Filter.Deliver | src/arstream2_h264_filter.c:2295-2390 | -1 unless the AU buffer callback gives a buffer of positive size; otherwise the buffer holds Assembled and the result is 1 when the AU ready callback succeeds (or there is none) and 0 otherwise, asking for a gray I frame when the callback wants a resync and gray frames are configured |
| H264Filter.Filter.TallyAu | src/arstream2_h264_filter.c:2436-2468 | a reference AU not output has its whole map marked MISSING, then the statistics become Tally of the map |
| H264Filter.Filter.CountFrame | src/arstream2_h264_filter.c:2469-2530 | the frame counters move as FrameCounted says, the statistics output time as StatsOutputTime says, and a reference AU swaps the current and reference maps |
| H264Filter.Filter.UpdateStats | src/arstream2_h264_filter.c:2433-2531 | the statistics become FrameStats of the old statistics and map; the output time moves as StatsOutputTime says; a reference AU swaps the two maps |
| H264Filter.Filter.DeliverAu | src/arstream2_h264_filter.c:2271-2391 | an incomplete AU is discarded unless incomplete AUs are output; a discarded AU, or one before sync while waiting for sync, is cancelled; otherwise it is delivered as Deliver says, and a successful output moves the output index by one |
| H264Filter.Filter.SettleSyncType | src/arstream2_h264_filter.c:2259-2269 | the AU's sync type becomes OutputSyncType of its state |
| H264Filter.Filter.EmitAu | src/arstream2_h264_filter.c:2259-2391 | the sync type is settled, then the AU is delivered as DeliverAu says |
| H264Filter.Filter.OutputAu | src/arstream2_h264_filter.c:2248-2534 | the sync type is settled and the AU delivered as DeliverAu says; before sync the statistics and maps are unchanged; once synchronised they are updated as UpdateStats says, and a reference AU swaps the maps |
| H264Filter.Filter.GetSpsPps | src/arstream2_h264_filter.c:2068-2116 | BAD_PARAMETERS when a size is missing, WAITING_FOR_SYNC before sync; otherwise each size is the stored parameter set's and each set is copied only into a given buffer large enough for it |
| H264Filter.FailedSyncLeavesZeroModulus | src/arstream2_h264_filter.c:339-454 | (as written) a running filter whose parser has no SPS context still synchronises with maxFrameNum 0 and previous frame_num 0, so the frame_num test of line 454 would take a modulus by zero |
| H264Filter.SliceRangeAsWrittenReadsStaleEntry | src/arstream2_h264_filter.c:2208 | (as written) a slice starting past the one slice the SEI describes takes its size from the table entry the SEI did not set (7), where the intended range marks nothing |
| H264FilterError.MarkedRange | src/arstream2_h264_filter_error.c:381-382 | a memset of a status over a range: the macroblocks inside the range get the status and every other one keeps its own |
| H264FilterError.MarkedRangeClip | src/arstream2_h264_filter_error.c:380-382 | clipping the count to the end of the map, as the code does before each memset, marks the same macroblocks as the unclipped range |
| H264FilterError.MarkedRangeTwice | src/arstream2_h264_filter_error.c:532-536 | marking the same range twice with the same status is the same as marking it once |
| H264FilterError.MarkedRangeStatuses | src/arstream2_h264_filter_error.c:381-382 | marking a map of macroblock statuses with a status leaves a map of statuses |
| H264FilterError.GapBeforeSlice | src/arstream2_h264_filter_error.c:323-385 | the gap before a received slice always ends at the slice's first macroblock; with streaming information, no previous slice and a positive first macroblock the gap is [0, first); with it, no gap means an error; without it and without a map or a positive first macroblock there is no gap |
| H264FilterError.GapAtEndOfFrame | src/arstream2_h264_filter_error.c:549-597 | the gap at the end of a frame always ends at mbCount; with streaming information but no previous slice the case is an error; without it, a map and no slice received, the whole frame is missing |
| H264FilterError.SkippedPSlice | src/arstream2_h264_filter_error.c:486-497 | the concealment NALU is a P slice of the written size, with no missing packets before it, carrying the neighbouring NALU's timestamps; everything else is reset |
| H264FilterError.Conceal | src/arstream2_h264_filter_error.c:444-530 | (intended) a skipped P slice is produced exactly when the slice context, a free NALU item, the AU buffer check and the writer all succeed; the AU then grows by the written size, and nothing but its buffer and size changes |
| H264FilterError.Settled | src/arstream2_h264_filter_error.c:388-442 | (intended) -2, with the gap marked MISSING and the AU unchanged, unless skipped P slices are generated, streaming information is available and the neighbouring slice is a P slice; a concealment NALU exists exactly when the gap is marked MISSING_CONCEALED, which happens exactly on success with a non-empty gap |
| H264FilterError.MissingSlices | src/arstream2_h264_filter_error.c:307-541 | (intended) a NALU that is not a slice, or a slice at macroblock 0, changes nothing and gives 0; before sync nothing is marked and the result is -2; any gap ends at the slice's first macroblock, and a concealment NALU, not last in the AU and with the next slice's RTP timestamp, exists exactly when the gap is marked MISSING_CONCEALED |
| H264FilterError.MissingEndOfFrame | src/arstream2_h264_filter_error.c:544-753 | (intended) -2 and nothing done before sync; -1 with streaming information and no previous slice; any gap ends at mbCount, and a concealment NALU, last in the AU and with the previous slice's RTP timestamp, exists exactly when the gap is marked MISSING_CONCEALED |
| H264FilterError.MarkRange | src/arstream2_h264_filter_error.c:381-382 | the current map becomes MarkedRange of the old map |
| H264FilterError.ForgetPreviousSlice | src/arstream2_h264_filter_error.c:315-319 | only the previous slice index and first macroblock of the AU change, both to 0 |
| H264FilterError.HandleMissingSlices | src/arstream2_h264_filter_error.c:307-541 | (intended) the result, AU and concealment NALU are those of MissingSlices, and the current map is the old one with the gap marked with MissingSlices' status; a slice at macroblock 0 resets the previous slice position |
| H264FilterError.HandleGapBeforeSlice | src/arstream2_h264_filter_error.c:323-540 | (intended) for a slice not at macroblock 0 the result is MissingSlices' and the current map has its gap marked |
| H264FilterError.HandleMissingEndOfFrame | src/arstream2_h264_filter_error.c:544-753 | (intended) the result, AU and concealment NALU are those of MissingEndOfFrame, and the current map is the old one with the gap marked with its status |
| H264FilterError.GrayParameterSets | src/arstream2_h264_filter_error.c:74-114 | nothing before the gray slice when SPS and PPS are filtered out; otherwise the SPS then the PPS, each only if it fits in what is left of the buffer; never more than the buffer holds |
| H264FilterError.GrayFrame | src/arstream2_h264_filter_error.c:14-303 | 0 exactly when an AU was built and the callback accepted it; the AU is an IDR whose three timestamps come strictly before the next AU's (when those are positive), holds the parameter sets and the gray slice, and carries an all-VALID_ISLICE status map when the filter has a map and the status buffer could be sized |
| H264FilterError.GrayFrameKeepsStreamingGaps | src/arstream2_h264_filter_error.c:143-244 | with streaming information, the saved and restored AU context gives the same gaps before a slice and at the end of the frame as before the gray frame |
| H264FilterError.GrayFrameForgetsIdr | src/arstream2_h264_filter_error.c:159-240 | the sync type is not among the restored fields: an all-I IDR AU in progress is output as an IDR before the gray frame and as an IFRAME after it |
| H264FilterError.CopyMap | src/arstream2_h264_filter_error.c:241-245 | the current map becomes the saved map |
| H264FilterError.RestoreFields | src/arstream2_h264_filter_error.c:232-240 | after the second reset the eight saved fields of the AU are put back and nothing else changes |
| H264FilterError.OutputGrayIdrFrame | src/arstream2_h264_filter_error.c:14-303 | the result and the AU handed to the callback are GrayFrame's; the current map comes back unchanged; once the gray slice is written the AU context is reset and restored as AfterGrayFrame says, and otherwise it is unchanged |
| H264FilterError.GrayFrameRoundTrip | src/arstream2_h264_filter_error.c:143-245 | the AU context is saved, reset, restored as AfterGrayFrame says, and the current map comes back unchanged around the gray frame's output |
| H264FilterError.EmitGrayFrame | src/arstream2_h264_filter_error.c:159-229 | the current map becomes all VALID_ISLICE and the AU handed to the callback is the IDR gray frame with decremented timestamps; 0 only when the callback accepts it |
| BeaverParrot.Uuid | include/beaver/beaver_parrot.h:39-75 | each payload type has its own four-word UUID |
| BeaverParrot.Fields | include/beaver/beaver_parrot.h:77-209 | each payload layout lists at least three words after the UUID (frameIndex and the acquisition timestamp) |
| BeaverParrot.RecordSize | include/beaver/beaver_parrot.h:77-209 | a record's size is its UUID, one 32-bit word per field and, for the Extended layouts, two serial-number parts; at least 28 bytes |
| BeaverParrot.FromBE4 | src/beaver_parrot.c:28-31 | ntohl of four bytes is their big-endian value |
| BeaverParrot.Word | src/beaver_parrot.c:28-31 | the k-th 32-bit word of the buffer read big-endian |
| BeaverParrot.UuidWords | src/beaver_parrot.c:28-31 | the first four words of the buffer |
| BeaverParrot.StrNCopy | src/beaver_parrot.c:140-142 | strncpy of n bytes: the source's bytes up to its first NUL, then NUL padding, n bytes in all |
| BeaverParrot.NulFirst | src/beaver_parrot.c:140 | a source starting with NUL copies as all NUL |
| BeaverParrot.NulShift | src/beaver_parrot.c:140 | the NUL test of strncpy moves one byte along a source that does not start with NUL |
| BeaverParrot.StrNCopyPadded | src/beaver_parrot.c:140-142 | a serial-number part read with strncpy is NUL-padded: copying it again changes nothing |
| BeaverParrot.GetUserDataSeiType | src/beaver_parrot.c:236-277 | -1 exactly for NULL or fewer than 16 bytes; a recognised type exactly when the buffer starts with that type's UUID; UNKNOWN exactly for a buffer of 16 bytes or more matching no UUID |
| BeaverParrot.ReadFields | src/beaver_parrot.c:104-136 | each field is the corresponding big-endian word, read unsigned or as a signed 32-bit value according to the layout |
| BeaverParrot.SerialPart | src/beaver_parrot.c:139-142 | a serial-number part is strncpy of the bytes at its offset |
| BeaverParrot.FormatOf | src/beaver_parrot.c:14-232 | the format of each parse function: its UUID, its field layout and whether serial-number parts follow, of RecordSize bytes |
| BeaverParrot.ParseUserDataSei | src/beaver_parrot.c:14-232 | the four parse functions: a record exactly when the buffer is given, at least the record's size and starts with the format's UUID; its fields are the words after the UUID and, for the Extended layouts, the two serial-number parts follow |
| BeaverParrot.UuidsDistinct | include/beaver/beaver_parrot.h:39-75 | the four UUIDs are pairwise different, so the order of the type tests does not matter |
| BeaverParrot.UuidClassifies | src/beaver_parrot.c:249-274 | a buffer that starts with a type's UUID is classified as that type |
| BeaverParrot.ClassifiedIsParsed | src/beaver_parrot.c:14-277 | a format's parse succeeds exactly when the buffer is long enough for it and is classified as its type |
| BeaverParrot.FieldWord | src/beaver_parrot.c:104-136 | the word a field value is written as reads back as that value |
| BeaverParrot.WordsBE | src/beaver_parrot.c:104-136 | big-endian bytes of a word sequence, four per word |
| BeaverParrot.WordsBEWord | src/beaver_parrot.c:104-136 | the k-th word read from the bytes of a word sequence is its k-th word |
| BeaverParrot.FieldWords | src/beaver_parrot.c:104-136 | each field value as the word it is read from |
| BeaverParrot.Serialize | include/beaver/beaver_parrot.h:77-209 | the bytes of a well-formed record are exactly its format's size |
| BeaverParrot.NulBeforePrefix | src/beaver_parrot.c:140-142 | the NUL test only looks at the first n bytes |
| BeaverParrot.StrNCopyPrefix | src/beaver_parrot.c:140-142 | strncpy of n bytes only depends on the first n bytes of its source |
| BeaverParrot.ParseSerialize | src/beaver_parrot.c:14-232 | parsing the bytes of a well-formed record gives the record back |
| BeaverParrot.SerializedIsClassified | src/beaver_parrot.c:236-277 | the bytes of a well-formed record are classified as its type |
| BeaverParrot.ParsedIsWellFormed | src/beaver_parrot.c:14-232 | every parsed record is well formed: its UUID, field count and value ranges, and NUL-padded serial-number parts |
| BeaverWriter.Escape | src/beaver_writer.c:87-111 | emulation prevention of a byte string: nothing is dropped, and from a zero count of at most 2 the count after it stays at most 2 |
| BeaverWriter.EscapeAppend | src/beaver_writer.c:83-124 | escaping two strings one after the other, carrying the zero count, is escaping their concatenation |
| BeaverWriter.UnescapeEscape | src/beaver_writer.c:87-111 | removing the inserted 0x03 bytes gives back the bytes written |
| BeaverWriter.EscapeNoStartCode | src/beaver_writer.c:87-111 | escaped output never holds 0x000000, 0x000001 or 0x000002, and the zero count kept is the number of trailing zero bytes emitted |
| BeaverWriter.EscapeByteNoStartCode | src/beaver_writer.c:90-111 | one escaped byte keeps the output free of 0x000000, 0x000001 and 0x000002 |
| BeaverWriter.AppendOne | src/beaver_writer.c:104-111 | appending a byte that is not <= 2 after two zeros keeps the output free of start-code emulation |
| BeaverWriter.TrailingZerosAppend | src/beaver_writer.c:104-111 | the trailing zero count grows by one on 0x00 and drops to 0 on any other byte |
| BeaverWriter.EscapeInAlignEmulatesStartCode | src/beaver_writer.c:163-186 | (as written) the flush loop of bitstreamByteAlign, after two zero bytes, turns three pending zero bytes into 03 00 00 00, which contains 0x000000, where writeBits' step gives 03 00 00 03 00 |
| BeaverWriter.FFCoded | src/beaver_writer.c:345-381 | (intended) the payloadType and payloadSize coding of section 7.3.2.3.1 of ITU-T H.264: one 0xFF per whole 255 and then the remainder, v / 255 + 1 bytes |
| BeaverWriter.ReadFFCoded | src/beaver_writer.c:345-381 | the reading side of that coding uses at least one and at most all of the bytes given |
| BeaverWriter.ReadFFCodedInverse | src/beaver_writer.c:345-381 | reading back the coding of v, whatever follows it, gives v and the coding's length |
| BeaverWriter.FFCodedAsWrittenDiffers | src/beaver_writer.c:364-373 | (as written) the loop's `> 255` test codes a value differently from the standard's coding exactly when it is a positive multiple of 255 |
| BeaverWriter.FFCodedAsWrittenMisread | src/beaver_writer.c:364-381 | (as written) a 255-byte user data payload is sized as a lone 0xFF, so a reader takes 255 plus the payload's first byte as the size |
| BeaverWriter.UserDataMessage | src/beaver_writer.c:340-389 | (intended) a user-data-unregistered SEI message is longer than its user data |
| BeaverWriter.ParseSeiMessageRoundTrip | src/beaver_writer.c:340-390 | (intended) a SEI message reads back as its user data when there are at least 16 bytes of it, and as no message otherwise |
| BeaverWriter.ParseSeiNaluRoundTrip | src/beaver_writer.c:299-410 | (intended) a written SEI NAL unit reads back, after its start code and emulation prevention are removed, as the user data it was given (at least 16 bytes) or as no message |
| BeaverWriter.SeiNaluNoStartCodeEmulation | src/beaver_writer.c:330-405 | (intended) the NAL unit after its start code holds no 0x000000, 0x000001 or 0x000002 |
| BeaverWriter.BitsOf | src/beaver_writer.c:80-138 | the numBits low bits of a value, most significant first |
| BeaverWriter.ValueOf | src/beaver_writer.c:80-138 | the value of a bit string is below 2 to its length |
| BeaverWriter.ValueOfBitsOf | src/beaver_writer.c:80-138 | a value below 2^n is the value of its n bits |
| BeaverWriter.BitsOfValueOf | src/beaver_writer.c:80-138 | a bit string is the bits of its own value |
| BeaverWriter.BitsOfSplit | src/beaver_writer.c:80-127 | the bits of a value are the bits of its high part followed by its k low bits |
| BeaverWriter.BitsOfLow | src/beaver_writer.c:126-127 | masking to the k low bits keeps the k low bits |
| BeaverWriter.Pack | src/beaver_writer.c:83-124 | bytes from a bit string, eight bits each, most significant first |
| BeaverWriter.Unpack | src/beaver_writer.c:83-124 | the bits of bytes, eight per byte |
| BeaverWriter.PackUnpack | src/beaver_writer.c:83-124 | packing the bits of bytes gives the bytes back |
| BeaverWriter.UnpackPack | src/beaver_writer.c:83-124 | unpacking packed bits gives the bits back |
| BeaverWriter.AppendBits | src/beaver_writer.c:68-142 | writeBits on the pending bits: when they reach 32 the four bytes go out and fewer than 32 bits stay pending |
| BeaverWriter.AppendBitsKeepsBits | src/beaver_writer.c:68-142 | no bit is lost or reordered: the bytes sent out and the bits left pending are the old pending bits followed by the new ones |
| BeaverWriter.FlushBits | src/beaver_writer.c:77-132 | bits that reach 32 flush the cache as four bytes and keep the rest pending |
| BeaverWriter.KeepBits | src/beaver_writer.c:135-139 | bits that do not fill the cache are only added to it |
| BeaverWriter.Aligned | src/beaver_writer.c:145-206 | the pending bits padded with zeros to a whole byte, as bytes |
| BeaverWriter.AlignedBits | src/beaver_writer.c:150-153 | the aligned bytes are the pending bits followed by the zero bits that complete the last byte |
| BeaverWriter.StartCodeBits | src/beaver_writer.c:320-327 | the 32-bit start code fills the cache and leaves as 00 00 00 01 |
| BeaverWriter.TrailingBits | src/beaver_writer.c:392-405 | the stop bit then byte alignment gives the byte 0x80 when the cache is byte-aligned |
| BeaverWriter.Push | src/beaver_writer.c:83-124 | a byte written moves into the cache and every four bytes leave it in order |
| BeaverWriter.Writer.Init | src/beaver_writer.c:413-439 | a zeroed writer that keeps the configuration's naluPrefix when one is given |
| BeaverWriter.Writer.PutByte | src/beaver_writer.c:114-121 | the byte is stored exactly when the buffer has room; otherwise nothing changes |
| BeaverWriter.Writer.WriteCacheByte | src/beaver_writer.c:85-121 | one cache byte through emulation prevention: it succeeds exactly when the escaped bytes fit, and otherwise the buffer holds as many of them as fit |
| BeaverWriter.Writer.WriteCacheBytes | src/beaver_writer.c:83-124 | the first count cache bytes go out escaped, as Emit says, and the cache shifts by as many bytes |
| BeaverWriter.Writer.WriteBits | src/beaver_writer.c:68-142 | numBits or -1: the bits go into the cache as AppendBits says, the full cache's bytes go out escaped, and a failure leaves the buffer full with as much of the output as fits |
| BeaverWriter.Writer.FillAndFlush | src/beaver_writer.c:77-132 | the bits that fill the cache are written and its four bytes go out escaped |
| BeaverWriter.Writer.ByteAlign | src/beaver_writer.c:145-207 | (intended) bitstreamByteAlign: the pending bits, padded to a whole byte, go out through the same emulation prevention as writeBits |
| BeaverWriter.Writer.WriteZeroBits | src/beaver_writer.c:150-153 | the zero bits that complete the last byte are added to the cache |
| BeaverWriter.Writer.WriteByte | src/beaver_writer.c:286-292 | an 8-bit write: the byte joins the NAL unit and the writer state stays consistent, or the buffer holds as much of the escaped output as fits |
| BeaverWriter.Writer.WriteFFCoded | src/beaver_writer.c:345-381 | (intended) payloadType or payloadSize coded as FFCoded says |
| BeaverWriter.Writer.WriteSeiPayload | src/beaver_writer.c:278-296 | the payload's bits, 8 per byte, or -1 with the buffer holding as much as fits |
| BeaverWriter.Writer.WriteTrailingBits | src/beaver_writer.c:392-405 | the rbsp_trailing_bits byte is written and the cache emptied, or the buffer holds as much as fits |
| BeaverWriter.Writer.WriteStartCode | src/beaver_writer.c:319-328 | the start code 00 00 00 01, not escaped, or a failure with the buffer holding as much of it as fits |
| BeaverWriter.Writer.WriteHeaderByte | src/beaver_writer.c:330-338 | the NAL header byte of a SEI NAL unit goes into the cache |
| BeaverWriter.Writer.WriteSeiMessage | src/beaver_writer.c:340-390 | (intended) the SEI message is written when there are at least 16 bytes of user data, and nothing otherwise |
| BeaverWriter.Writer.WriteUserData | src/beaver_writer.c:340-389 | (intended) payloadType 5, payloadSize and the user data bytes are written in order |
| BeaverWriter.Writer.WriteNalu | src/beaver_writer.c:310-409 | (intended) on success the buffer holds SeiNalu; on failure it holds as much of SeiNalu as fits |
| BeaverWriter.Writer.Start | src/beaver_writer.c:310-317 | the writer starts an empty NAL unit in the caller's buffer with an empty cache and no zero bytes counted |
| BeaverWriter.WriteSeiNalu | src/beaver_writer.c:299-410 | (intended) -1 for a missing writer, output buffer or output size or an empty buffer; otherwise 0 exactly when the SEI NAL unit fits, the buffer then holding exactly it and the output size being its length; on -1 the buffer holds as much of it as fits |
| MonitoringRing.Prev | src/arstream2_rtp_sender.c:1455 | the backward step of the scan is a step back modulo MAX_POINTS and stays a valid slot |
| MonitoringRing.PrevBehind | src/arstream2_rtp_sender.c:1446-1455 | stepping back from the slot k places behind the newest gives the slot k + 1 places behind |
| MonitoringRing.RecentOf | src/arstream2_rtp_sender.c:1446-1455 | the n points the backward scan visits, newest first, are the slots 0, 1, ... n - 1 places behind the newest |
| MonitoringRing.RecentAfterPush | src/arstream2_rtp_sender.c:503-515 | after a push, the points newest first are the new point followed by the older ones, the oldest dropping out once the ring is full |
| MonitoringRing.Ring.Init | src/arstream2_rtp_sender.c:143-145 | a zeroed ring: no point yet, index 0, every slot zero |
| MonitoringRing.Ring.Recent | src/arstream2_rtp_sender.c:143-145 | the valid points, newest first, number count |
| MonitoringRing.Ring.Push | src/arstream2_rtp_sender.c:503-515 | the count grows up to MAX_POINTS, the index moves one slot forward modulo MAX_POINTS, only that slot is written, and the points newest first become the new one followed by the older ones |
| MonitoringRing.Window | src/arstream2_rtp_sender.c:1449-1492 | the points GetMonitoring uses from a history newest first: those stamped after the start are skipped, the scan stops at the first one more than the interval older than the start, the others are kept; never more than the history |
| MonitoringRing.WindowInInterval | src/arstream2_rtp_sender.c:1451-1460 | every point used is stamped within the interval before the start time |
| MonitoringRing.WindowIsSubset | src/arstream2_rtp_sender.c:1449-1492 | every point used comes from the history |
| MonitoringRing.WindowStep | src/arstream2_rtp_sender.c:1449-1492 | one point of the scan is skipped, ends it, or joins the window |
| MonitoringRing.ScanStep | src/arstream2_rtp_sender.c:1449-1492 | the scan's invariant carried over one point: the window so far plus the window of the rest is the whole window |
| MonitoringRing.ScanEnd | src/arstream2_rtp_sender.c:1449 | a scan that reached the end of the history has the whole window |
| RtpSender.OrDefault | src/arstream2_rtp_sender.c:589-604 | a configured value is kept when positive and replaced by the default otherwise, so the result is positive whenever either is |
| RtpSender.BufferSizes | src/arstream2_rtp_sender.c:605-617 | the socket send buffer is at least the 50 ms minimum and at least a quarter (with a network latency budget) or a sixth (without) of the total byte budget, equal to one of the two; no latency budget gives a total of 0 |
| RtpSender.LatencyUs | src/arstream2_rtp_sender.c:618-619 | no latency budget gives a budget of 0 microseconds |
| RtpSender.MaxPacketSizeAsWrittenWraps | src/arstream2_rtp_sender.c:602-632 | (as written) a configured packet size of 1 to 39 bytes wraps to 2^32 minus the shortfall and so passes the sender report size check |
| RtpSender.PayloadSize | src/arstream2_rtp_sender.c:602-603 | a positive configured packet size is the payload size plus the 40 header bytes |
| RtpSender.Derive | src/arstream2_rtp_sender.c:589-627 | the stored settings have a positive FIFO size, a payload that holds a sender report, a non-negative bitrate, and split the total byte budget between the socket buffer and the NALU FIFO |
| RtpSender.NewSettings | src/arstream2_rtp_sender.c:541-633 | (intended) New succeeds exactly when the configuration, a non-empty client address and positive client ports are given and the payload size holds a sender report; every failure is BAD_PARAMETERS; success gives a positive FIFO size |
| RtpSender.NewAsWritten | src/arstream2_rtp_sender.c:601-681 | (as written) whenever New as written succeeds it yields the intended settings |
| RtpSender.NewAsWrittenRejectsDefaultFifoSize | src/arstream2_rtp_sender.c:601-681 | (as written) a FIFO size left at 0 selects the default 1024, yet FifoInit gets the raw 0 and New reports ALLOC |
| RtpSender.LatencyBudgetWraps | src/arstream2_rtp_sender.c:605-619 | a 40 ms budget at 1 Mbit/s, shorter than the 50 ms socket drain time, wraps to 2^32 - 10000 microseconds |
| RtpSender.TimeoutTimestamp | src/arstream2_rtp_sender.c:1016-1019 | a NALU's deadline is at least the AU timestamp plus maxLatencyUs and at least the input time plus maxNetworkLatencyUs when each applies, and is one of them or 0 |
| RtpSender.NoBudgetNoTimeout | src/arstream2_rtp_sender.c:1017-1019 | without any latency budget a NALU's deadline is 0 (it never times out) |
| RtpSender.Fill | src/arstream2_rtp_sender.c:1016-1028 | the recycled FIFO item describes the descriptor in every field SendNewNalu writes and keeps its importance and priority |
| RtpSender.Sender.Init | src/arstream2_rtp_sender.c:531-885 | a new sender owns the given empty FIFO and an empty monitoring ring, has the stored latency budgets and callbacks, and has no thread started |
| RtpSender.New | src/arstream2_rtp_sender.c:531-885 | (intended) a failed check returns no sender and its error; otherwise a fresh sender with an empty FIFO of the stored size, an empty monitoring ring and the stored latency budgets |
| RtpSender.Delete | src/arstream2_rtp_sender.c:904-979 | BAD_PARAMETERS without a sender, BUSY while its thread runs, OK once it is stopped |
| RtpSender.EnqueueDesc | src/arstream2_rtp_sender.c:1009-1041 | QUEUE_FULL exactly when the FIFO holds its size of NALUs, leaving it unchanged; otherwise the filled NALU is appended behind the others |
| RtpSender.SendNewNalu | src/arstream2_rtp_sender.c:981-1052 | BAD_PARAMETERS for a missing sender or descriptor, a descriptor without buffer, size or timestamp, or a stopped thread; else QUEUE_FULL when full; on OK the FIFO is the old contents plus one NALU describing the descriptor; on error the FIFO is unchanged |
| RtpSender.SendNNewNalu | src/arstream2_rtp_sender.c:1054-1134 | every descriptor is checked before any is queued (BAD_PARAMETERS leaves the FIFO unchanged); then the first min(count, room) descriptors are appended in order, each described exactly, and QUEUE_FULL is reported when they did not all fit |
| RtpSender.DescribedAppend | src/arstream2_rtp_sender.c:1088-1121 | appending one more filled NALU keeps the old contents and extends the run of NALUs that describe the descriptors in order |
| RtpSender.EnqueueAll | src/arstream2_rtp_sender.c:1088-1125 | the FIFO ends as its old contents followed by one described NALU per descriptor that fitted, in order; QUEUE_FULL exactly when some did not fit |
| RtpSender.CancelledAppend | src/arstream2_rtp_sender.c:453-488 | the NALUs and AUs cancelled by two runs of callbacks are those of the first run followed by those of the second |
| RtpSender.FlushCancelsEveryNalu | src/arstream2_rtp_sender.c:463-471 | with a NALU callback, a flush cancels every queued NALU's user pointer, in queue order; without one it cancels none |
| RtpSender.NoRepeatsCons | src/arstream2_rtp_sender.c:474-482 | prefixing a timestamp other than the last one reported keeps the AU cancellations free of immediate repeats |
| RtpSender.FlushCancelsAuOncePerTimestamp | src/arstream2_rtp_sender.c:474-482 | a flush cancels no AU without an AU callback, never re-cancels the AU last reported, and never cancels the same timestamp twice in a row |
| RtpSender.HeadCancels | src/arstream2_rtp_sender.c:474-482 | a NALU changes the last AU callback timestamp only by cancelling its own AU through the AU callback |
| RtpSender.FlushSplit | src/arstream2_rtp_sender.c:463-484 | flushing a queue is flushing its head and then the rest from the timestamp the head leaves |
| RtpSender.FlushStep | src/arstream2_rtp_sender.c:463-484 | one dequeue removes the head NALU and appends its callbacks, keeping the events so far plus those of the rest equal to the whole flush |
| RtpSender.Callbacks | src/arstream2_rtp_sender.c:467-483 | the callbacks for one dequeued NALU: its cancellation when a NALU callback is set, then its AU's when it ends an AU whose timestamp differs from the last one reported |
| RtpSender.FlushNaluFifo | src/arstream2_rtp_sender.c:453-488 | -1 without a sender; otherwise 0, an empty FIFO and exactly the callbacks FlushEvents lists for the old contents, with the last AU timestamp it leaves |
| RtpSender.FlushAll | src/arstream2_rtp_sender.c:463-485 | the dequeue loop empties the FIFO and makes the callbacks of the whole old queue in order |
| RtpSender.FlushNaluQueue | src/arstream2_rtp_sender.c:1136-1154 | BAD_PARAMETERS without a sender; otherwise OK, an empty FIFO and the callbacks of the flush |
| RtpSender.UpdateMonitoring | src/arstream2_rtp_sender.c:490-516 | nothing without a sender; otherwise the point becomes the newest of the ring, the count grows up to its cap, the oldest point drops out once full and no other slot changes |
| RtpSender.StatsCounts | src/arstream2_rtp_sender.c:1466-1490 | the packets sent and dropped are the numbers of points in the window that sent and that dropped bytes |
| RtpSender.StatsBounds | src/arstream2_rtp_sender.c:1466-1490 | the minima and maxima bound the size, acquisition-to-network and network times of every packet sent in the window; with none they keep their initial values |
| RtpSender.SizeBoundsAttained | src/arstream2_rtp_sender.c:1479-1480 | with packets sent, the smallest and the largest packet size are the sizes of packets in the window |
| RtpSender.RangeStep | src/arstream2_rtp_sender.c:1467-1480 | a sum between k times the minimum and k times the maximum stays so after adding one more size and updating the extremes |
| RtpSender.SentBytesBounds | src/arstream2_rtp_sender.c:1466-1480 | without uint32 wrap-around the byte sum is the bytes sent in the window and lies between the count times the smallest and times the largest packet |
| RtpSender.MeanSizeWithinBounds | src/arstream2_rtp_sender.c:1495 | without wrap-around the mean packet size lies between the smallest and the largest packet size |
| RtpSender.MeanBetween | src/arstream2_rtp_sender.c:1495-1497 | a sum between k times lo and k times hi divided by k lies between lo and hi |
| RtpSender.StatsOfSnoc | src/arstream2_rtp_sender.c:1449-1491 | the accumulators over a window extended by one point are the accumulators of the window updated with that point |
| RtpSender.GetMonitoring | src/arstream2_rtp_sender.c:1418-1539 | BAD_PARAMETERS without a sender, an output record or an interval; otherwise OK and the summary of the window Window computes: scanning from the newest point, the points output after the start time (the clock when it is 0) are skipped and the scan stops at the first point output before the interval |
| RtpSender.MakeReport | src/arstream2_rtp_sender.c:1494-1536 | the reported record: the time spanned back from the start, the extremes, and each mean as the sum divided by the packets sent (0 without packets) |
| RtpSender.ScanWindow | src/arstream2_rtp_sender.c:1444-1494 | the backward scan from the newest point skips newer points, stops at the first older than the interval, and returns the accumulators of exactly the window and the output time of its oldest point |
| RtpSender.Accumulate | src/arstream2_rtp_sender.c:1466-1490 | one loop step adds the point's bytes sent and dropped and, for a packet sent, its times to the sums, the counts and the extremes |
| RtpReceiver.TooSmallAsWrittenMissesUnderflow | src/arstream2_rtp_receiver.c:1039-1060 | (as written) a configured packet size of 1 to 39 bytes gives a negative payload size, which the size_t comparison lets through although it cannot hold a receiver report |
| RtpReceiver.TooSmallBoundary | src/arstream2_rtp_receiver.c:1039-1060 | (intended) the corrected check accepts exactly an unset packet size or one holding the 40 header bytes and a receiver report with one block; for every size that does not underflow it agrees with the check as written |
| RtpReceiver.Derive | src/arstream2_rtp_receiver.c:1034-1055 | the stored settings: the payload size without headers, positive bitrate and latencies kept and others stored as 0, the two flags set exactly when configured positive, and client ports that are positive (the configured ones when given) |
| RtpReceiver.ReadDigitsStops | src/arstream2_rtp_receiver.c:133-136 | the digits read by atoi stop at the first non-digit |
| RtpReceiver.ReadDigitsValue | src/arstream2_rtp_receiver.c:133-136 | atoi over a run of decimal digits is the number they spell, shifted past the accumulated value |
| RtpReceiver.DecimalValueCons | src/arstream2_rtp_receiver.c:133-136 | a digit string's value is its first digit times a power of ten plus the value of the rest |
| RtpReceiver.MulShift | src/arstream2_rtp_receiver.c:133-136 | shifting an accumulated value by one more digit distributes over the sum |
| RtpReceiver.MulticastReadsFirstOctet | src/arstream2_rtp_receiver.c:133-136 | an address is treated as multicast exactly when its first dotted octet reads as 224 to 239 |
| RtpReceiver.Resender.Init | src/arstream2_rtp_receiver.c:1368-1415 | a new resender record has no sender and no receiver, is not running, and keeps its header-extension choice |
| RtpReceiver.Receiver.Init | src/arstream2_rtp_receiver.c:1029-1060 | a new receiver has the given settings, no thread, no monitoring points, NALU buffers or resenders, and fresh storage |
| RtpReceiver.New | src/arstream2_rtp_receiver.c:929-1060 | (intended) BAD_PARAMETERS without the configuration and its FIFOs, mutex and callback, without exactly one of a network and a mux configuration, with an incomplete network configuration or an unusable mux, or with a payload size that cannot hold a receiver report; otherwise a fresh receiver with the derived settings and nothing recorded |
| RtpReceiver.Delete | src/arstream2_rtp_receiver.c:1368-1477 | BAD_PARAMETERS without a receiver; BUSY while its thread runs, changing nothing; otherwise OK, and exactly the stopped resenders whose sender can be deleted leave their slots |
| RtpReceiver.DeleteResenders | src/arstream2_rtp_receiver.c:1388-1415 | the resender loop clears exactly the slots below the count holding a stopped resender whose sender Delete accepts; the others keep their resender |
| RtpReceiver.Received | src/arstream2_rtp_receiver.c:603-621 | the number of messages received is at most the number asked for |
| RtpReceiver.ReceivedPrefix | src/arstream2_rtp_receiver.c:603-621 | the messages received are all the results up to the first error, and that error ends them |
| RtpReceiver.RecvMmsg | src/arstream2_rtp_receiver.c:592-625 | -1 without a message vector; otherwise the error of the first message when none was received, else the count received, with each received message's length stored as an unsigned int |
| RtpReceiver.UpdateMonitoring | src/arstream2_rtp_receiver.c:449-466 | the point becomes the newest of the ring, the count grows up to its cap, the oldest point drops out once full and no other slot changes |
| RtpReceiver.StatsOfSnoc | src/arstream2_rtp_receiver.c:1906-1939 | the accumulators over a window extended by one point are those of the window updated with that point |
| RtpReceiver.StatsCounts | src/arstream2_rtp_receiver.c:1925-1936 | the packets received are the window's points, the byte count is the window's bytes modulo 2^32, and the sequence number carried is the oldest point's |
| RtpReceiver.ModAdd | src/arstream2_rtp_receiver.c:1926 | adding to a uint32 sum modulo 2^32 step by step gives the total modulo 2^32 |
| RtpReceiver.MissedSpansSeqNums | src/arstream2_rtp_receiver.c:1930-1934 | the missing packet count plus the packets received spans the sequence numbers from the oldest to the newest point, modulo 2^16 |
| RtpReceiver.ModShift | src/arstream2_rtp_receiver.c:1931-1932 | the 16-bit wrap correction keeps the sequence number sum congruent modulo 2^16 |
| RtpReceiver.MissedWithoutWrap | src/arstream2_rtp_receiver.c:1930-1934 | without wrap-around between neighbours, the missing packet count is the sequence number span of the window less the packets received |
| RtpReceiver.GetMonitoring | src/arstream2_rtp_receiver.c:1877-1994 | (intended) BAD_PARAMETERS without a receiver or an interval; otherwise OK and the summary of the window Window computes: scanning from the newest point, the points received after the start time (the clock when it is 0) are skipped and the scan stops at the first point received before the interval, each point read once |
| RtpReceiver.ScanWindow | src/arstream2_rtp_receiver.c:1901-1941 | (intended) the backward scan skips newer points, stops at the first older than the interval and returns the accumulators of exactly the window and the receive time of its oldest point |
| RtpReceiver.Accumulate | src/arstream2_rtp_receiver.c:1925-1936 | one loop step adds the point's bytes modulo 2^32 and the packets missed before it, and counts it |
| RtpReceiver.ExampleSlots | src/arstream2_rtp_receiver.c:1906-1938 | (as written) the example ring holds two points 10 microseconds apart in slots 1 and 0, the slots behind them zeroed |
| RtpReceiver.ExampleScanAsWritten | src/arstream2_rtp_receiver.c:1919-1938 | (as written) the scan as written checks the newer point but reads the older one, then checks and reads the zeroed slots behind it |
| RtpReceiver.ExampleWindow | src/arstream2_rtp_receiver.c:1906-1917 | both example points lie in the window |
| RtpReceiver.GetMonitoringAsWrittenSkipsPoints | src/arstream2_rtp_receiver.c:1919-1938 | (as written) the function as written reports 20 bytes over 100 microseconds where the window received 30 bytes over 10 microseconds |
| RtpReceiverResender.FirstFit | src/arstream2_rtp_receiver_resender.c:56-69 | the first pass finds the first free buffer large enough for the NALU, or -1 when no free buffer fits |
| RtpReceiverResender.FirstFree | src/arstream2_rtp_receiver_resender.c:71-96 | the second pass finds the first free buffer, or -1 when every buffer is in use |
| RtpReceiverResender.RoundUp | src/arstream2_rtp_receiver_resender.c:80 | a NALU size rounded up to the 4096-byte chunk is a multiple of the chunk, at least the size and less than one chunk above it |
| RtpReceiverResender.RoundUpBounds | src/arstream2_rtp_receiver_resender.c:80 | C's truncating division by the chunk size lands within one chunk below the dividend, and not above it for a non-negative one |
| RtpReceiverResender.Acquire | src/arstream2_rtp_receiver_resender.c:51-120 | the buffer chosen for a NALU: -1 exactly when the pool is full and every buffer is in use, leaving the pool unchanged; otherwise a buffer that fits the NALU, only that slot changed, reused as is or resized to the rounded size; the count grows by one only for a new buffer taken when none was free |
| RtpReceiverResender.AcquirePrefersFit | src/arstream2_rtp_receiver_resender.c:56-96 | a buffer is reused unchanged only when no earlier free buffer fits, and a buffer is resized only when no free buffer fits at all |
| RtpReceiverResender.GetAvailableNaluBuffer | src/arstream2_rtp_receiver_resender.c:51-120 | the buffer index, the pool and the count left are exactly those Acquire specifies |
| RtpReceiverResender.CountFree | src/arstream2_rtp_receiver_resender.c:56-69 | the number of free buffers is positive exactly when there is a free buffer |
| RtpReceiverResender.FindFit | src/arstream2_rtp_receiver_resender.c:56-69 | the first pass returns the first fit and, when nothing fits, the number of free buffers |
| RtpReceiverResender.FindFree | src/arstream2_rtp_receiver_resender.c:73-96 | the second pass returns the first free buffer |
| RtpReceiverResender.Running | src/arstream2_rtp_receiver_resender.c:166-171 | which resender slots hold a running resender |
| RtpReceiverResender.Sent | src/arstream2_rtp_receiver_resender.c:166-195 | the number of running resenders that accepted the NALU is at most the number of resenders |
| RtpReceiverResender.SentStep | src/arstream2_rtp_receiver_resender.c:166-195 | counting one more resender adds one exactly when it runs and accepted the NALU |
| RtpReceiverResender.Stripped | src/arstream2_rtp_receiver_resender.c:131-136 | with start codes the 4-byte start code is taken off the NALU; without them the NALU is passed unchanged |
| RtpReceiverResender.ResendNalu | src/arstream2_rtp_receiver_resender.c:123-203 | -1 exactly when Acquire finds no buffer, with the pool unchanged; otherwise 0, the NALU copied into the chosen buffer, whose use count grows by exactly the number of running resenders that accepted it, so it is free again once each has released it |
| RtpReceiverResender.AcceptAll | src/arstream2_rtp_receiver_resender.c:164-196 | the resender loop adds one use of the buffer per running resender that accepted the NALU and changes no other buffer |
| RtpReceiverResender.NaluCallback | src/arstream2_rtp_receiver_resender.c:28-48 | the released buffer's use count drops by exactly one and nothing else changes; nothing changes without a resender, a user pointer or a receiver |
| RtpReceiverResender.SenderConfig | src/arstream2_rtp_receiver_resender.c:236-255 | the resender's sender gets a 1024-NALU FIFO, the receiver's bitrate and the resender's own address and packet size |
| RtpReceiverResender.ResenderNew | src/arstream2_rtp_receiver_resender.c:206-291 | (intended) BAD_PARAMETERS without a receiver or configuration, or with four resenders already; the sender's error when RtpSender.New fails, nothing changed; otherwise a fresh running resender of this receiver appended to its array |
| RtpReceiverResender.Register | src/arstream2_rtp_receiver_resender.c:264-279 | the new resender belongs to the receiver, runs, and takes the next slot of the array |
| RtpReceiverResender.ResenderStop | src/arstream2_rtp_receiver_resender.c:294-306 | a resender with a sender stops running; its sender and receiver stay |
| RtpReceiverResender.IndexOf | src/arstream2_rtp_receiver_resender.c:324-331 | the index of the first occurrence of the resender in the array, or -1 exactly when it is absent |
| RtpReceiverResender.RemoveAt | src/arstream2_rtp_receiver_resender.c:344-350 | removing an entry keeps the entries before it and moves each later one down one place |
| RtpReceiverResender.RemoveAtMultiset | src/arstream2_rtp_receiver_resender.c:344-350 | removing an entry takes exactly that one occurrence out of the array |
| RtpReceiverResender.ResenderDelete | src/arstream2_rtp_receiver_resender.c:309-374 | BAD_PARAMETERS without a resender or receiver, when it is absent from the array, or while it runs, changing nothing; otherwise RtpSender.Delete's result, and on OK the resender leaves the array, the later ones moving down in order and the count dropping by one |
| RtpReceiverResender.Find | src/arstream2_rtp_receiver_resender.c:324-331 | the search loop returns the resender's first index among the counted slots, or -1 |
| RtpReceiverResender.ShiftOut | src/arstream2_rtp_receiver_resender.c:344-350 | the counted slots become the array without the removed entry, the freed last slot is the old last entry (null when the removed entry was last) and the slots beyond are unchanged |
| BeaverTool.Join64 | tools/beavertool.c:515 | the 64-bit timestamp built from two 32-bit halves has the high half as its quotient by 2^32 and the low half as its remainder |
| BeaverTool.Gap | tools/beavertool.c:518-521 | the estimated lost frames, an unsigned difference stored in an int, is the signed 32-bit reading of index - previous - 1 |
| BeaverTool.GapExact | tools/beavertool.c:518-521 | when the true difference fits an int, the estimated lost frames is exactly index - previous - 1 |
| BeaverTool.Close | tools/beavertool.c:466-478 | (intended) closing an access unit appends its record exactly when one is pending, moves its size to the total (modulo 2^32), starts the next empty, and counts one frame only for a record written |
| BeaverTool.FirstUnparsed | tools/beavertool.c:453-461 | the first NAL unit that fails to parse; every one before it parsed |
| BeaverTool.ExtractFrameInfo | tools/beavertool.c:347-751 | an empty video file name fails at once; a NAL unit that fails to parse stops with a failure in the state reached before it, the pending access unit unwritten; otherwise success, with the last pending access unit written |
| BeaverTool.ProcessNalu | tools/beavertool.c:463-708 | one loop iteration for a parsed NAL unit: a delimiter closes the access unit, an SEI closes it without a delimiter and reads its user data, a slice closes it without a delimiter or user data SEI and leaves one pending; its size joins the access unit |
| BeaverTool.AbsorbUserData | tools/beavertool.c:498-684 | the loop over the user data SEI records each readable one's type and, when it deserialises, its timestamps and frame index |
| BeaverTool.U32Add | tools/beavertool.c:476 | adding to a uint32 counter wraps the same as wrapping the exact sum |
| BeaverTool.SegmentKeepsSum | tools/beavertool.c:476-478 | closing an access unit moves its size to the total and loses none, modulo 2^32 |
| BeaverTool.SizesAccounted | tools/beavertool.c:453-708 | the total written plus the access unit under way is the size of all NAL units read, modulo 2^32 |
| BeaverTool.AddToSum | tools/beavertool.c:708 | adding a NAL unit's size to the access unit under way adds it to the sum, modulo 2^32 |
| BeaverTool.FinishCountsAllBytes | tools/beavertool.c:719-728 | once the last access unit is written, the total is the size of the whole stream, modulo 2^32 |
| BeaverTool.FirstTs | tools/beavertool.c:516 | the first timestamp is 0 exactly when no stamp has a nonzero acquisition timestamp |
| BeaverTool.LastTs | tools/beavertool.c:517 | the last timestamp is 0 exactly when no stamp has a nonzero acquisition timestamp |
| BeaverTool.FirstTsSnoc | tools/beavertool.c:516 | a new stamp changes the first timestamp only while it is still 0 |
| BeaverTool.TakeStampTracks | tools/beavertool.c:515-522 | taking one more stamp keeps the first and last timestamp, the previous frame index and the lost frame estimate those of the stamps taken |
| BeaverTool.AbsorbAllTracks | tools/beavertool.c:498-684 | after an SEI's user data the tracked values are those of the stamps taken so far followed by the SEI's |
| BeaverTool.TimestampsTracked | tools/beavertool.c:453-708 | after any prefix of the stream, the first and last nonzero acquisition timestamps, the latest frame index and the latest gap are those of every stamp deserialised so far |
| BeaverTool.HasSliceSnoc | tools/beavertool.c:686-705 | a stream has a slice exactly when its prefix has one or its last NAL unit is one |
| BeaverTool.AudStreamPrefix | tools/beavertool.c:463-478 | in a stream that starts with a delimiter only delimiters close access units: one record per delimiter after the first slice, and an access unit is pending exactly when a slice has been seen |
| BeaverTool.AudStreamRecords | tools/beavertool.c:463-728 | in a stream that starts with a delimiter, the records written are one per delimiter after the first slice plus the last access unit when there was a slice |
| BeaverTool.CloseCounts | tools/beavertool.c:466-478 | (intended) closing keeps the frame count equal to the records written |
| BeaverTool.SegmentCounts | tools/beavertool.c:463-705 | (intended) each NAL unit keeps the frame count equal to the records written |
| BeaverTool.FrameCountCountsRecords | tools/beavertool.c:453-728 | (intended) the frame count equals the number of records written, before and after the last access unit |
| BeaverTool.FrameCountAsWritten | tools/beavertool.c:476-727 | (as written) the counter as written goes up every time an access unit is closed, whether or not a record is written |
| BeaverTool.FrameCountAsWrittenOvercounts | tools/beavertool.c:463-727 | (as written) a delimiter and one slice give a frame count of 2 for the single record written |
| BeaverTool.StrncmpPrefix | tools/beavertool.c:773 | strncmp over 7 characters accepts exactly the arguments that begin with "extract" |
| BeaverTool.ParseArgs | tools/beavertool.c:763-790 | extraction runs exactly when there are at least three arguments and the first begins with "extract"; the video, frame info and optional KML file names are the next three |
| BeaverTool.RunTool | tools/beavertool.c:763-791 | a usage error exits with failure; otherwise the exit status is the extraction's: success exactly when the video file name is non-empty and every NAL unit parses |

## Left out

Threads, sockets, I/O and floating point:
- The sender, receiver, filter and resender threads and their run loops, the sockets (select, poll, recv and sendmmsg except the recvmmsg fallback), the mux queues, the mutexes and the condition variables. These are I/O and concurrency. Locking is taken to be a no-op.
- Clocks are a `curTime` or `inputTime` parameter. Allocation is assumed to succeed, except where an operation takes an explicit `allocOk` or `reallocOk` outcome.
- The H.264 parser, the slice writers (gray I slice, skipped P slice), the SEI deserialiser of the streaming information, the stream recorder, the NAL unit reader of beavertool and the application callbacks are not part of this model. What each one answers is a parameter.
- Floating point is left out:
  - the filter's framerate (src/arstream2_h264_filter.c:352);
  - the sqrt-based jitter and standard deviation of both GetMonitoring functions, and the sender's variance loop (src/arstream2_rtp_sender.c:1499-1515, src/arstream2_rtp_receiver.c:1943-1958);
  - beavertool's PSNR, duration and bitrate figures;
  - libBeaver's jitter-buffer timing.

  The Python scripts' time divisions are exact rationals (`real`), not IEEE doubles.
- Formatted output is left out: the filter's statistics file, the monitor files, beavertool's frame-info printing and KML output, the scripts' "line ignored" messages, and every other print.
- These parts of libBeaver's filter are left out: the NALU callback's buffer handling, its getNewAuBuffer, the filter thread, mutex creation and Free. The model keeps the filter state that callback updates (Sync, ProcessNalu, the current AU and the AU FIFO).
- The exp-Golomb helpers of src/beaver_writer.c:210-275 are left out. Nothing calls them, and they pass swapped arguments to writeBits, so they are not the coding of section 9.1 of ITU-T H.264.
- BeaverWriter.WriteSeiNalu: the payloadSize is written with the corrected coding (see "## Findings"); the code writes a lone 0xFF for 255 bytes of user data. An `int` bit counter overflow is excluded by requiring fewer than 2^31 payload bits. When a write empties the remaining bit count, writeBits shifts a 32-bit value by 32 (src/beaver_writer.c:126), which is undefined in C; the model takes the mask as empty, so no bits remain. Writer creation with a NULL pointer or a failed malloc, and Free, are left out.


Members that state the corrected behaviour of a "## Findings" row, not the code as written:
- BeaverWriter.UserDataMessage: the payloadSize is coded with the loop that runs while the value is at least 255; the code writes a lone 0xFF for a size of 255 (src/beaver_writer.c:364-373).
- BeaverWriter.ParseSeiMessageRoundTrip: the round trip holds for the corrected payloadSize coding; with the code's coding it fails for 255 bytes of user data.
- BeaverWriter.ParseSeiNaluRoundTrip: the round trip holds for the corrected payloadSize coding; with the code's coding it fails for 255 bytes of user data.
- BeaverWriter.SeiNaluNoStartCodeEmulation: stated of the NAL unit with the corrected payloadSize coding.
- BeaverWriter.Writer.WriteSeiMessage: writes the corrected payloadSize coding.
- BeaverWriter.Writer.WriteUserData: writes the corrected payloadSize coding.
- BeaverWriter.Writer.WriteNalu: the buffer holds the NAL unit with the corrected payloadSize coding.
- H264FilterError.Conceal: the AU buffer check records the new buffer size after a realloc; the code keeps the old size (src/arstream2_h264.c:649-653), so a later check reallocates again.
- H264FilterError.Settled: goes through Conceal, so it inherits the recorded buffer size.
- H264FilterError.MissingSlices: goes through Conceal, so it inherits the recorded buffer size.
- H264FilterError.MissingEndOfFrame: goes through Conceal, so it inherits the recorded buffer size.
- RtpReceiverResender.ResenderNew: goes through RtpSender.New, which rejects a maxPacketSize of 1 to 39; the code accepts those sizes and the payload size wraps (src/arstream2_rtp_sender.c:602).
- H264FilterRules.SliceMbCountAt: gives 0 past the slice count; the code reads the table entry at that index unguarded (src/arstream2_h264_filter.c:2208), a stale entry or one past the table.

Source behaviour the model does not follow:
- RtpSender.SendNewNalu: a missing NAL unit descriptor gives BAD_PARAMETERS. The C code sets that code and then still dereferences `nalu` (src/arstream2_rtp_sender.c:987-992), which is undefined behaviour.
- RtpSender.SendNNewNalu: a missing descriptor array gives BAD_PARAMETERS. The C code reads `nalu[k]` through the NULL array whenever naluCount > 0 (src/arstream2_rtp_sender.c:1060-1075).
- H264FilterError.GrayParameterSets: the C code calls `NaluReset(&naluItem->nalu)` on the still-NULL `naluItem` (src/arstream2_h264_filter_error.c:82, 103), and leaves the popped SPS and PPS items un-reset. The model copies the parameter sets without that undefined behaviour.
- H264FilterError.OutputGrayIdrFrame: several C paths are not modelled:
  - the AU FIFO flush when that FIFO is full;
  - releasing popped items on a failure;
  - a memset with a negative count;
  - a memset skipped when the status map is NULL.

  The model's outcomes are -1 or 0 with the AU it hands over.
- RtpSender.BufferSizes: `maxBitrate * maxNetworkLatencyMs` and `maxBitrate * maxLatencyMs` are `int` products in C (src/arstream2_rtp_sender.c:608, 614). They overflow, which is undefined behaviour, for example at 5,000,000 bit/s and 500 ms. The model computes them on unbounded integers.
- Rtcp.NtpFromRtp: the int64 product `(rtp - tsB) * tsAden` can overflow in C. The model computes it on unbounded integers before the uint64 cast.
- BeaverFrameInfo.FrameInfoMonitoring.Load: a kept line is checked for a number in every integer column the script reads. The float columns (GPS position, heights, speeds, attitude, camera angles, PSNR) are not checked. So a kept line with non-numeric text in one of them raises in the script, while Load returns Some. Only the acquisition timestamp, frame index, system timestamp, frame size and lost-frame estimate are kept in the result. The unused `refTime` is not modelled.
- RtpReceiver.Delete: the model follows the C code, which frees the receiver while resenders that still point to it may remain (dangling `resender->receiver`). Nothing states that hazard.
- RtpReceiverResender.ResenderStop: the C code dereferences `resender->receiver` without a NULL check. A resender here always has its receiver.
- RtpReceiverResender.GetAvailableNaluBuffer: realloc and malloc are assumed to succeed. The C loop would move on to the next free buffer after a failed realloc.
- RtpReceiverResender.ResendNalu: whether each running resender's SendNewNalu accepts the NAL unit is a parameter.
- BeaverParrot.ParseUserDataSei: on a UUID mismatch the C parsers have already written the UUID into the caller's record before returning -1. The model returns only the error.
- BeaverTool.RunTool: the end-of-stream error of the reader is only printed by the C code, and so it is left out. Opening files is left out, and so are the frame-info, KML and PSNR outputs.
- H264FilterError.HandleMissingSlices: when the current status map is NULL the model marks nothing; in its -2 branch the code memsets the map with no NULL check, which is undefined behaviour and is reachable after a synchronisation that installed no map.
- H264FilterError.HandleGapBeforeSlice: the same NULL status map case as HandleMissingSlices is not modelled.
- H264FilterError.HandleMissingEndOfFrame: when the current status map is NULL the model marks nothing; in its -2 branch the code memsets the map with no NULL check (undefined behaviour).
- H264FilterError.SkippedPSlice: the local NTP timestamp (ntpTimestampLocal) that the code copies from the neighbouring NALU (src/arstream2_h264_filter_error.c:492 and 703) is not a field of the model's NALU; the other timestamps are copied.
- RtpReceiver.Atoi: C's atoi overflow is not modelled.
- The libraries' other wrappers are left out: the stream sender and receiver, the reader filter, JNI and the test programs. These only forward calls.

## Findings

| source | as written | input that shows it | evidently intended | confidence | as-written member | corrected member |
|---|---|---|---|---|---|---|
| src/arstream2_rtp_h264.c:48 | the init loop sets `cur` to `&pool[0]` once and never advances it, so only pool[0] goes on the free list, linked to itself | a FIFO of 2 items: two pops both return pool[0] | every pool item on the free list once | not executed | RtpH264.FifoInitAsWrittenPopsFirstItemTwice | RtpH264.FifoInitHandsOutDistinctItems |
| src/arstream2_h264.c:595-606 | inserting before a NALU that has a predecessor never sets that predecessor's `next` | an access unit with NALUs a, b; insert x before b: walking from the head gives a, b and skips x, while naluCount is 3 | the predecessor's `next` points to the new item | not executed | H264.EnqueueBeforeAsWrittenLosesItem | H264.InsertKeepsAuList |
| src/arstream2_h264.c:649-653 | after the realloc, `bufferSize` keeps its old value | a second check for the same size reallocates again | the recorded size becomes the new size | not executed | H264.AuCheckSizeReallocAsWrittenKeepsSize | H264.AuCheckSizeReallocSettles, H264FilterError.Conceal, H264FilterError.Settled, H264FilterError.MissingSlices, H264FilterError.MissingEndOfFrame |
| src/beaver_writer.c:179 | in bitstreamByteAlign the zero count grows only in an `else if`, so a 0x00 right after an inserted 0x03 is not counted | two zero bytes already out, then three zero bytes pending: 03 00 00 00 is emitted, which holds 0x000000 | count the 0x00 after the 0x03, as writeBits does | not executed; no caller reaches it, because WriteSeiNalu's last aligned byte always holds the stop bit | BeaverWriter.EscapeInAlignEmulatesStartCode | BeaverWriter.EscapeNoStartCode |
| src/beaver_writer.c:364-373 | payloadSize is coded with `while (payloadSize > 255)`, so a multiple of 255 ends in a 0xFF byte | 255 bytes of user data: the size is written as a lone 0xFF, and a reader takes the next byte as part of the size | loop while the value is at least 255 (section 7.3.2.3.1 of ITU-T H.264) | not executed | BeaverWriter.FFCodedAsWrittenMisread | BeaverWriter.ReadFFCodedInverse, BeaverWriter.UserDataMessage, BeaverWriter.ParseSeiMessageRoundTrip, BeaverWriter.ParseSeiNaluRoundTrip, BeaverWriter.SeiNaluNoStartCodeEmulation, BeaverWriter.Writer.WriteSeiMessage, BeaverWriter.Writer.WriteUserData, BeaverWriter.Writer.WriteNalu, BeaverWriter.WriteSeiNalu |
| src/arstream2_rtp_receiver.c:1923-1924 | the scan steps back a slot before reading the point it has just checked against the window | a newer point of 10 bytes received at 100 microseconds and an older one of 20 bytes at 90: 20 bytes over 100 microseconds are reported instead of 30 bytes over 10 | read the point that was checked, then step back | not executed | RtpReceiver.GetMonitoringAsWrittenSkipsPoints | RtpReceiver.ScanWindow |
| src/arstream2_rtp_receiver.c:1039-1057 | a configured packet size below the 40 header bytes gives a negative payload size, which passes the size_t comparison | maxPacketSize between 1 and 39 | reject it: the payload cannot hold a receiver report | not executed | RtpReceiver.TooSmallAsWrittenMissesUnderflow | RtpReceiver.TooSmallBoundary |
| src/arstream2_rtp_sender.c:602 | `(uint32_t)maxPacketSize - 40` wraps for a packet size below the header size | maxPacketSize between 1 and 39 | reject it | not executed | RtpSender.MaxPacketSizeAsWrittenWraps | RtpSender.NewSettings, RtpReceiverResender.ResenderNew |
| src/arstream2_rtp_sender.c:673 | the NALU FIFO is created with the configured size, not the defaulted one | naluFifoSize 0: New fails with ALLOC | use the stored size (default 1024) | not executed | RtpSender.NewAsWrittenRejectsDefaultFifoSize | RtpSender.New |
| tools/beavertool.c:476-477 | every close increments frameCount, also when no access unit was pending | an access unit delimiter followed by one slice: frameCount 2 for one record | count only the access units written | not executed | BeaverTool.FrameCountAsWrittenOvercounts | BeaverTool.FrameCountCountsRecords |
| src/arstream2_h264_filter.c:454 | the frame_num test takes `% maxFrameNum`, which is 0 after a synchronisation whose SPS context the parser could not give | a failed GetSpsContext, then a reference slice: modulus by zero | skip the test while maxFrameNum is 0 | not executed | H264Filter.FailedSyncLeavesZeroModulus | H264Filter.Filter.HandleSlice |
| src/arstream2_h264_filter.c:2207-2208 | with a streaming SEI, a slice whose first macroblock is unknown (-1) is marked from index -1 | streaming info with one slice of 5 macroblocks and a slice without slice info: the status map is written at index -1 | mark nothing for such a slice | not executed | H264Filter.SliceRangeAsWrittenBeforeMap | H264Filter.SliceRange |
| src/arstream2_h264_filter.c:2208 | the slice size is read as `currentAuStreamingSliceMbCount[currentAuPreviousSliceIndex]` with no check against the slice count | a table of two entries, 5 and a stale 7, an SEI describing one slice, and a slice starting at macroblock 6: the walk stops at index 1 and the stale 7 is used; with a full table the index reaches the table size and the read leaves the array | no size (nothing marked) past the slices the SEI describes | not executed | H264Filter.SliceRangeAsWrittenReadsStaleEntry, H264FilterRules.SliceWalkReachesTableEnd | H264FilterRules.SliceMbCountAt, H264Filter.SliceRange |
| src/arstream2_h264_filter_error.c:380 | the clip before the memset gives `mbCount - first`, which is negative when the range starts past the map | a missing range starting after the last macroblock | clip to an empty range | not executed | H264FilterRules.ClipAsWrittenGoesNegative | H264FilterRules.Clip |
