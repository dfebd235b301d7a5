# Verification of the WebRTC stream server's media path

This project models, in Dafny, how the server turns an H.264 stream into RTP packets for its
viewers and how it answers what they send back: packetization, retransmission, RTCP and NTP
arithmetic, the CRC-32 and STUN messages of connection checks, and the fan-out of media packets
to observers. `dafny verify dfyconfig.toml` checks all of it.

Classes follow the classes of the server and change their fields and buffers in place, as they
do. Each method is proved against a function of the old state; lemmas then prove what those
functions guarantee over every input and every run.

| module | models |
|---|---|
| `Bytes`, `ByteBuffer` | big-endian loads and stores, the reading and writing cursors |
| `AnnexB` | the start code scan of the packetizer, and the Annex B byte stream format |
| `RtpPacketizer` | RTP headers, single NAL unit packets, FU-A fragmentation, the sequence counter |
| `Depacketizer` | a receiver written from RFC 3550 and RFC 6184, and its round trips |
| `RtxPacket` | a stored packet and its rewriting into the format of RFC 4588 |
| `Ntp` | 32.32 and 16.16 fixed-point time, and the round-trip time |
| `StreamTrack` | the send buffer, NACK handling, the throttle, report statistics |
| `TrackRuns` | whole runs of a track: retention, resends, counters, throttle |
| `Rtcp`, `RtcpFraming` | RTCP parsing and serialization; what parsers return and consume |
| `Reports` | sender report out, receiver report back: the round-trip time and the RTP timestamp |
| `MediaStream` | the tracks of a session, the packetizer, the routing of RTCP |
| `StreamRuns` | frames and feedback in any order: the run they make, and what the observer is handed |
| `Delivery` | what a receiver makes of it: NALUs out |
| `Crc32` | the table-driven CRC against bit-by-bit division |
| `Stun`, `StunProofs` | parsing and building STUN messages, and what they guarantee |
| `MediaSource`, `FanOut` | the GOP cache and the observers, over every interleaving |
| `Examples` | the bytes of one small frame, its retransmission, RTCP feedback and a STUN request |

## Main results

- **Losses are made good** (`Delivery.LossesAreMadeGood`). Take a stream with a fresh video track,
  any frames in Annex B format, of NALUs with type 1 to 23, and any feedback bytes the stream
  handles (every NACK names one of its tracks), in any order. A receiver that gets each packet
  either as first sent or as a resend asked for within the packet's lifetime ends up with exactly
  the NALUs of every frame. Every one of these copies is among what the stream object, driven over
  these events, hands to its observer (`StreamRuns.HandleEvents`, `StreamRuns.StreamFollowsRun`).
  `Delivery.LossHappens` is a run it applies to, with nothing received but a resend.
- **Nothing else, and nothing twice** (`StreamRuns.HandedOnce`, `StreamRuns.HandedInOrder`). Over all
  events, what the observer is handed for the video track is each first transmission and each resend
  exactly once, and each event hands over its own part in order. Everything handed over belongs to a
  track of the stream (`StreamRuns.OnlyTracksHanded`).
- **Asking is enough** (`Delivery.AskingIsEnough`). After any such events, a NACK that lists a packet
  first, within its lifetime and when it is neither too old nor resent just before, makes the
  stream's next resend a copy of that packet.
- **What is resent** (`TrackRuns.ResendIsRight`, `TrackRuns.AskIsServed`). Over every run, undoing
  the retransmission format of resend number i gives a packet first sent, byte for byte, however
  often it was resent before. It is the packet asked for if and only if that one is still in its
  slot. A packet in its slot is resent if and only if it is young enough and not resent recently.
- **Retention** (`TrackRuns.Retention`, `TrackRuns.RetentionIsTight`). The ring has 1000 slots, but
  65536 is not a multiple of 1000. A number below 64536 stays for 1000 packets, one from 64536 to
  64999 for 1536, one from 65000 on for 536. So 536 is the bound that always holds, and a run of
  65537 packets shows that it is tight: there a request for number 65000 is answered with number 0.
- **The scan** (`AnnexB.ParseNaluPositions`, `AnnexB.ParseOfStream`). The skip-by-three scan finds
  what a scan of every offset finds. A list of NALUs survives being written and scanned if and
  only if it meets a condition that is stated exactly; a start code in the last three bytes of a
  buffer belongs to the last NALU.
- **Time** (`Ntp.RoundTripExact`, `Reports.ReportedRoundTrip`). Despite three floors and modular
  subtraction the round-trip time is exact to the millisecond if and only if it is below 65536 s.
- **Checksums** (`Crc32.Calculate`, `Crc32.BurstDetected`). The table form is polynomial division,
  and messages that differ only within 32 consecutive bits never collide.
- **STUN** (`StunProofs.AcceptedExactly`, `StunProofs.ResponseAccepted`, `StunProofs.BufferUnchanged`).
  Which messages are accepted, and what the buffer holds afterwards, is characterized exactly in
  terms of the message; a built response is accepted and carries its address. After a wrong digest
  the rewritten length field is not set back (`StunProofs.WrongDigestStays`). The use-candidate flag
  is set exactly by an attribute among the acceptable ones the parser reaches
  (`StunProofs.UseCandidateFlag`).
- **Fan-out** (`FanOut.PresentIffRegistered`, `FanOut.RegisteredOnceInSync`,
  `FanOut.ActiveObserversInSync`). Over every interleaving, an observer is in the lists if and only if
  its last registration was not undone. An active observer that was registered once has received, in
  all, exactly the history from the start of the group of pictures it joined in: from the last video
  key packet before its joining, from the beginning if there was none, and without the cache from its
  joining.
  Observers that come and go are in sync since their last joining if and only if the cache was not
  handed to them again, which registering an active observer leads to.
- **Sender reports** (`Reports.ReportOfRun`, `MediaStream.RoundReports`,
  `Reports.SenderReportTimestamp`, `Reports.OctetsCountPayload`). Every field of a report is stated over
  every run, whatever was resent or reported since the last packet; a round is one report for each
  track that has sent something, entry by entry. When the RTP timestamp is exact is stated for all
  times and clock rates; for a clock of whole kHz it always is until a 64-bit product overflows. The
  octet count is right if and only if the header sizes add up to a multiple of 2^32.

## Where the code and its descriptions differ

The model follows the code, and the lemmas named say exactly when each difference shows:

- A NACK's stored packet is not compared with the number asked for (`TrackRuns.ResendIsRight`,
  `TrackRuns.RetentionIsTight`).
- The octet counter of sender reports counts whole packets, although section 6.4.1 of RFC 3550
  counts payload only (`Reports.OctetsOfFixedHeaders`, `Reports.OneByteReported`).
- A receiver report's length field is not looked at (`RtcpFraming.ReportConsumes`,
  `RtcpFraming.ReportLengthIgnored`).
- A NACK shorter than its two SSRCs makes the item count underflow; it never parses
  (`RtcpFraming.NackConsumes`).
- A wrong digest leaves a STUN message with a changed length field (`StunProofs.BufferUnchanged`,
  `StunProofs.WrongDigestStays`).
- The time of the last packet is kept in 32 bits, which spoils the RTP timestamp of reports for
  clock rates that are not whole kHz (`Reports.SenderReportTimestamp`). The server makes its tracks with 90000 and 48000 Hz only
  (`webrtc_transport.cpp:376` and `webrtc_transport.cpp:386`), where nothing is lost.

## Model

| member | source | states |
|---|---|---|
| Bytes.LoadOfBytes16 | byte_buffer.cpp:9-15 | loading the two bytes of a number, anywhere in a buffer, gives the number back |
| Bytes.LoadOfBytes24 | byte_buffer.cpp:17-25 | the same for three bytes |
| Bytes.LoadOfBytes32 | byte_buffer.cpp:27-35 | the same for four bytes |
| Bytes.BytesOfLoad16 | byte_buffer.cpp:9-15 | two bytes are the encoding of the number they load as: loading is injective |
| Bytes.BytesOfLoad32 | byte_buffer.cpp:27-35 | the same for four bytes |
| Bytes.StoreUInt16BE | byte_buffer.cpp:56-60 | the two bytes of the value are stored high byte first and no other byte changes |
| Bytes.StoreUInt32BE | byte_buffer.cpp:69-75 | the same for four bytes |
| ByteBuffer.ByteReader.ReadUInt8 | byte_buffer.cpp:147-155 | succeeds iff a byte is left; returns it and moves on by one, otherwise stays |
| ByteBuffer.ByteReader.ReadUInt16 | byte_buffer.cpp:157-165 | succeeds iff two bytes are left; the big-endian value, cursor by two |
| ByteBuffer.ByteReader.ReadUInt24 | byte_buffer.cpp:167-175 | the same for three bytes |
| ByteBuffer.ByteReader.ReadUInt32 | byte_buffer.cpp:177-185 | the same for four bytes |
| ByteBuffer.ByteReader.ReadBytes | byte_buffer.cpp:197-205 | succeeds iff that many bytes are left; returns exactly the next ones |
| ByteBuffer.ByteReader.Consume | byte_buffer.cpp:217-222 | moves on by the size iff that much is left, otherwise stays |
| ByteBuffer.ByteWriter.WriteBytes | byte_buffer.cpp:132-138 | appends to what was written iff there is room, otherwise changes nothing |
| ByteBuffer.ByteWriter.WriteUInt8 | byte_buffer.cpp:92-98 | appends one byte iff there is room |
| ByteBuffer.ByteWriter.WriteUInt16 | byte_buffer.cpp:100-106 | appends two bytes, high first, iff there is room |
| ByteBuffer.ByteWriter.WriteUInt32 | byte_buffer.cpp:116-122 | appends four bytes, high first, iff there is room |
| AnnexB.ParseNaluPositions | rtp_packet.cpp:201-238 | the scan that skips by three reports exactly what a scan of every offset reports |
| AnnexB.SkipScan | rtp_packet.cpp:207-210 | offsets without a start code can be skipped without changing what is reported |
| AnnexB.PositionsOfUnits | rtp_packet.cpp:211-235 | the reported positions are, in order, those of the NALUs found; no length is negative or runs over |
| AnnexB.ReportedStarts | rtp_packet.cpp:207-224 | for the whole buffer: a NALU is reported at x iff bytes 00 00 01 end at x and x is inside the buffer |
| AnnexB.StartsAreCodes | rtp_packet.cpp:207-224 | the same from any point of the scan, with a NALU open or not |
| AnnexB.ParseReassembles | rtp_packet.cpp:211-235 | prefix, delimiters and NALUs concatenate back to the whole buffer |
| AnnexB.ParseIsCanonical | rtp_packet.cpp:206-237 | no NALU found holds a start code, except the last one as its last three bytes; only one zero before a start code is taken |
| AnnexB.ParseOfStream | rtp_packet.cpp:201-238 | scanning a written NALU list gives the list back, start code lengths included, iff the list is canonical |
| RtpPacketizer.SetCC | rtp_packet.cpp:15-17 | the low four bits of byte 0 are set, every other bit of the buffer stays |
| RtpPacketizer.SetHasExtension | rtp_packet.cpp:19-21 | bit 4 of byte 0 is set, every other bit stays |
| RtpPacketizer.SetPadding | rtp_packet.cpp:23-25 | bit 5 of byte 0 is set, every other bit stays |
| RtpPacketizer.SetVersion | rtp_packet.cpp:27-29 | the top two bits of byte 0 are set, every other bit stays |
| RtpPacketizer.SetPayloadType | rtp_packet.cpp:31-33 | the low seven bits of byte 1 are set, every other bit stays |
| RtpPacketizer.SetMarker | rtp_packet.cpp:35-37 | the top bit of byte 1 is set, every other bit stays |
| RtpPacketizer.SetSeqNum | rtp_packet.cpp:39-41 | bytes 2 and 3 hold the sequence number, every other byte stays |
| RtpPacketizer.SetTimestamp | rtp_packet.cpp:43-45 | bytes 4 to 7 hold the timestamp, every other byte stays |
| RtpPacketizer.SetSSrc | rtp_packet.cpp:47-49 | bytes 8 to 11 hold the SSRC, every other byte stays |
| RtpPacketizer.H264RtpPacketizer.PutHeader | rtp_packet.cpp:126-135 | whatever the reused buffer held, its first 12 bytes become the RTP header; the counter moves on by one modulo 2^16 |
| RtpPacketizer.H264RtpPacketizer.Emit | rtp_packet.cpp:138-142 | the listener is handed the first bytes of the buffer under the number just used |
| RtpPacketizer.H264RtpPacketizer.PackSingNalu | rtp_packet.cpp:121-143 | one packet with the NALU as payload and the frame's current end marker |
| RtpPacketizer.H264RtpPacketizer.PackFragment | rtp_packet.cpp:158-193 | one FU-A packet: indicator, header, piece, with the marker given |
| RtpPacketizer.H264RtpPacketizer.PackFuA | rtp_packet.cpp:145-199 | the loop ends and has sent exactly the fragments of the NALU, consecutively numbered, the end marker on the last only |
| RtpPacketizer.H264RtpPacketizer.Pack | rtp_packet.cpp:66-81 | sends the packets of all NALUs of the frame in order, consecutively numbered, each under the timestamp given, marker on the very last |
| RtpPacketizer.NumberedSplit | rtp_packet.cpp:129-130 | numbering two payload lists one after the other is numbering their concatenation, across the 16-bit wrap |
| Examples.FrameBytes | rtp_packet.cpp:66-143 | the bytes of a one-NALU frame's packet, field by field |
| Depacketizer.ParseOfPacket | rtp_packet.cpp:126-137 | an RFC 3550 parser reads back every header field and the payload of a generated packet |
| Depacketizer.ReceiveNumbered | rtp_packet.cpp:72-74 | in a numbered packet list the marker takes effect once, after the last payload |
| Depacketizer.ReceiveFragments | rtp_packet.cpp:155-197 | the fragments of a NALU reassemble to it, header rebuilt from indicator and FU header |
| Depacketizer.ReceiveNalu | rtp_packet.cpp:75-79 | a NALU of type 1 to 23 comes back byte for byte, fragmented or not |
| Depacketizer.ReceiveFrame | rtp_packet.cpp:66-81 | one Pack call completes exactly one frame at the receiver, with the NALUs of the buffer |
| Depacketizer.ReceiveRun | rtp_packet.cpp:66-81 | over any run of frames, depacketizing what was packetized gives all NALU lists back |
| Depacketizer.ReceiveStreams | rtp_packet.cpp:66-81 | NALU lists written in Annex B format pass scan, packetizer and receiver unchanged |
| Depacketizer.RunIsNumbered | rtp_packet.cpp:129-130 | over any run of frames the packets are numbered consecutively modulo 2^16 and carry SSRC and payload type |
| Depacketizer.FrameMarker | rtp_packet.cpp:71-74 | the marker bit is set on a frame's last packet and on no other |
| Depacketizer.FrameTimestamp | rtp_packet.cpp:68-79 | every packet of a frame carries the frame's timestamp, as a field and in its bytes |
| Depacketizer.RunTimestamps | rtp_packet.cpp:68-79 | over any run of frames, the packets of frame f carry the timestamp of frame f |
| Depacketizer.PacketTimestamp | rtp_packet.cpp:68-79 | every packet of a run belongs to a frame whose timestamp it carries |
| Depacketizer.LargeNaluShape | rtp_packet.cpp:145-199 | a NALU over 1200 bytes makes ceil((size-1)/1198) >= 2 non-empty fragments, Start on the first only, End on the last only |
| Depacketizer.PacketLimit | rtp_packet.h:9-10 | no packet is larger than 1212 bytes, whatever the frame |
| RtxPacket.UndoOfRtx | media_stream.cpp:66-77 | undoing the RFC 4588 format (OSN, SSRC, payload type) gives exactly the bytes first sent |
| RtxPacket.RenumberedRtx | media_stream.cpp:78-80 | changing only the sequence number of a retransmission is making it anew under that number |
| RtxPacket.RtxIdentity | media_stream.cpp:72-77 | a retransmission carries its own SSRC, number and payload type, the OSN, and the original marker, timestamp and payload |
| Examples.RtxFrameBytes | media_stream.cpp:49-82 | the bytes of the same packet in retransmission format |
| RtxPacket.RtpStoragePacket.constructor | media_stream.cpp:10-23 | the packet is copied, not yet in retransmission form and never resent |
| RtxPacket.RtpStoragePacket.SetResendMillisecs | media_stream.cpp:88-90 | only the resend time changes |
| RtxPacket.RtpStoragePacket.InsertOsn | media_stream.cpp:67-73 | the overlapping move shifts the payload by two bytes and puts the sequence number in front of it |
| RtxPacket.RtpStoragePacket.SetIdentity | media_stream.cpp:75-77 | SSRC, number and payload type are replaced, marker and all else stay |
| RtxPacket.RtpStoragePacket.MakeRtxPacket | media_stream.cpp:49-82 | formats on the first call, renumbers on later ones |
| Ntp.CompactCountsUnits | utils.cpp:20-26 | the compact form of a time is its number of whole 1/65536 s modulo 2^32, although floored twice |
| Ntp.MillisRoundTrip | utils.cpp:35-40 | converting to NTP time and back is the identity iff the seconds fit 32 bits |
| Ntp.CompactToMillis | utils.cpp:28-30 | compact time converts to the nearest millisecond |
| Ntp.RoundTripExact | media_stream.cpp:114-123 | for a report stamped t0, held d ms and back at t0+d+e, the computed time is e iff e < 65536000 ms |
| StreamTrack.StreamTrack.constructor | media_stream.cpp:92-95 | an empty buffer, zero counters, 100 ms round-trip time |
| StreamTrack.StreamTrack.ReceivePacket | media_stream.cpp:157-171 | counts packet and octets, notes time and timestamp, stores the packet in slot seq % 1000 if NACK is on; ignores other SSRCs |
| StreamTrack.StreamTrack.Request | media_stream.cpp:132-153 | one number asked for: age check, throttle, and the resend with what it changes |
| StreamTrack.StreamTrack.Rewrite | media_stream.cpp:146-151 | one slot is stamped and rewritten in place, the RTX counter moves on, all other slots stay |
| StreamTrack.StreamTrack.ReceiveNack | media_stream.cpp:125-155 | the numbers are served in order, each under its own clock reading; NACKs for other SSRCs or with NACK off change nothing |
| StreamTrack.StreamTrack.CreateRtcpSenderReport | media_stream.cpp:97-112 | no report before the first packet; otherwise NTP time, extrapolated RTP timestamp and counters |
| StreamTrack.StreamTrack.ReceiveReceiverReport | media_stream.cpp:114-123 | the round-trip time is computed iff the block quotes a sender report |
| TrackRuns.RunIsSound | media_stream.cpp:125-171 | over every run of a track with NACK, each slot holds the last packet sent for it and each resend has the right bytes and RTX number |
| TrackRuns.RunCounts | media_stream.cpp:148-161 | with NACK on or off, one RTX number per resend from 0 modulo 2^16, and packet and octet counters that count first transmissions only, modulo 2^32 |
| TrackRuns.ReportStartsFromLast | media_stream.cpp:162-163 | over every run, the time and timestamp a report starts from are those of the last packet sent, whatever was resent or reported since |
| TrackRuns.RttOfRun | media_stream.cpp:114-123 | over every run, the round-trip time is that of the last block that quotes a sender report, and 100 ms before there is one |
| TrackRuns.NothingKept | media_stream.cpp:165-170 | with NACK off nothing is kept and nothing resent, over every run |
| TrackRuns.RewriteHolds | media_stream.cpp:146-151 | a stored packet stays the same packet however often it is rewritten |
| TrackRuns.SlotReuse | media_stream.h:56 | within its lifetime a number's slot is met again exactly when the lifetime (1000, 1536 or 536) is over |
| TrackRuns.Retention | media_stream.cpp:165-170 | after any consecutively numbered packets, packet i is in its slot iff at most its lifetime's packets, itself included, came since |
| TrackRuns.LastRetained | media_stream.cpp:165-170 | each of the last 536 packets is in its slot |
| TrackRuns.RetentionIsTight | media_stream.cpp:131-134 | a run exists in which the 537th last packet is asked for and another one is resent |
| TrackRuns.ResendIsRight | media_stream.cpp:125-155 | the i-th resend restores a packet first sent, under RTX number i; it is the one asked for iff that was within its lifetime |
| TrackRuns.AskIsServed | media_stream.cpp:131-144 | a packet asked for within its lifetime is resent, and no other, iff it is at most two seconds of clock older than the last one and was not resent within the round-trip time |
| TrackRuns.RunIsThrottled | media_stream.cpp:141-146 | with a positive clock that never goes back, stored packets remember their last resend and resends are spaced |
| TrackRuns.ResendsAreApart | media_stream.cpp:141-145 | two resends of one packet are more than the round-trip time known at the later one apart |
| TrackRuns.OneResendPerNack | media_stream.cpp:131-154 | a NACK handled while at most the round-trip time passes makes each packet be resent at most once, however often its number is listed |
| TrackRuns.RequestsAreSteps | media_stream.cpp:131 | a NACK is the requests it lists, one after the other |
| TrackRuns.HistoryOnlyWatches | media_stream.cpp:125-171 | the history kept for the theorems does not influence the track, and its log lists what is resent |
| Rtcp.ParseCommonHeader | rtcp_packet.cpp:102-107 | succeeds iff four bytes are left; count, padding, version, type and length as section 6.4.1 of RFC 3550 lays them out |
| Rtcp.ParsePlainPacket | rtcp_packet.cpp:7-16 | header read and 4 * length bytes skipped, or failure |
| Rtcp.ParseReportBlock | rtcp_packet.cpp:170-184 | succeeds iff 24 bytes are left; every field from its place |
| Rtcp.ParseReceiverReportPacket | rtcp_packet.cpp:164-188 | as many blocks as the header counts, in order, or failure |
| Rtcp.NackItemsUnderflow | rtcp_packet.cpp:226-227 | the item count as the source computes it, with its unsigned underflow for a length below 2 |
| Rtcp.AppendItem | rtcp_packet.cpp:235-241 | the mask loop appends the numbers of one item |
| Rtcp.ParseItem | rtcp_packet.cpp:231-241 | one pass of the item loop: succeeds iff four bytes are left |
| Rtcp.ParseNackPacket | rtcp_packet.cpp:221-245 | all items in order, or failure |
| Rtcp.ParsePacket | rtcp_packet.cpp:250-271 | the parser is chosen by type and format |
| Rtcp.ParseCompound | rtcp_packet.cpp:247-276 | terminates on every input; all packets in order iff every one parses |
| Rtcp.SerializeSenderReport | rtcp_packet.cpp:117-138 | writes 28 bytes iff there is room for them |
| RtcpFraming.ItemMeaning | rtcp_packet.cpp:235-241 | PID, then PID + i modulo 2^16 for exactly the set bits i of the BLP, ascending, all distinct |
| RtcpFraming.RequestedInOrder | rtcp_packet.cpp:229-243 | a NACK asks for the numbers of all its items, item by item, and for no other |
| Examples.NackBytes | rtcp_packet.cpp:221-246 | a NACK as bytes, and the three numbers it asks for |
| RtcpFraming.NackConsumes | rtcp_packet.cpp:221-245 | a NACK parses iff its length is at least 2 and lies within the buffer, and then consumes 4 * (length + 1) bytes |
| RtcpFraming.ReportConsumes | rtcp_packet.cpp:164-188 | a report parses iff its blocks lie within the buffer, and consumes what its header announces iff the length is 1 + 6 * count |
| RtcpFraming.ReportLengthIgnored | rtcp_packet.cpp:164-188 | a report whose header announces 24 bytes and of which 8 are consumed |
| Examples.ReportBytes | rtcp_packet.cpp:164-188 | a receiver report as bytes, and every field of its block |
| RtcpFraming.OneConsumes | rtcp_packet.cpp:268-272 | a parsed packet has consumed exactly its size |
| RtcpFraming.AllConsumed | rtcp_packet.cpp:250-275 | on any input, success accounts for every byte but at most one |
| RtcpFraming.OneDecoded | rtcp_packet.cpp:250-272 | a well-formed NACK, report or other packet anywhere in a buffer parses to its contents, the cursor right behind it |
| RtcpFraming.CompoundRoundTrip | rtcp_packet.cpp:247-276 | the concatenation of any well-formed packets parses to that list, entry by entry |
| Reports.SenderReportOnWire | rtcp_packet.cpp:117-138 | every field stands at its place; the 32 bits a peer quotes are the compact NTP time |
| Reports.SenderReportParses | rtcp_packet.cpp:117-138 | the serialized report is one packet that fills its buffer |
| Reports.ReportOfRun | media_stream.cpp:97-112 | over every run: None iff the packets sent are a multiple of 2^32; SSRC, NTP time, packet and octet count, and the last packet's timestamp moved on from the time it was sent (exactly, iff the surplus is a multiple of 1000) |
| Reports.NothingReported | media_stream.cpp:99-100 | a track that has sent nothing makes no report |
| Reports.ReportedRoundTrip | media_stream.cpp:114-123 | report out, answer back through the RTCP parser: the computed time is exact iff below 65536 s, unless the quoted stamp is 0 |
| Reports.SenderReportTimestamp | media_stream.cpp:103-108 | for all times and clock rates: the extrapolated RTP timestamp is exact iff what the 32-bit time adds and the 64-bit product loses is, in units of 2^32, a multiple of 1000 |
| Reports.WholeKilohertzExact | media_stream.cpp:103-108 | for clock rates that are multiples of 1000, as all configured ones: exact iff the number of overflows of the product is a multiple of 125, and so without any |
| Reports.SenderReportTimestampOff | media_stream.h:91 | a limit of the class: for 44100 Hz, a rate no track has, an input whose timestamp is wrong |
| Reports.OctetsCountPayload | media_stream.cpp:161 | over every run the reported octets are the payload octets modulo 2^32 iff the header sizes add up to a multiple of 2^32 |
| Reports.OctetsOfFixedHeaders | media_stream.cpp:161 | with 12-byte headers: iff the number of packets is a multiple of 2^30 |
| Reports.OneByteReported | media_stream.cpp:161 | one packet with one byte of payload is reported as 13 octets |
| MediaStream.FeedbackTrackByTrack | media_stream.cpp:204-225 | feedback moves each track as if it were the only one |
| MediaStream.FeedbackInOrder | media_stream.cpp:204-225 | the packets of a compound mean their steps in order; a NACK for a track with NACK on means a request for each of its numbers, each at its own clock reading, and any other NACK means none |
| MediaStream.ReportsInOrder | media_stream.cpp:218-223 | each block about a track is one report for it, in order, and no other block is |
| MediaStream.NackMovesOne | media_stream.cpp:206-209 | a NACK moves the track it names and no other |
| MediaStream.OneMoreReport | media_stream.cpp:218-223 | a report block moves the track it is about, if there is one, and no other |
| MediaStream.FeedbackResends | media_stream.cpp:232-234 | whatever tracks feedback asks, the observer is handed the resends of every track, each track's in its order, and nothing else |
| MediaStream.OnlyTracksResend | media_stream.cpp:206-209 | what feedback makes the stream hand over belongs to its tracks |
| MediaStream.RoundReports | media_stream.cpp:241-253 | a timer round sends one report for each track in the order that has sent something, entry by entry, and nothing else |
| MediaStream.NackAndResend | media_stream.cpp:125-155 | a NACK that names the track, and the packets it resends |
| MediaStream.MediaStream.AddStreamTrack | media_stream.cpp:179-188 | a fresh track under the SSRC, and for video a packetizer that starts at 0; the other tracks stay |
| MediaStream.MediaStream.RtpPacketSent | media_stream.cpp:228-230 | the track of the packet notes it, the other tracks stay |
| MediaStream.MediaStream.OnRtpPacketGenerated | media_stream.cpp:236-239 | the bytes go to the observer, the packet to its track |
| MediaStream.MediaStream.TrackNack | media_stream.cpp:208-209 | the named track handles the NACK, the other tracks stay |
| MediaStream.MediaStream.HandleNack | media_stream.cpp:208-209 | the same, with the data of each resend handed to the observer once, in order |
| MediaStream.MediaStream.TrackReport | media_stream.cpp:220-222 | the track a block is about takes it, the other tracks stay |
| MediaStream.MediaStream.HandleReports | media_stream.cpp:215-224 | every block reaches the track it is about; blocks about unknown SSRCs are ignored; the packetizer stays as it was |
| MediaStream.MediaStream.HandlePacket | media_stream.cpp:205-224 | NACKs and reports are routed, other packets change nothing; the packetizer stays as it was |
| MediaStream.MediaStream.ReceiveRctp | media_stream.cpp:198-226 | a compound that does not parse changes nothing; otherwise all packets take effect in order; the packetizer stays as it was |
| MediaStream.MediaStream.Packetize | media_stream.cpp:190-192 | the packets of the frame under the packetizer's next numbers |
| MediaStream.MediaStream.SendAll | media_stream.cpp:236-239 | every packet is handed to the observer and noted by the track, in order |
| MediaStream.MediaStream.ReceiveH264Packet | media_stream.cpp:190-192 | a frame is packetized, sent and kept; the other tracks stay |
| MediaStream.MediaStream.MakeSenderReport | media_stream.cpp:244-250 | the serialized report of a track that has sent something; 1500 bytes always suffice |
| MediaStream.MediaStream.OnTimerTimeout | media_stream.cpp:241-253 | every track is visited once, in the iteration order given; one report for each that has sent something |
| StreamRuns.EventsMakeRun | media_stream.cpp:190-239 | frames and handled feedback in any order make a run whose packets are the packetizer's, numbered consecutively from 0 |
| StreamRuns.NumberAdvances | media_stream.cpp:190-226 | frames move the packetizer's number by their packets, feedback leaves it |
| StreamRuns.HandleEvent | media_stream.cpp:190-226 | one event on the stream object: tracks, packetizer number and what is handed over are those of AfterEvent, NumberThen and SentAt |
| StreamRuns.HandleEvents | media_stream.cpp:190-239 | the stream object over all events: its tracks are AfterEvents, and what it has handed to its observer is SentDuring |
| StreamRuns.EventFollows | media_stream.cpp:190-239 | one event, on any tracks: the video track takes the event's steps, and its part of what the observer is handed is what these steps send |
| StreamRuns.StreamFollowsRun | media_stream.cpp:190-239 | over all events, from a fresh video track: the track of AfterEvents is the run's, and its part of SentDuring is its first transmissions and resends in the order of the run |
| StreamRuns.HistoryWasSent | media_stream.cpp:232-239 | every packet and every resend of the run is in SentDuring, which HandleEvents shows to be what the stream object hands over |
| StreamRuns.HandedOnce | media_stream.cpp:232-239 | over all events, the video track's part of what is handed over is, as a multiset, its first transmissions and its resends, each once |
| StreamRuns.HandedInOrder | media_stream.cpp:232-239 | each event hands over exactly what it adds to the history, one each, in order: a frame its packets, feedback the new resends |
| StreamRuns.OnlyTracksHanded | media_stream.cpp:232-239 | over all events, everything handed over belongs to a track of the stream |
| StreamRuns.ReportAfterEvents | media_stream.cpp:241-253 | after any events, a report of the video track counts the packetizer's packets and their octets |
| Delivery.CopyRestores | media_stream.cpp:125-155 | a resend asked for within the lifetime restores the packet first sent |
| Delivery.CopyWasSent | media_stream.cpp:232-239 | a copy a receiver can get is in SentDuring, which HandleEvents shows to be what the stream object hands over |
| Delivery.LossesAreMadeGood | media_stream.cpp:190-239 | for all frames and handled feedback, a receiver of originals and timely resends, in any mix, recovers every NALU of every frame; all these copies were handed to the observer |
| Delivery.AskingIsEnough | media_stream.cpp:125-155 | after any events, a NACK as bytes that lists packet j first, within its lifetime and due, makes the stream's next resend a copy of packet j |
| Delivery.LossHappens | media_stream.cpp:190-239 | a run to which that applies: the only packet is lost, asked for by a NACK, and the receiver has nothing but the resend |
| Crc32.BitStepLinear | crc32.cpp:14-18 | one bit of division is linear over XOR |
| Crc32.BitStepsInjective | crc32.cpp:13-19 | any number of division steps is injective |
| Crc32.FeedInjective | crc32.cpp:27-33 | from different states, equal messages lead to different states |
| Crc32.FeedWord | crc32.cpp:29-31 | dividing in up to 32 bits is adding them as one word and stepping |
| Crc32.WordInjective | crc32.cpp:29-31 | different runs of up to 32 bits are different words |
| Crc32.BurstChangesRemainder | crc32.cpp:27-33 | a burst of up to 32 bits anywhere changes the remainder |
| Crc32.TableStep | crc32.cpp:30 | one table lookup is eight bits of division |
| Crc32.DivideBit | crc32.cpp:14-18 | the branch of the inner loop is one bit of division |
| Crc32.DivideByte | crc32.cpp:12-20 | the inner loop divides by eight bits |
| Crc32.LoadCrc32Table | crc32.cpp:9-23 | entry i of the table is i divided by eight bits |
| Crc32.Calculate | crc32.cpp:27-33 | the table-driven loop computes the bit-by-bit CRC of every message |
| Crc32.BurstDetected | crc32.cpp:27-33 | equal-length messages that differ only within 32 consecutive bits have different CRCs |
| Crc32.ByteBurstDetected | crc32.cpp:27-33 | the same for a window of four consecutive bytes |
| Crc32.CheckValue | crc32.cpp:9-33 | the CRC of the digits 1 to 9 is CBF43926, the published check value |
| Stun.StunMessage.constructor | stun_message.cpp:11-18 | nothing parsed, no address, no response |
| Stun.StunMessage.HandleAttribute | stun_message.cpp:47-85 | what each attribute type is checked for and what is noted |
| Stun.StunMessage.ParseAttributes | stun_message.cpp:41-96 | the attributes in order with padding, up to the first that is rejected |
| Stun.StunMessage.Parse | stun_message.cpp:20-117 | verdict, bytes left in the buffer, transaction id and use-candidate flag, for every message |
| Stun.StunMessage.CheckIntegrity | stun_message.cpp:98-114 | the length field is rewritten, the digest compared, the field set back on a match only |
| Stun.StunMessage.WriteHead | stun_message.cpp:137-144 | type, length, cookie and transaction id |
| Stun.StunMessage.WriteAddress | stun_message.cpp:148-161 | the address attribute, masked with the cookie |
| Stun.StunMessage.WriteIntegrity | stun_message.cpp:173-178 | the integrity attribute around the digest |
| Stun.StunMessage.WriteFingerprint | stun_message.cpp:183-188 | the fingerprint attribute around the CRC |
| Stun.StunMessage.CreateResponse | stun_message.cpp:132-191 | the response of sections 15.2, 15.4 and 15.5 of RFC 5389, both length values in place when they are covered |
| StunProofs.WalkMeans | stun_message.cpp:40-96 | the attribute loop accepts iff the attributes fill the message and each is acceptable by itself; it notes the last integrity attribute and the types met |
| StunProofs.AcceptedNotes | stun_message.cpp:40-96 | what is noted of an accepted message: its last integrity attribute, and whether it has a fingerprint or USE-CANDIDATE |
| StunProofs.UseCandidateFlag | stun_message.cpp:73-76 | the flag after parsing, accepted or not: set before, or by a USE-CANDIDATE among the acceptable attributes reached |
| StunProofs.BeyondExactly | stun_message.cpp:47-72 | which messages the source reads behind the end of: those that stop in the middle of a user name or fingerprint it gets to, or whose last integrity attribute is cut short |
| Examples.NominationBytes | stun_message.cpp:20-117 | a message with nothing but USE-CANDIDATE is accepted and sets the flag |
| StunProofs.AcceptedExactly | stun_message.cpp:20-117 | a message is accepted iff the cookie is there, the attributes fill it and are acceptable, and the digest of the last integrity attribute holds |
| StunProofs.ResponseWalk | stun_message.cpp:40-96 | any parser's attribute loop takes the response and notes integrity and fingerprint |
| StunProofs.ResponseFields | stun_message.cpp:132-191 | type 0x0101, length, cookie, transaction id and every attribute header of the response stand at their places |
| StunProofs.ResponseIntegrity | stun_message.cpp:98-114 | the digest is compared over the bytes it was computed from, and the buffer ends as it was |
| StunProofs.ResponseAccepted | stun_message.cpp:132-191 | for every transaction, password and IPv4 endpoint the response is accepted and the buffer unchanged |
| StunProofs.AddressDecodes | stun_message.cpp:149-161 | the address attribute decodes to the endpoint |
| StunProofs.BufferUnchanged | stun_message.cpp:98-114 | what the buffer holds afterwards, in terms of the message: unchanged iff its length field is not rewritten or already held the value left there |
| StunProofs.WrongDigestStays | stun_message.cpp:108-113 | a built response parsed with another digest is rejected and its length field ends as 36 instead of 44 |
| StunProofs.WrongDigestExists | stun_message.cpp:108-113 | two digests for which that happens |
| StunProofs.BurstBreaksFingerprint | stun_message.cpp:60-70 | a burst of up to 32 bits in the covered bytes makes the fingerprint attribute be rejected |
| StunProofs.BurstRejectsMessage | stun_message.cpp:20-117 | a message damaged by such a burst is not accepted, as long as its attributes still lead to the fingerprint |
| StunProofs.DamagedAddressRejected | stun_message.cpp:20-117 | a response whose address was changed within four consecutive bytes is not accepted by any parser |
| MediaSource.GopCache.AddPacket | gop_cache.cpp:3-12 | a video key packet empties the cache first, then the packet is appended |
| MediaSource.MediaSource.RegisterObserver | media_source.cpp:98-109 | into the waiting list with the cache, else into the active list, once |
| MediaSource.MediaSource.CheckNewObserver | media_source.cpp:111-124 | each waiting observer is handed the cache and becomes active, the waiting list is emptied |
| MediaSource.MediaSource.DeregisterObserver | media_source.cpp:126-136 | the observer leaves the active and, with the cache, the waiting list |
| MediaSource.MediaSource.Erase | media_source.cpp:128-130 | the first occurrence is removed, the rest keeps its order |
| MediaSource.MediaSource.Hand | media_source.cpp:116-118 | the packets go to this observer in order and to no other |
| MediaSource.MediaSource.Publish | media_source.cpp:184-190 | each active observer is handed the packet, then the cache takes it |
| FanOut.StepsAreOperations | media_source.cpp:98-136 | the steps of a run are the operations of the source |
| FanOut.GopStartIsLastKey | gop_cache.cpp:7-10 | a group of pictures starts at the last video key packet, or at the beginning if there was none |
| FanOut.RunKeeps | media_source.cpp:98-136 | over every interleaving: no duplicates in the lists, the cache is the current group of pictures, every session is in order |
| FanOut.PresentIffRegistered | media_source.cpp:98-136 | over every run, an observer is in the active or waiting list iff its last registration was not followed by its deregistration |
| FanOut.ActiveIffRegistered | media_source.cpp:98-136 | right after a check, and always without the cache, that is the same as being active |
| FanOut.InactiveReceivesNothing | media_source.cpp:111-124 | a step before and after which an observer is not active hands it nothing |
| FanOut.ActiveObserversInSync | media_source.cpp:184-212 | since it joined, an active observer has received exactly the history from the group of pictures it joined in (without the cache: from its joining) iff the cache was not handed to it again |
| FanOut.JoinedOnce | media_source.cpp:111-124 | the joining meant is the step since which the observer has been active without interruption |
| FanOut.RegisteredOnceInSync | signaling_session.cpp:22 | an active observer registered once has received, in all, exactly the history from the start of the group of pictures it joined in |
| FanOut.CarefulObserversInSync | media_source.cpp:98-136 | with callers that never register an active observer, every active observer is in sync since it joined |
| FanOut.OnceIsCareful | signaling_session.cpp:22 | registering every observer once is careful |
| FanOut.ReplayDuplicates | media_source.cpp:111-124 | an active observer that registers again is handed the whole cache once more |
| FanOut.ReplayHappens | media_source.cpp:111-124 | the shortest run in which a packet is delivered twice |

## Left out

- Stun.StunMessage.CreateResponse: an IPv4 endpoint must be set and the transaction id be 12 bytes; the source writes no address otherwise, under lengths that count one.
- Stun.StunMessage.Parse: attribute values that run behind the end of the buffer are excluded, because the source reads raw memory there.
- Stun.StunMessage.HandleAttribute: the same exclusion.
- Stun.StunMessage.ParseAttributes: the same exclusion.
- StunProofs.WalkMeans: the same exclusion.
- StunProofs.AcceptedExactly: the same exclusion, of the messages that StunProofs.BeyondExactly states.
- StunProofs.UseCandidateFlag: the same exclusion.
- StunProofs.BufferUnchanged: the same exclusion.
- StunProofs.BurstRejectsMessage: the same exclusion.
- HMAC-SHA1 is a parameter, any function to 20 bytes (`hmac_sha1.cpp` wraps OpenSSL).
- RtcpFraming.NackConsumes: buffers are below 2^31 bytes, the range of the source's `int` size; so are those of OneConsumes and AllConsumed.
- MediaStream.MediaStream.ReceiveRctp: NACKs for an SSRC without a track are excluded, because the source dereferences a null pointer there; so they are in the runs of `StreamRuns` and `Delivery`.
- MediaStream.MediaStream.SendAll: the packetizer's observer runs after the last packet of a frame instead of after each; only its calls and their order are kept.
- Reports.SenderReportTimestamp: the report is not made before the packet was sent, as the clock is a steady one; so in WholeKilohertzExact.
- RtxPacket.RtpStoragePacket.constructor: a packet's header ends at byte 12 or later and within the packet.
- StreamTrack.StreamTrack.ReceivePacket: a packet's header ends at byte 12 or later and within the packet, as it does for every packet the packetizers make.
- MediaStream.MediaStream.OnTimerTimeout: the iteration order of the hash table of tracks is a parameter.
- StreamRuns.HandleEvents: stands for the message loop that posts frames and received packets to the stream one by one; timer rounds, which change no track, are left out of it.
- Clock readings are parameters: one for each packet sent, each number asked for and each report block.
- The conversion of media timestamps to RTP timestamps in floating point: the RTP timestamp is a parameter.
- `OpusRtpPacketizer` and `PackStapA`: one straight-line packet each; audio tracks appear with RTCP only.
- `FixedRtpHeader` is laid over the buffer with the bit order of a little-endian machine.
- Back pointers and callbacks are recorded as sequences of what was handed over.
- `RtpfbPacket::Parse`, which no caller reaches, and the text of log messages.
- `RtcpPacket::IsRtcp`, `StunMessage::IsStun` and the demultiplexing around them: tests on single bytes.
- Registration order across threads beyond the mutex: every operation of the media source is one atomic step.
- FFmpeg, Opus transcoding, DTLS, SRTP, sockets, timers, SDP, signalling and configuration.
