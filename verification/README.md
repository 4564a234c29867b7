# A verified model of the SSH stack in libssh2 1.2.4

The repository bundles libssh2 1.2.4 for its file transfers. This project models the part of it whose algorithms matter
most, and proves in Dafny what that part promises. Each module follows one part of the C code; code that works in place on
buffers, links and session fields is a class or a method with a loop, proved against a specification, and what the
specification promises is proved about it as lemmas and invariants.

**Transport** (`Bytes`, `Ciphers`, `Framing`, `Writer`, `Receiving`, `Reader`, `Sockets`, `Naming`, `EndToEnd`, `Ctr`,
`Bits`). Packets are padded, authenticated, encrypted and pushed through a socket that may take any part of what it is
given; at the other end they are reassembled from whatever pieces arrive. The cipher is any stateful block cipher whose
two directions stay in lockstep, the MAC any function of sequence number and clear packet. The main result is
`EndToEnd.Exchange`: over every interleaving of writes and reads, however the socket behaves, the payloads handed to
`packet_add` are those written, each once and in order; `EndToEnd.ReadOne` adds that none is held back. `Ctr` proves that
the bundled counter mode is such a cipher. The reader's invariant is the predicate `OnTrack` of `Receiving`.

**Channels** (`Messages`, `Brigade`, `Views`, `Channel`, `Connection`, `Asking`). One end of a channel is a class with the
windows, the queued adjustments and the packet brigade; two of them with the messages in flight between them form a
connection. `Connection.Run` is the main result: conservation of credit, no overrun, bounded windows and FIFO delivery over
every run. `Connection.AdjustStep` and `Connection.DeliverStep` say exactly which adjustments and which
packets break the plain law of section 5.2 of RFC 4254, and `Connection.SettledRun` that it holds, with FIFO delivery, over every
run in which no end takes packets off the wire while data is in flight that it ignores, and adjustments put off are repeated as
they were announced.

**Lists and ids** (`Lists`, `ChannelIds`). The intrusive doubly linked lists refine sequences; channel ids are never handed
out twice.

**Key exchange** (`NameLists`, `KexInit`, `Negotiate`). The KEXINIT message is built and taken apart again; the search in
name-lists finds exactly their elements; and what is agreed on is the first the client prefers of what the server offers, as
section 7.1 of RFC 4253 has it.

**Codecs** (`Base64`, `ShellQuote`, `KnownHosts`, `ScpLines`). Each is proved inverse to what reads it, with its bounds.

`Naming.Holds` names a predicate without unfolding it, so that proofs about one module do not have to look into another.
Abstract are: the cipher and the MAC, the block function of counter mode, HMAC-SHA1, and the padding bytes. What the socket
says to the transport (any amount sent or received, EAGAIN, the end or an error), whether packet_add puts a packet off, what the
transport says to the channel code, and the channel to the SCP code, are inputs: any sequence of answers.

## Where the code and its promises part

The model does what the code does, and these results say so:

- `_libssh2_channel_receive_window_adjust` retried after EAGAIN credits its argument and forgets the queue that had been
  merged into the announcement (`Channel.Endpoint.AdjustUntilSent`, with the exact condition).
- `_libssh2_channel_read` says EAGAIN about bytes it has copied when its window adjustment is put off, and 0 when repeated
  (`Channel.Endpoint.Read`, with the condition on the window and the transport).
- `_libssh2_channel_write` reports the bytes of the last call only (`Channel.Endpoint.Write`).
- Data in ignored streams is refunded without having been charged, and truncated data is charged in part or not at all
  (`Channel.Endpoint.Queue`, `Channel.Endpoint.Receive`); `Connection.DeliverStep` and `Connection.OnlyIgnoredBreaks` say when that breaks the balance of
  the windows.
- The id scan alone does not make ids unique (`ChannelIds.HighestIsFresh`).
- The host key loop without preferences runs over the end of its table (`Negotiate.RunsOverTheEnd` says
  when).
- A custom known_hosts entry is lost when it is written and read, and so are plain names of one or two characters, with a
  comma or a blank, or with a first character that means something else, and entries with keys that are too short or start
  with a blank, or are blank (`KnownHosts.BlankKeyRead`, `KnownHosts.ShortNamesIgnored`, `KnownHosts.CustomIsLost`, `KnownHosts.PlainRoundTrip`, `KnownHosts.HashedRoundTrip`).
- A preference loop misses an empty element at the end of its string (`Negotiate.VisitedIsSplit`).
- The server's guess counts as right when the key exchange agreed on is the server's first; section 7.1 of RFC 4253 compares the
  first key exchanges, and the first host keys, of the two sides (`Negotiate.GuessesAgree` says when that is the same, and
  `Negotiate.GuessesDiffer` that it is not always).
- The writer checks neither end of the payload's size (`Writer.ComposedIsWellFormed`).

## Model

| member | source | states |
|---|---|---|
| Bytes.NtohuHtonu | FileTransferController/libssh2-1.2.4/src/misc.c:114-143 | writing an integer with _libssh2_htonu32 and reading it with _libssh2_ntohu32 truncates it to 32 bits and does nothing else |
| Bytes.HtonuNtohu | FileTransferController/libssh2-1.2.4/src/misc.c:114-143 | any four octets are recovered from the integer they denote |
| Bytes.NtohuShifts | FileTransferController/libssh2-1.2.4/src/misc.c:114-118 | an octet behind the others moves them up by eight bits, which fixes the value of any four octets |
| Bytes.PutU32 | FileTransferController/libssh2-1.2.4/src/misc.c:136-143 | stores the four octets in place and touches no other byte of the buffer |
| Ciphers.WholeIsNoRemainder | FileTransferController/libssh2-1.2.4/src/transport.c:132-133 | the recursive notion of a whole number of blocks is the remainder test that decrypt asserts, in both directions |
| Ciphers.RunInverse | FileTransferController/libssh2-1.2.4/src/transport.c:124-154 | for any cipher whose decrypt undoes encrypt from a common context, decrypting a whole encrypted stretch recovers it, and both contexts agree again |
| Ciphers.RunSlice | FileTransferController/libssh2-1.2.4/src/transport.c:539-556 | any run of whole blocks in the middle of an encrypted packet decrypts on its own from the context reached at its start |
| Framing.PaddingRule | FileTransferController/libssh2-1.2.4/src/transport.c:739-755 | the padding is the least one of at least four bytes that fills the last block, and fits one octet (section 6 of RFC 4253) |
| Writer.ComposedIsWellFormed | FileTransferController/libssh2-1.2.4/src/transport.c:739-802 | a composed packet carries the payload and the MAC of its clear bytes under the sequence number, and passes all the reader's checks if and only if its payload is neither empty nor too large (which the writer does not check) |
| Writer.ComposedLayout | FileTransferController/libssh2-1.2.4/src/transport.c:692-789 | section 6 of RFC 4253 byte by byte: length, padding length, payload, and at least four bytes of the padding given, which make the packet a multiple of 8 bytes before NEWKEYS and of the block size after it; at least 16 bytes and a multiple of 8 whenever the block size is one |
| Writer.ComposedPadsLeast | FileTransferController/libssh2-1.2.4/src/transport.c:747-755 | no shorter padding of at least four bytes makes such a multiple |
| Writer.CountOne | FileTransferController/libssh2-1.2.4/src/transport.c:794-814 | framing one more packet extends the wire stream by that packet sealed once, and advances context and sequence number together |
| Writer.Transmitter.constructor | FileTransferController/libssh2-1.2.4/src/transport.c:688-848 | a new transmitter has framed nothing, starts from the given cipher context, and satisfies the invariant that wire plus pending bytes are the stream of all packets framed |
| Writer.Transmitter.Push | FileTransferController/libssh2-1.2.4/src/transport.c:630-669 | a resumed send loses and repeats no byte, sends what send takes, and ends as send says: done when it takes all that is pending, EAGAIN when it takes less or would block, FAIL on any other error |
| Writer.Transmitter.SendExisting | FileTransferController/libssh2-1.2.4/src/transport.c:607-669 | BADUSE exactly when a packet is pending and the arguments differ, and then nothing at all changes; without a pending packet nothing happens; otherwise the pending bytes are offered to send and its answer decides |
| Writer.Transmitter.EncryptInPlace | FileTransferController/libssh2-1.2.4/src/transport.c:804-812 | encrypting block by block in the packet buffer is one run of the cipher over the clear packet, and leaves the bytes behind it alone |
| Writer.Transmitter.Seal | FileTransferController/libssh2-1.2.4/src/transport.c:794-812 | the buffer ends up as the encrypted clear bytes, one run of the cipher from the context before, then the MAC of the clear bytes under the sequence number, unencrypted |
| Writer.Transmitter.Frame | FileTransferController/libssh2-1.2.4/src/transport.c:741-812 | the packet buffer holds exactly the sealed form of the composed packet: length, padding length, payload, least padding, MAC |
| Writer.Transmitter.Lay | FileTransferController/libssh2-1.2.4/src/transport.c:781-789 | the clear packet is laid out as section 6 of RFC 4253 has it |
| Writer.Transmitter.Write | FileTransferController/libssh2-1.2.4/src/transport.c:688-848 | exactly once: a call without a pending packet frames one packet with the current sequence number, a repeated call frames none, and in every case but a socket error the wire and the pending bytes are the stream of the packets framed; the call ends as send says of the bytes it is offered, and FAIL means that send said 0 to a new packet or reported an error other than EAGAIN; a call with other arguments is BADUSE and changes nothing |
| Receiving.HeadOpens | FileTransferController/libssh2-1.2.4/src/transport.c:428-460 | the first block of a sealed packet opens to the first block of the clear packet and leaves the context one block on |
| Receiving.AfterHeader | FileTransferController/libssh2-1.2.4/src/transport.c:428-497 | reading the header of a well-formed packet puts the reader inside that packet, with room left in it; where no well-formed packet follows, the header is refused |
| Receiving.AfterDecrypting | FileTransferController/libssh2-1.2.4/src/transport.c:541-556 | decrypting any whole number of buffered blocks keeps the reader on track: what it has of the packet is the clear packet's prefix, and the context stands right behind it |
| Receiving.AfterCopying | FileTransferController/libssh2-1.2.4/src/transport.c:558-569 | so does copying any bytes that are not encrypted, the MAC in particular |
| Receiving.AfterPacket | FileTransferController/libssh2-1.2.4/src/transport.c:575-601 | a packet opened to its last byte has the payload, the MAC and the clear bytes the sender framed, and the reader stands at the start of the next packet |
| Receiving.NotWholeYet | FileTransferController/libssh2-1.2.4/src/transport.c:418-460 | bytes that are too few for the reader to go on do not hold the rest of a packet |
| Receiving.LengthsInside | FileTransferController/libssh2-1.2.4/src/transport.c:124-154 | inside the encrypted part what remains of it is a whole number of blocks, and data_num never exceeds total_num |
| Receiving.Lengthened | FileTransferController/libssh2-1.2.4/src/transport.c:688-848 | a packet framed behind all others leaves a reader on track for the longer stream |
| Reader.Receiver.constructor | FileTransferController/libssh2-1.2.4/src/transport.c:283-602 | a new reader, before any stream of well-formed packets however much of it has reached the wire, satisfies the invariant |
| Reader.Receiver.Decrypt | FileTransferController/libssh2-1.2.4/src/transport.c:124-154 | a whole number of blocks is run through the cipher in place and copied to the destination; all other bytes of both buffers stay |
| Reader.Receiver.Refill | FileTransferController/libssh2-1.2.4/src/transport.c:360-416 | moving the remainder and receiving more keeps readidx, writeidx within the buffer, and loses and repeats no byte between the buffer and the wire; recv is asked once, for as much as the buffer has room for |
| Reader.Receiver.AdmitPacket | FileTransferController/libssh2-1.2.4/src/transport.c:462-534 | FAIL exactly for a packet_length that is not positive as a signed 32-bit number, TOOBIG exactly for one with more than 40000 bytes to come, and otherwise every length and the payload's first bytes are set from the first block |
| Reader.Receiver.ReadHeader | FileTransferController/libssh2-1.2.4/src/transport.c:428-534 | keeps the reader on track and consumes one block, or refuses, only where no well-formed packet follows, as the length of the header that does follow says |
| Reader.Receiver.PlanRound | FileTransferController/libssh2-1.2.4/src/transport.c:499-537 | what is decrypted is whole blocks of this packet before its MAC, what is copied is not encrypted, a round never goes beyond the packet, completes it when the buffer has the rest, and makes progress when a block is there |
| Reader.Receiver.Collect | FileTransferController/libssh2-1.2.4/src/transport.c:499-569 | keeps the reader on track, and leaves the packet incomplete only when the buffer does not hold the rest of it |
| Reader.Receiver.CheckMac | FileTransferController/libssh2-1.2.4/src/transport.c:171-190 | the MAC is confirmed exactly when it is the one over the sequence number and the clear packet |
| Reader.Receiver.Assemble | FileTransferController/libssh2-1.2.4/src/transport.c:160-221 | the payload is the sender's, without header and padding, and the packet is counted once |
| Reader.Receiver.PacketAdd | FileTransferController/libssh2-1.2.4/src/packet.c:444-470 | a packet with an invalid MAC is rejected unless the application accepts it; any other waits exactly when packet_add puts it off, and is queued once, however many calls that takes |
| Reader.Receiver.HandOver | FileTransferController/libssh2-1.2.4/src/transport.c:160-265 | INVALID_MAC, EAGAIN or the packet's type, decided by its MAC under the sequence number, the application's tolerance and packet_add; an unfinished hand-over is taken up again without checking, counting or stripping the packet a second time |
| Reader.Receiver.Finish | FileTransferController/libssh2-1.2.4/src/transport.c:598-600 | after the hand-over the next packet is due; after an invalid MAC no packet buffer is in use; while packet_add puts the packet off nothing changes |
| Reader.Receiver.Deliver | FileTransferController/libssh2-1.2.4/src/transport.c:575-601 | the payload is handed over and the next packet is due, or the packet waits complete, or its MAC was invalid: which, is decided before the call |
| Reader.Receiver.Fetch | FileTransferController/libssh2-1.2.4/src/transport.c:355-440 | recv is asked once if the buffer holds less than a header or block and not at all otherwise; the round ends as FAIL when recv says 0 or an error other than EAGAIN, as EAGAIN when it would block or what it brought is no header yet, and only then, and EAGAIN only when the bytes received hold no complete further packet |
| Reader.Receiver.Round | FileTransferController/libssh2-1.2.4/src/transport.c:317-601 | a round that goes on takes in something of the current packet, so the loop ends; one that ends has its reason in what recv said, in a complete packet or in a refused header, and answers accordingly |
| Reader.Receiver.Read | FileTransferController/libssh2-1.2.4/src/transport.c:283-602 | however recv cuts up the stream, the payloads handed over are those of the peer's packets, each once and in order; a call in which recv would block says EAGAIN and one in which recv says 0 or another error says FAIL; every other call that asks the socket or has a packet waiting ends with the verdict on the next packet, with the refusal of the header behind the last, or with EAGAIN for want of a header; a packet received whole or waiting is dealt with without asking the socket, and EAGAIN with no packet waiting means no further packet has been received whole |
| EndToEnd.Connect | FileTransferController/libssh2-1.2.4/src/transport.c:283-602 | a reader attached to a transmitter's wire is in step with it |
| EndToEnd.WriteOne | FileTransferController/libssh2-1.2.4/src/transport.c:688-848 | a write with a reader at the other end keeps the two in step, and asks the stream for exactly its payload, or for nothing when it resumes a pending packet; it fails only if send said 0 or an error other than EAGAIN |
| EndToEnd.ReadOne | FileTransferController/libssh2-1.2.4/src/transport.c:283-602 | a read fails if and only if the last thing recv said in it was 0 or an error other than EAGAIN, and otherwise keeps the two in step; it finds no MAC invalid and no packet too big, and says EAGAIN with nothing left to send or receive only when all payloads have been handed over |
| EndToEnd.Exchange | FileTransferController/libssh2-1.2.4/src/transport.c:160-848 | framing round trip over any interleaving of writes and reads, short sends and receives, EAGAINs and failures: the payloads handed to packet_add are the payloads written, each once, in order, from the first on |
| EndToEnd.CounterModeIsSound | FileTransferController/libssh2-1.2.4/src/openssl.c:229-261 | AES in counter mode with a 12 to 20 byte MAC is a suite the theorems above hold for, whatever the block function |
| EndToEnd.MessagesArrive | FileTransferController/libssh2-1.2.4/src/packet.c:627-911 | channel messages sent as payloads are decoded at the other end as the same messages in the same order |
| Ctr.IncrementAddsOne | FileTransferController/libssh2-1.2.4/src/openssl.c:253-258 | the carry loop's result denotes the counter plus one, wrapping at its range |
| Ctr.CounterAfter | FileTransferController/libssh2-1.2.4/src/openssl.c:229-261 | after k blocks the counter is its initial big-endian value plus k modulo 2 to the 128 (section 4 of RFC 4344) |
| Ctr.MaskedWithCounter | FileTransferController/libssh2-1.2.4/src/openssl.c:229-261 | block k of a run of counter mode is block k of the input, masked with the encryption of the one 16-byte counter that denotes the initial value plus k modulo 2 to the 128 (section 4 of RFC 4344) |
| Ctr.XorByteBit | FileTransferController/libssh2-1.2.4/src/openssl.c:250-251 | a mask changes exactly the bits it has set |
| Ctr.ValueOfFour | FileTransferController/libssh2-1.2.4/src/openssl.c:253-258 | a counter's octets count with the most significant first, as those of a message's integers do |
| Ctr.CtrIsLockstep | FileTransferController/libssh2-1.2.4/src/openssl.c:229-261 | two contexts started alike invert each other block after block, for any block function |
| Ctr.AesCtrContext.DoCipher | FileTransferController/libssh2-1.2.4/src/openssl.c:229-261 | byte by byte the block is masked with the encryption of the counter as it was, and the counter then denotes one more, modulo 2 to the 128; any other length is refused and changes nothing |
| Ctr.AesCtrContext.StepCounter | FileTransferController/libssh2-1.2.4/src/openssl.c:253-258 | the loop over the counter's octets computes the increment in place |
| Base64.TablesAgree | FileTransferController/libssh2-1.2.4/src/misc.c:157-229 | the alphabet and the reverse table are inverse to each other, and the padding is in neither |
| Base64.AlphabetInOrder | FileTransferController/libssh2-1.2.4/src/misc.c:228-230 | the table is the alphabet of section 4 of RFC 4648, in its order |
| Base64.RoundTrip | FileTransferController/libssh2-1.2.4/src/misc.c:180-304 | decoding the encoding of any byte string gives it back |
| Base64.EncodedLength | FileTransferController/libssh2-1.2.4/src/misc.c:239-304 | the text is four characters for every three bytes or part of three |
| Base64.EncodesDigits | FileTransferController/libssh2-1.2.4/src/misc.c:255-300 | three bytes are written as the four digits of their 24-bit number to the base 64, one or two as those of 12 or 18 bits filled up with zeros and then padding, group after group (section 4 of RFC 4648) |
| Base64.EncodedValues | FileTransferController/libssh2-1.2.4/src/misc.c:180-304 | the sextets of an encoded text hold exactly the bytes encoded, and are never one too many |
| Base64.DecodeIgnoresOthers | FileTransferController/libssh2-1.2.4/src/misc.c:196-199 | characters outside the alphabet change nothing, wherever they are inserted |
| Base64.OrCompletes | FileTransferController/libssh2-1.2.4/src/misc.c:201-215 | or-ing a sextet's bits into what the one before left over gives the octet the two hold |
| Bits.OrBit | FileTransferController/libssh2-1.2.4/src/misc.c:201-215 | or-ing sets exactly the bits that either operand has set |
| Base64.Room | FileTransferController/libssh2-1.2.4/src/misc.c:186-215 | the decoder's indices stay within 3 * src_len / 4 + 1 bytes |
| Base64.Take | FileTransferController/libssh2-1.2.4/src/misc.c:201-215 | one round of the decoder's switch completes an octet in place and leaves the rest of the sextet for the next |
| Base64.DecodeText | FileTransferController/libssh2-1.2.4/src/misc.c:180-225 | the decoder's loop computes the decoding, invalid exactly when one sextet is left over and of three bytes for each four sextets otherwise, in the buffer it allocates |
| Base64.PutText | FileTransferController/libssh2-1.2.4/src/misc.c:255-300 | the encoder's loop writes the text of the bytes read, each group's terminator overwritten by the next |
| Base64.EncodeText | FileTransferController/libssh2-1.2.4/src/misc.c:239-304 | the encoder writes the encoding and its terminator within the insize * 4 / 3 + 4 bytes it allocates, and returns the text's length |
| Messages.DecodeEncode | FileTransferController/libssh2-1.2.4/src/channel.c:2006-2051 | a message built by the channel code is read as the same message: type, channel, stream, data or count |
| Messages.EncodedLayout | FileTransferController/libssh2-1.2.4/src/channel.c:2006-2051 | the type numbers 93 to 97 and the order of channel number, stream number, count, length and data are those of sections 5.1 to 5.3 of RFC 4254 |
| Messages.DecodedByOffset | FileTransferController/libssh2-1.2.4/src/packet.c:627-911 | any payload is read by its type, its channel number at offset 1, its stream number or count at offset 5 and its data from offset 9 or 13 on; one too short for its type is no message of that type |
| Asking.MatchesChannel | FileTransferController/libssh2-1.2.4/src/packet.c:976-990 | the comparison of bytes at offset 1 finds exactly the packets whose channel number is the one asked for |
| Asking.Session.Ask | FileTransferController/libssh2-1.2.4/src/packet.c:965-997 | takes out the oldest packet that matches and leaves the others in order, or takes nothing when none matches |
| Asking.Session.AskV | FileTransferController/libssh2-1.2.4/src/packet.c:1003-1022 | takes the first type that any packet has, and of those packets the oldest; nothing if there is none |
| Asking.Session.DiscardData | FileTransferController/libssh2-1.2.4/src/channel.c:2417-2425 | when a channel is freed its data packets are gone, and every other packet is still there, in order |
| Brigade.TakesTheFront | FileTransferController/libssh2-1.2.4/src/channel.c:1752-1836 | one walk takes the first min(buflen, available) bytes of the selected stream, leaves its rest, and leaves every other packet as it was, in order |
| Brigade.OtherStreamsStay | FileTransferController/libssh2-1.2.4/src/channel.c:1752-1836 | a stream selected from other packets does not notice the walk |
| Channel.Endpoint.constructor | FileTransferController/libssh2-1.2.4/src/channel.c:146-185 | a new channel end has nothing queued, announced, forgotten or uncounted |
| Channel.Endpoint.Announce | FileTransferController/libssh2-1.2.4/src/channel.c:1567-1587 | the ledger is kept whether the message is sent, put off or fails; the window grows only once it is sent |
| Channel.Endpoint.AdjustWindow | FileTransferController/libssh2-1.2.4/src/channel.c:1524-1587 | below 1024 bytes in all adjustments are queued unless forced; others are announced together with the queue, modulo 2 to the 32, and credited once sent; one that fails is queued again; a repeated call credits its own argument; the credit ledger is kept in every case, and by how much more is announced than credited is decided by the state, the argument and the transport before the call |
| Channel.Endpoint.AdjustAll | FileTransferController/libssh2-1.2.4/src/channel.c:1524-1587 | over any sequence of adjustments sent at once, what was requested is the growth of the window plus that of the queue, and the queue stays below 1024; the window grows by exactly what was announced unless a request is too big to announce in 32 bits |
| Channel.Endpoint.AdjustUntilSent | FileTransferController/libssh2-1.2.4/src/channel.c:1524-1587 | where the code falls short, forced or not: an adjustment put off credits its argument only; all that is announced gets credited if and only if the transport takes the message at once or nothing had been queued; and a transport that puts off one attempt and takes the next brings that about |
| Channel.Endpoint.Queue | FileTransferController/libssh2-1.2.4/src/packet.c:683-735 | data is cut to the packet size, dropped if the window is empty and otherwise cut to the window and queued, which takes back EOF; the window is charged for it unless the window cut it; every byte is charged exactly when the data exceeds neither limit |
| Channel.Endpoint.Receive | FileTransferController/libssh2-1.2.4/src/packet.c:660-735 | data in ignored streams is not queued, and as much as it had bytes is credited or queued as credit unless that is put off; other data is queued and charged; the ledger is kept, and how many bytes go uncharged, and how much credit uncredited, is decided before |
| Channel.Endpoint.Handle | FileTransferController/libssh2-1.2.4/src/packet.c:627-911 | each kind of message moves the window or the credit by its own amount; data is queued for its channel, cut to the limits, dropped for an unknown channel, and any other message queued; EOF and CLOSE set their flags, data takes EOF back, and no other message moves them; how many bytes go uncharged is decided by window, packet size and mode |
| Channel.Endpoint.Deliver | FileTransferController/libssh2-1.2.4/src/packet.c:430-950 | one packet off the wire keeps the ledgers and, if it is charged in full, every unread stream; uncharged bytes and uncredited refunds are exactly those decided before; a pending refund is taken up again first |
| Channel.Endpoint.Pump | FileTransferController/libssh2-1.2.4/src/channel.c:1730-1736 | reading packets for as long as there are any keeps the ledgers and the unread streams; which packets arrive, and what the transport says in the end, is decided by what it has to say, if nothing is to be ignored |
| Channel.Endpoint.Collect | FileTransferController/libssh2-1.2.4/src/channel.c:1752-1836 | the walk over the brigade, in place, copies and leaves what one walk of the specification does |
| Channel.Endpoint.CollectStream | FileTransferController/libssh2-1.2.4/src/channel.c:1752-1836 | the bytes copied are the front of the selected stream, other streams are as before, and a buffer not filled means the queue has no more of it |
| Channel.Endpoint.Expand | FileTransferController/libssh2-1.2.4/src/channel.c:1847-1865 | a window that has become too narrow grows to at least 600 default windows and less than 900, unless sending fails or the transport puts it off, which leaves the window as it was |
| Channel.Endpoint.ReadReceived | FileTransferController/libssh2-1.2.4/src/channel.c:1752-1867 | once the wire is read: a read with room to spare leaves nothing of its stream queued; without data it says 0 at the end of the channel and otherwise what the transport said; about data it has copied it says EAGAIN never with a window of 300 default windows and, below that, exactly when the transport puts off the adjustment |
| Channel.Endpoint.Read | FileTransferController/libssh2-1.2.4/src/channel.c:1711-1868 | one read gives the front of the selected stream as far as there is room, whatever it returns; what arrives and what the transport says is decided by what it has to say, and the read fails only as it does; 0 means the end of the channel or that the transport said 0; it says EAGAIN about bytes it has copied never when the window stays at 300 default windows even after all data in flight, and, when it is below that before the call, exactly when the transport puts off the adjustment; the call repeated copies nothing and says EAGAIN exactly when the adjustment is put off again; ledgers and other streams are kept |
| Channel.Endpoint.WithheldBefore | FileTransferController/libssh2-1.2.4/src/channel.c:1847-1865 | the condition on the window before the call under which copied bytes are withheld, in both directions |
| Channel.Endpoint.Fill | FileTransferController/libssh2-1.2.4/src/channel.c:2020-2051 | the next data packet is as much of what is left as the window and the packet size allow |
| Channel.Endpoint.SendBuilt | FileTransferController/libssh2-1.2.4/src/channel.c:2061-2088 | a packet is charged to the window once, when it has been sent; put off, it is kept as it is |
| Channel.Endpoint.WriteLoop | FileTransferController/libssh2-1.2.4/src/channel.c:2001-2096 | the data packets added to the wire carry exactly the bytes counted, in order, each within the packet size; the loop ends |
| Channel.Endpoint.Write | FileTransferController/libssh2-1.2.4/src/channel.c:1950-2097 | from the call that starts a write to the one that completes it the data packets sent concatenate to the first write_bufwrote bytes of the caller's buffer, none beyond the window, none above packet_size, stopping short of 32768 bytes only when the window is empty; the result counts this call's bytes alone; it is an error only on a channel it has closed or as the last send in the call said; before a packet is built all that the transport has is taken off the wire |
| Views.PumpThenCopy | FileTransferController/libssh2-1.2.4/src/channel.c:1711-1868 | reading the wire and then the brigade is one read: in all, the front of the stream as it was before |
| Views.WhoReads | FileTransferController/libssh2-1.2.4/src/channel.c:1771-1782 | stream 0 gets the plain data, and the extended data too if it is merged; another stream gets the extended data sent on it; no reader gets data of another channel |
| Connection.ExactConservation | FileTransferController/libssh2-1.2.4/src/packet.c:698-735 | for an end that charged all it received and credited all it announced, its window is the sender's window plus the data and the adjustments in flight, and no data in flight exceeds window or packet size (section 5.2 of RFC 4254) |
| Connection.ReadStep | FileTransferController/libssh2-1.2.4/src/channel.c:1711-1868 | a read at one end conserves credit between the two and adds no data for the other end; what it says and what arrives is decided by the transport; with room to spare it leaves nothing of its stream queued, and if nothing is in flight either, all that was ever sent has been read |
| Connection.WriteStep | FileTransferController/libssh2-1.2.4/src/channel.c:1950-2097 | the bytes sent, the front of the caller's buffer from where the call took it up, join the end of the other end's unread stream; the call stops short of 32768 bytes only with an empty window or as the transport says; credit is conserved between the two |
| Connection.Step | FileTransferController/libssh2-1.2.4/src/channel.c:1711-2097 | a write, or a read of any stream, at either end conserves credit and keeps read, unread and sent bytes in agreement; a reader that merges streams leaves alone those that share data with the one watched |
| Connection.Run | FileTransferController/libssh2-1.2.4/src/channel.c:1711-2097 | over any run of such reads and writes at both ends, until the sending of an adjustment fails: conservation of credit, no overrun, windows at most max(initial, 900 * 65536); and always, what was read, followed by what is unread and in flight, is what was sent |
| Connection.Open | FileTransferController/libssh2-1.2.4/src/channel.c:146-185 | two new ends start with each window the credit the other was given |
| Connection.AnyStep | FileTransferController/libssh2-1.2.4/src/channel.c:1524-2097 | credit is conserved, up to the bytes received uncharged and the credit announced uncredited, by every operation in every mode, whatever fails |
| Connection.AnyRun | FileTransferController/libssh2-1.2.4/src/channel.c:1524-2097 | so it is over any run at all |
| Connection.AdjustStep | FileTransferController/libssh2-1.2.4/src/channel.c:1524-1587 | an adjustment breaks the plain conservation law if and only if it is going to be sent and the amount it then announces, in 32 bits, is not the one it credits |
| Connection.DeliverStep | FileTransferController/libssh2-1.2.4/src/packet.c:660-735 | a packet off the wire, ignored data included, breaks the plain law if and only if the bytes it leaves uncharged are not as many as its refund announces without crediting |
| Connection.OnlyIgnoredBreaks | FileTransferController/libssh2-1.2.4/src/packet.c:660-735 | where the code falls short: between ends that keep to the packet size, no packet breaks the law but one of ignored data, and that one does if and only if it has a byte, as long as its refund credits what it announces |
| Connection.SettledIsLawful | FileTransferController/libssh2-1.2.4/src/packet.c:698-735 | ends that charged all they received and credited all they announced obey the plain law, and no data in flight exceeds window or packet size unless some is to be ignored |
| Connection.SettledStep | FileTransferController/libssh2-1.2.4/src/channel.c:1524-2097 | every call allowed by its own arguments and the caller's state keeps both ends like that, however sends fail, and keeps read, unread and sent bytes in agreement unless it merges streams or takes them apart |
| Connection.SettledRun | FileTransferController/libssh2-1.2.4/src/channel.c:1524-2097 | over any run of such calls the plain law of section 5.2 of RFC 4254 holds, and delivery is first in, first out: no end takes packets off the wire while extended data is in flight that it ignores, and an adjustment put off is repeated with the amount announced |
| Lists.ListHead.constructor | FileTransferController/libssh2-1.2.4/src/misc.c:400-403 | an initialised list is well formed and empty |
| Lists.ListHead.Add | FileTransferController/libssh2-1.2.4/src/misc.c:406-426 | adding appends the node, and both link directions, first and last stay consistent |
| Lists.LinkForward | FileTransferController/libssh2-1.2.4/src/misc.c:449-452 | after the first update every other node's next link leads past the removed one, and so does the head's first |
| Lists.LinkBack | FileTransferController/libssh2-1.2.4/src/misc.c:454-457 | after the second so do the prev links and the head's last |
| Lists.LinkPast | FileTransferController/libssh2-1.2.4/src/misc.c:447-458 | after the four pointer updates every other node is linked past the removed one, in both directions |
| Lists.Remove | FileTransferController/libssh2-1.2.4/src/misc.c:447-458 | removing deletes exactly that node from the sequence, and the list stays well formed |
| ChannelIds.HighestIsFresh | FileTransferController/libssh2-1.2.4/src/channel.c:58-85 | the scan gives the largest of next_channel and the ids in the list, and that is an unused id if and only if every id in the session's list is below next_channel |
| ChannelIds.Session.NextId | FileTransferController/libssh2-1.2.4/src/channel.c:58-85 | the scan over the linked list returns the largest of next_channel and the ids in it, and next_channel moves behind it |
| ChannelIds.Session.Locate | FileTransferController/libssh2-1.2.4/src/channel.c:91-118 | finds the one live channel with that id, in the session's list or a listener's queue, and nothing exactly when there is none |
| ChannelIds.Session.Allocate | FileTransferController/libssh2-1.2.4/src/channel.c:58-85 | the id is one never handed out before, to any channel live or freed |
| ChannelIds.Session.Open | FileTransferController/libssh2-1.2.4/src/channel.c:146-185 | a new channel in any list keeps all ids distinct and below next_channel, and all lists well formed and disjoint |
| ChannelIds.Session.Accept | FileTransferController/libssh2-1.2.4/src/channel.c:730-742 | the first queued channel moves to the end of the session's list; no channel is lost or doubled, and the lists stay well formed |
| ChannelIds.Session.Free | FileTransferController/libssh2-1.2.4/src/channel.c:2432-2433 | unlinking removes exactly that channel from its list and leaves the order of the others and all other lists alone, and its id stays used |
| ChannelIds.MoveFirst | FileTransferController/libssh2-1.2.4/src/channel.c:730-742 | moving a node between two lists removes it from the one, appends it to the other, and leaves both well formed |
| KexInit.MethodStrlen | FileTransferController/libssh2-1.2.4/src/kex.c:929-944 | the length is that of the names joined with commas, without a comma at the end |
| KexInit.MethodList | FileTransferController/libssh2-1.2.4/src/kex.c:951-972 | writes length and joined names; the last comma lies behind the end reported |
| KexInit.PrefsStr | FileTransferController/libssh2-1.2.4/src/kex.c:979-988 | either way the field written is the length and the text, with no stray comma inside it |
| KexInit.PutFields | FileTransferController/libssh2-1.2.4/src/kex.c:1051-1073 | ten fields one after the other, each field's length overwriting the comma left by the one before |
| KexInit.DataLen | FileTransferController/libssh2-1.2.4/src/kex.c:995-1037 | the length added up beforehand is the length of the message |
| KexInit.Kexinit | FileTransferController/libssh2-1.2.4/src/kex.c:993-1086 | the buffer is the message of section 7.1 of RFC 4253 and exactly full, no comma surviving and no byte left over: type 20, the cookie, the ten lists each behind its length, and five zero bytes |
| KexInit.LocateFields | FileTransferController/libssh2-1.2.4/src/kex.c:1541-1574 | walking the lengths finds every list where it was put |
| KexInit.LocateRefuses | FileTransferController/libssh2-1.2.4/src/kex.c:1541-1574 | a length that is cut off or runs over the end of the message ends the search |
| KexInit.ZeroFollows | FileTransferController/libssh2-1.2.4/src/kex.c:1152-1184 | with lists shorter than 2 to the 24, each is followed by a zero byte |
| KexInit.RoundTrip | FileTransferController/libssh2-1.2.4/src/kex.c:993-1574 | the lists of a built message come back from parsing it, each zero-terminated, with the flag and the reserved integer left |
| NameLists.SplitJoin | FileTransferController/libssh2-1.2.4/src/kex.c:951-972 | splitting joined names at commas gives the names |
| NameLists.JoinOfTwo | FileTransferController/libssh2-1.2.4/src/kex.c:951-972 | one comma stands between a name and the next, and nothing else |
| NameLists.StrChr | FileTransferController/libssh2-1.2.4/src/kex.c:1172-1173 | the next comma, if the list has one, and never anything behind its terminator |
| NameLists.AgreeInstr | FileTransferController/libssh2-1.2.4/src/kex.c:1152-1184 | a comma-free name is found if and only if it is one of the elements of the list, at the start of one equal to it, and at the list's start if and only if it is the first |
| Negotiate.VisitedIsSplit | FileTransferController/libssh2-1.2.4/src/kex.c:1374-1395 | the preference loop visits the elements of any preference string one by one, and misses only an empty one at its end |
| Negotiate.ChoiceIsFirst | FileTransferController/libssh2-1.2.4/src/kex.c:1361-1518 | the first preference the server offers decides, whatever is preferred after it: it is agreed on, or agreement fails if it is none of the methods in the table; agreement also fails when none is offered |
| Negotiate.Lookup | FileTransferController/libssh2-1.2.4/src/kex.c:1190-1203 | the first entry with that name, or none |
| Negotiate.AgreeByPrefs | FileTransferController/libssh2-1.2.4/src/kex.c:1371-1397 | the loop over a preference string makes that choice |
| Negotiate.AgreeByDefault | FileTransferController/libssh2-1.2.4/src/kex.c:1399-1410 | so does the loop over the methods compiled in |
| Negotiate.Agree | FileTransferController/libssh2-1.2.4/src/kex.c:1361-1411 | so does kex_agree_crypt, and kex_agree_mac and kex_agree_comp, which differ from it in names only |
| Negotiate.HostIsFirst | FileTransferController/libssh2-1.2.4/src/kex.c:1209-1278 | the host key agreed on is the first preference that is offered and suits the key exchange; none if and only if none does |
| Negotiate.HostForFlags | FileTransferController/libssh2-1.2.4/src/kex.c:1209-1278 | for a key exchange that asks for encryption (flag 1), for signatures (flag 2, as all of them do), for both or for neither: the first offered host key that can do that is agreed on, unless an unknown one is offered before; none when there is none |
| Negotiate.AgreedCanDo | FileTransferController/libssh2-1.2.4/src/kex.c:1236-1247 | a host key agreed on is offered, and encrypts if the key exchange's flags ask for that and signs if they ask for that, whatever the preferences |
| Negotiate.AgreeHostkey | FileTransferController/libssh2-1.2.4/src/kex.c:1209-1278 | kex_agree_hostkey makes that choice, and what it agrees on is offered and can do what the flags ask for; without preferences and without a fitting host key it runs over the end of its table |
| Negotiate.KexByPrefs | FileTransferController/libssh2-1.2.4/src/kex.c:1293-1329 | the loop over key exchange preferences makes the paired choice, and keeps burn_optimistic_kexinit unless the server guessed right |
| Negotiate.KexByDefault | FileTransferController/libssh2-1.2.4/src/kex.c:1331-1353 | so does the loop over the methods compiled in |
| Negotiate.AgreeKexHostkey | FileTransferController/libssh2-1.2.4/src/kex.c:1286-1354 | so does kex_agree_kex_hostkey |
| Negotiate.KexEnds | FileTransferController/libssh2-1.2.4/src/kex.c:1286-1354 | where the search ends: preferences not offered, or with no host key going with them, are passed over; the first other one that is offered is agreed on with its host key, or ends the search without a pair if it is not in the table, or over the end of the host key table |
| Negotiate.PairIsFirst | FileTransferController/libssh2-1.2.4/src/kex.c:1209-1354 | the pair agreed on is the lexicographically first feasible pair; without a result no pair is feasible; no pair with an earlier key exchange is feasible where the search runs over the host key table's end |
| Negotiate.RunsOverTheEnd | FileTransferController/libssh2-1.2.4/src/kex.c:1254-1277 | where the code falls short: the search runs over the end of the host key table if and only if there are no host key preferences and no host key the server offers goes with the first key exchange preference it offers |
| Negotiate.RunsOverTheEndSomewhere | FileTransferController/libssh2-1.2.4/src/kex.c:1254-1277 | it comes to that: one host key in the table, and a server that offers another |
| Negotiate.GuessIsFirst | FileTransferController/libssh2-1.2.4/src/kex.c:1286-1354 | the server's guess counts as right if and only if the key exchange it lists first is the client's first that is offered and has a host key going with it |
| Negotiate.GuessesAgree | FileTransferController/libssh2-1.2.4/src/kex.c:1316-1321 | where code and standard part: they agree on the guess if and only if, the two sides' first key exchanges being the same, their first host keys are the same just when some host key goes with that key exchange, or, these being different, the server's is not the first that goes all the same (section 7.1 of RFC 4253) |
| Negotiate.GuessesDiffer | FileTransferController/libssh2-1.2.4/src/kex.c:1316-1321 | an input at which they do not: one key exchange and two host keys, which the two sides prefer in different orders |
| Negotiate.Session.AgreeOffers | FileTransferController/libssh2-1.2.4/src/kex.c:1576-1602 | it succeeds if and only if there is a pair and a method for all six directions; success means the first feasible pair and the first preferences offered; the packet sent ahead is to be dropped exactly when there is one and it guessed another key exchange; the language lists are not looked at |
| Negotiate.Session.AgreeMethods | FileTransferController/libssh2-1.2.4/src/kex.c:1529-1604 | the same from the bytes of the server's message, whatever its first_kex_packet_follows and its languages; a message too short for its lists fails |
| Negotiate.OffersOfMessage | FileTransferController/libssh2-1.2.4/src/kex.c:993-1574 | what kex_agree_methods sees of a message another kexinit built are the lists its sender joined, each searchable, whichever others are empty, as the languages are by default |
| ShellQuote.AtMostThrice | FileTransferController/libssh2-1.2.4/src/scp.c:55-122 | the quoted path has at most three characters for each of the path's, and is empty only for an empty path |
| ShellQuote.QuotedExamples | FileTransferController/libssh2-1.2.4/src/scp.c:49-88 | a word without apostrophe and exclamation mark is put in single quotes; an apostrophe behind it goes in double quotes, and an exclamation mark behind a backslash outside all quotes |
| ShellQuote.ReadsBack | FileTransferController/libssh2-1.2.4/src/scp.c:124-261 | from every state, a shell word reader reads the text written from there as the rest of the path |
| ShellQuote.RoundTrip | FileTransferController/libssh2-1.2.4/src/scp.c:124-261 | a shell reads the quoted path as one word that is the path, every exclamation mark being outside quotes behind a backslash |
| ShellQuote.PutLead | FileTransferController/libssh2-1.2.4/src/scp.c:145-229 | the switch over character and state writes the quotes or the backslash due, and fails only for want of room |
| ShellQuote.PutPath | FileTransferController/libssh2-1.2.4/src/scp.c:143-234 | the loop writes the quoted path but for its last quote, or stops for want of room |
| ShellQuote.QuoteArg | FileTransferController/libssh2-1.2.4/src/scp.c:124-261 | the result is the length of the complete quoted path, terminated, if and only if the buffer has room for it and two characters more, and 0 otherwise; 3n + 2 characters always suffice |
| KnownHosts.WriteLine | FileTransferController/libssh2-1.2.4/src/knownhost.c:664-735 | writes the line and its terminator if and only if they fit, reports the length either way, and leaves the buffer alone otherwise |
| KnownHosts.WrittenLines | FileTransferController/libssh2-1.2.4/src/knownhost.c:672-726 | a line is host, key type and key with one blank between them and no type for rsa1; a hashed host is the hash marker, the salt, a bar and the hash, both in base64 |
| KnownHosts.TwoNamesRead | FileTransferController/libssh2-1.2.4/src/knownhost.c:406-520 | two names with a comma between them become two entries with the line's key, the second name first, and are refused if one has 255 characters or more |
| KnownHosts.HashedNameRead | FileTransferController/libssh2-1.2.4/src/knownhost.c:428-520 | what stands behind the hash marker up to the bar is decoded as the salt, and what stands behind the bar as the hash; a salt of 31 characters, a hash of 255 or one that does not decode is refused |
| KnownHosts.ShortNamesIgnored | FileTransferController/libssh2-1.2.4/src/knownhost.c:406-457 | where the code falls short: a plain name of one or two characters is taken for a hashed one, and its line is read as nothing |
| KnownHosts.BlankKeyRead | FileTransferController/libssh2-1.2.4/src/knownhost.c:485-520 | where the code falls short: a key type followed by blanks alone is stored as a key that is the newline behind it |
| KnownHosts.NothingRead | FileTransferController/libssh2-1.2.4/src/knownhost.c:567-575 | a line that is empty, or blank up to a # or its newline, adds nothing |
| KnownHosts.PlainRoundTrip | FileTransferController/libssh2-1.2.4/src/knownhost.c:391-617 | a plain entry comes back alone and unchanged if and only if its name has 3 to 254 characters, no comma and no blank, and starts with none of #, a newline and the hash marker, and its key is a digit and at least 19 more characters, or, for the types with a name, at least 12 characters of which the first is no blank |
| KnownHosts.HashedRoundTrip | FileTransferController/libssh2-1.2.4/src/knownhost.c:391-617 | a hashed entry comes back with equal salt, hash, key and key type if and only if the base64 texts of salt and hash fit the parser's buffers and its key is of that kind |
| KnownHosts.CustomIsLost | FileTransferController/libssh2-1.2.4/src/knownhost.c:691-735 | no custom entry comes back as it was, whatever its text and its key |
| KnownHosts.Reload | FileTransferController/libssh2-1.2.4/src/knownhost.c:628-805 | a store of entries that survive and fit the buffer is the same, entry by entry and in order, after being written to a file and read from it |
| KnownHosts.Store.Scan | FileTransferController/libssh2-1.2.4/src/knownhost.c:551-612 | the loops over the line find where host and key start and end |
| KnownHosts.Store.Add | FileTransferController/libssh2-1.2.4/src/knownhost.c:138-220 | appends one entry, plain or custom with the name given, or hashed with the first argument decoded as the hash and the second as the salt, a raw key encoded; or nothing exactly when one of them cannot be converted |
| KnownHosts.Store.HostLine | FileTransferController/libssh2-1.2.4/src/knownhost.c:391-521 | on host and key of a line: adds the one or two names of the host part with the line's key, the name behind the comma first, or nothing |
| KnownHosts.SplitPlain | FileTransferController/libssh2-1.2.4/src/knownhost.c:406-463 | the scan for a comma yields one name or two, or refuses what does not fit the buffer |
| KnownHosts.SplitHashed | FileTransferController/libssh2-1.2.4/src/knownhost.c:428-463 | the scan for the end of the salt yields the decoded salt and hash, or refuses what does not fit or decode, or ignores a host part without either |
| KnownHosts.SplitKey | FileTransferController/libssh2-1.2.4/src/knownhost.c:465-497 | the key's type, and its text behind the type and blanks; too short or unknown keys are refused |
| KnownHosts.Store.Read | FileTransferController/libssh2-1.2.4/src/knownhost.c:551-617 | reading a line appends exactly the entries it means, and fails exactly when it is illegal |
| KnownHosts.Store.ReadFile | FileTransferController/libssh2-1.2.4/src/knownhost.c:628-653 | reads the file in pieces as fgets delivers them, each up to a zero byte, up to the first that cannot be read; appends what they mean in order and counts them |
| KnownHosts.Store.WriteFile | FileTransferController/libssh2-1.2.4/src/knownhost.c:767-805 | succeeds if and only if every entry can be encoded and its line has fewer than 2048 characters, and then the file holds every line in order |
| KnownHosts.Store.Check | FileTransferController/libssh2-1.2.4/src/knownhost.c:240-334 | MATCH with the first entry of this host and key; MISMATCH with the first of this host when none has the key; NOTFOUND when none is of this host; a hashed name is unsupported, and a raw key is compared encoded and refused when empty |
| KnownHosts.WhoAnswers | FileTransferController/libssh2-1.2.4/src/knownhost.c:268-304 | a plain name asked about matches the same plain name, and a hashed entry of 20 bytes if the keyed hash under its salt is that; a custom name matches the same custom name; nothing else matches |
| ScpLines.ValueOfDigits | FileTransferController/libssh2-1.2.4/src/scp.c:889-894 | printed digits denote the number printed, in any base up to ten |
| ScpLines.ValueSnoc | FileTransferController/libssh2-1.2.4/src/scp.c:513-552 | one more digit behind the others moves them up by a place |
| ScpLines.PlainDigits | FileTransferController/libssh2-1.2.4/src/scp.c:513-552 | strtol takes all the digits there are, stops behind them, and reports a value above 2 to the 63 less 1 as out of range |
| ScpLines.MinusDigits | FileTransferController/libssh2-1.2.4/src/scp.c:513-552 | behind a minus sign it takes the negative value |
| ScpLines.SkipSpaces | FileTransferController/libssh2-1.2.4/src/scp.c:513-552 | white space in front of a number does not count |
| ScpLines.NoDigits | FileTransferController/libssh2-1.2.4/src/scp.c:513-552 | without a digit it gives 0 and takes nothing |
| ScpLines.LongRead | FileTransferController/libssh2-1.2.4/src/scp.c:513-552 | strtol reads a printed number back, up to the character behind it |
| ScpLines.TimesRoundTrip | FileTransferController/libssh2-1.2.4/src/scp.c:889-896 | parsing the T line printed gives back both times |
| ScpLines.PrintedLines | FileTransferController/libssh2-1.2.4/src/scp.c:889-957 | for example, the modification time is printed before the access time, each with a 0 behind it, and the mode in octal behind a 0 |
| ScpLines.TimesRead | FileTransferController/libssh2-1.2.4/src/scp.c:494-552 | of any line the first word behind the T is the modification time and the third the access time, in decimal, whatever the second is and whatever follows their digits; a line of fewer than 8 characters is refused |
| ScpLines.NoTimesRead | FileTransferController/libssh2-1.2.4/src/scp.c:502-541 | a line without three words that a space follows is refused |
| ScpLines.FileRoundTrip | FileTransferController/libssh2-1.2.4/src/scp.c:944-957 | parsing the C line printed gives back the octal mode and the size, for any name |
| ScpLines.FileRead | FileTransferController/libssh2-1.2.4/src/scp.c:667-715 | of any line the first word behind the C is the mode, in octal, and the second the size, in decimal, each refused unless it is a number to its end; a line of fewer than 6 characters is refused |
| ScpLines.NoFileRead | FileTransferController/libssh2-1.2.4/src/scp.c:675-704 | a line without two words that a space follows is refused |
| ScpLines.JudgesTimes | FileTransferController/libssh2-1.2.4/src/scp.c:400-480 | a T line is whole at its newline from 9 bytes on; it is refused at once for another first byte, for a byte that is no digit, space or line end, and at 256 bytes without a newline; and until then more is read |
| ScpLines.JudgesFile | FileTransferController/libssh2-1.2.4/src/scp.c:613-652 | the same for a C line: from 7 bytes on, of printable characters and line ends |
| ScpLines.StopsAtTheEnd | FileTransferController/libssh2-1.2.4/src/scp.c:383-480 | whatever way the bytes come, the reader stops exactly at the end of such a line and leaves what follows it |
| ScpLines.EndsReady | FileTransferController/libssh2-1.2.4/src/scp.c:383-480 | the loop ends with the whole line if the channel has the rest of one and gives it |
| ScpLines.EndsWithoutByte | FileTransferController/libssh2-1.2.4/src/scp.c:379-398 | the loop ends to be taken up again while the channel has no byte yet, and for good at its end or on an error |
| ScpLines.TimesArrive | FileTransferController/libssh2-1.2.4/src/scp.c:379-557 | the T line sent, received a byte at a time, yields both times, and nothing behind it is consumed |
| ScpLines.FileArrives | FileTransferController/libssh2-1.2.4/src/scp.c:593-720 | so does the C line with a printable name |
| ScpLines.Receiver.Receive | FileTransferController/libssh2-1.2.4/src/scp.c:379-480 | the loop over single bytes keeps every byte and can be taken up again; where it ends, and how, is decided by the line so far, the bytes on the channel and what the channel has to say |
| ScpLines.Receiver.ReadTimes | FileTransferController/libssh2-1.2.4/src/scp.c:379-557 | whatever comes, the call ends as the loop over single bytes does, and with a whole line as that line parses; if what is in the buffer and on the channel starts with the line scp_send prints for two times, the read never fails, is ready whenever the channel gives the rest of the line, and once ready it has those times and has taken nothing further |
| ScpLines.Receiver.ReadFile | FileTransferController/libssh2-1.2.4/src/scp.c:593-720 | likewise for mode and size |

## Left out

- Socket set-up, `select`, timeouts, blocking mode, callbacks other than the one for MAC errors, debug output and
  allocation failure.
- The cryptographic primitives, bignums, Diffie-Hellman arithmetic, signatures and zlib; compression is fixed to "none".
- Key re-exchange started from inside a read; a change of cipher in the middle of a stream.
- Reader.Receiver.PacketAdd: errors of `_libssh2_packet_add` other than an invalid MAC are not modelled, nor its EAGAIN after a packet has been queued, which only a key exchange causes.
- Reader.Receiver.constructor: the incoming stream is one of well-formed packets, which may be followed by bytes whose header is
  refused; what is made of other malformed streams is not modelled.
- EndToEnd.WriteOne: payloads that are empty or too large for the reader are framed (`Writer.Transmitter.Write` covers them) but not
  followed to the other end.
- The wrap of sequence numbers at 2 to the 32 is left to the MAC function, which gets the unwrapped number.
- C integer overflow for sizes near 2 to the 31 and above: `insize * 4 / 3 + 4`, `3 * src_len`, windows beyond 32 bits. The
  announced window adjustment is truncated to 32 bits, as on the wire.
- Liveness: nothing says that a socket which always answers EAGAIN gets anything done.
- Channel.Endpoint.Write: does not model packet_size 0, with which the source's loop does not end; packet_size is positive.
- Connection.Run: bounds the windows only until the sending of a window adjustment fails outright, where it stops;
  `Connection.SettledRun` and `Connection.AnyRun` go on.
- Connection.Step: reads of a merged stream beside reads of the streams merged into it are not followed, as the same bytes are
  then in both.
- The members of `Channel` model one channel of each session; the session's other channels are a set of ids, and their windows are not charged.
- Channel requests, exit status, flushing, sending EOF and CLOSE, and the forwarding and x11 requests: those messages are
  opaque, and queued. `faults` in `Channel.Endpoint` is a count no operation reads.
- Adding and cancelling listeners; the confirmation of a forwarded channel is taken to be sent at once.
- `_libssh2_packet_require` and its relatives, which wait for a packet with `_libssh2_packet_ask`.
- `libssh2_session_method_pref`, which filters preferences; the results about first pairs ask for supported ones.
- Negotiate.Session.AgreeMethods: name-lists of methods with a zero byte inside, and ones that another byte than zero follows, for
  which `kex_agree_instr` reads past the end, are not modelled.
- KnownHosts.Store.Read: the line is a C string given with its own length, as `libssh2_knownhost_readfile` gives it; other lengths, and
  file types other than that of OpenSSH, are not modelled.
- KnownHosts.WriteLine: an empty hash or salt counts as one that cannot be encoded; the encoder would take its length from
  whatever lies behind it in memory.
- `libssh2_knownhost_del` and `libssh2_knownhost_get`; key types that `libssh2_knownhost_add` does not know.
- The exchange of acknowledgements around SCP lines, reading the remote's error text, and the NUL characters `scp_recv` writes into its buffer
  while parsing; a printed line is one that fits the buffer, as `snprintf` would cut it off otherwise.
- `pem.c`, `libgcrypt.c`, `agent.c`, `publickey.c`, `session.c`, `comp.c`, `crypt.c`, `mac.c`, `hostkey.c`, `version.c`, and the Objective-C
  classes around the library.
