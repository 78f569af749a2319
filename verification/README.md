# Verification of the Ethernet library and the gate-controller sketch

A Dafny model of the Arduino Ethernet stack for the WIZnet W5100, W5200 and W5500 chips
and of the gate-controller sketch on top of it, with proofs. `dafny verify dfyconfig.toml`
checks everything. Integer widths are those of the AVR target: `int` 16 bits, `long` 32
bits, structs without padding.

## What is modelled

* **The chip.** A UDP or TCP socket of the chip is a value (`UdpChip.Chip`): two 2 KB rings,
  the pointer registers TX_WR and RX_RD, the size registers RSR and FSR, everything
  accepted and everything sent so far. Between any two register accesses an arbitrary
  script of arrivals and of freed transmit space takes effect; every contract of the driver
  holds for every script. Hardware assumptions: TX_WR reads as the committed value until
  SEND (the comment in `libraries/Ethernet/utility/w5100.h`, lines 164-173, says so); the ring wraps at
  2048; a datagram that does not fit is dropped; between two commands the chip only raises
  RSR and FSR; SEND transmits from the committed TX_WR to the written one modulo 65536, so
  that a length above the ring size goes around the ring more than once.
* **The driver** (`SizeRegister`, `Ring`, `SoftwareWrap`, `W5500`, `SocketDriver`,
  `UdpSend`, `PacketWrites`, `TcpSend`): the two-byte size readings, the ring copies of all
  three chips, the socket functions, and packets of any number of writes.
* **The datagram layer** (`EthernetUdp`): the class of the library, with the framing
  invariant over the receive ring and the packet under construction in the transmit ring.
  `PacketReader` is its reading side as the two clients use it; `ReaderRefinement` proves
  that `EthernetUDP` gives the same bytes, for any sequence of reads, while no datagram
  arrives.
* **The DHCP client** (`DhcpOptions`, `DhcpMessage`, `LeaseClock`, `DhcpExchange`,
  `DhcpMeaning`, `DhcpClient`): option
  parser against section 2 of RFC 2132, message builder against section 2 of RFC 2131, the
  state machine with its timeouts, and lease keeping on a wrapping millisecond clock.
* **The DNS client** (`DnsName`, `InetAton`, `DnsClient`): name encoder, response walker and
  numeric shortcut, against sections 3.1 and 4.1 of RFC 1035.
* **The sketch** (`Framing`, `ReplyProtocol`, `RelayTimer`, `GateController`): command
  frames, bounded replies, relay timers, and the class of globals they act on.
* **The TCP socket table** (`SocketTable`): server and client calls while the chip changes
  socket states between any two register accesses.

Where the program changes state the model is a class or a loop. Its methods are proved
against specification functions (`Stable`, `PutAll`, `WrittenBy`, `Parse`, `Follows`,
`Kept`, `Walk`, `Bytes`, `Check`, `Poll`, `Polled`, `Accepting`, ...), and the properties are lemmas
about those functions over all inputs and whole runs.

## Where the code departs from its documentation

The code is modelled as it is. Each point below has a lemma or a contract.

* A size register that crosses a multiple of 256 between its two byte reads can read as
  zero: a false zero comes back exactly from 1 to 255 (`SizeRegister.ZeroPossibleIff`). The
  received size is then taken for "no data", once, and only if a datagram arrived
  meanwhile (`SocketDriver.ReadsZeroIff`, `EthernetUdp.EthernetUdp.ParsePacket`).
* `bufferData` reads the free size a second time to truncate, so it can take more than it
  was given. It takes exactly what it was given, whatever the chip does, if and only if
  that is nothing, or at least 256 bytes are free and it fits
  (`SocketDriver.BufferDataIsExactIff`, `SocketDriver.OneWriteIsSentIff`). A packet of any
  number of writes that fits is certain to leave as written if and only if it is empty or at
  least 256 bytes are free (`PacketWrites.PacketIsSentIff`, `EthernetUdp.EthernetUdp.SendPacket`).
* `bufferData` also ignores the offset already used: a packet leaves as written exactly
  under the condition of `UdpSend.SentAsWrittenIff`, and bytes in flight survive exactly
  under that of `UdpSend.InFlightSurvivesIff`.
* A packet that was abandoned is transmitted by the next SEND without a write in between
  (`UdpSend.AbandonedIsSentByEmptyPacket`).
* `EthernetClient::write` reports the size asked for; when that is right, `TcpSend.ReportIsTrueIff`
  says.
* The DHCP end option does not end the option loop (`DhcpOptions.ParseGoesOnBehindEnd`);
  what may stand behind it without effect, `DhcpOptions.ChangesNothingIff` says.
* A reply whose message type is 255, or is cut off at the end of the packet, is taken for
  silence and starts the exchange over (`DhcpExchange.CountsAsSilenceIff`).
* The default T2 is the lease rounded down to even, not 7/8 of it
  (`LeaseClock.DefaultT2IsNotSevenEighths`). For leases from 2^31 s on, the infinite one among
  them, the countdowns are unsound (`LeaseClock.DefaultsSoundIff`). A renewal keeps the old T1
  (`LeaseClock.RenewalKeepsOldT1`).
* A `checkLease` call at clock reading 0 loses the gap behind it, and a call 2^31 ms or more
  past the due second counts too little (`LeaseClock.StaysOnTimeIff`,
  `LeaseClock.DeductsStretches`, `LeaseClock.CountsRightIff`).
* An exchange left in DISCOVER, REQUEST or REREQUEST is never taken up again by `checkLease`.
  One renewal that finds no free socket is enough to end there
  (`DhcpExchange.KeptTells`, `DhcpClient.DhcpClient.CheckLease`).
* `inet_aton` lets every character through, so host names can pass as addresses
  (`InetAton.EverythingLooksNumeric`, `OneLetterIsAnAddress`). Numbers wrap at 16 bits:
  32768 and 65536 slip through, and `InetAton.SegmentJudgedRightlyIff` says exactly which
  segments do. A rejected string may have changed the address already
  (`InetAton.Aton`).
* Labels longer than 63 bytes are not refused (`DnsName.NameRoundTripIff`). The question loop
  does not end on a name the packet does not complete (`DnsName.QuestionLoopEndsIff`).
* A DNS record that says A, IN and four bytes counts as a success even if the response ends
  before the address: what is missing of it keeps its old bytes (`DnsClient.AddressIsWholeIff`,
  `DnsClient.MissingAddressIsSuccess`).
* A command frame needs no STX (`Framing.StxIsNotNeeded`).
* At most two replies are sent, not three (`ReplyProtocol.RepliesAreBounded`, `TwoNotThree`). A
  second one not sent before a clock wrap waits for a clock round, unless its period straddles
  the wrap (`ReplyProtocol.PassSendsIff`).
* A relay deadline missed before a clock wrap is lost for the whole next clock round
  (`RelayTimer.MissedDeadlineIsLost`). A timer started again while it runs keeps a stale
  offset: after a noticed wrap it waits for the clock reading of its first start plus 502 ms,
  which can be weeks, or is too short if the first deadline straddled the wrap
  (`RelayTimer.RestartAfterWrap`, `RelayTimer.RestartFiresAsMeantIff`,
  `RelayTimer.HeldForWeeks`). A timer started while it does not run has no stale offset
  (`GateController.AlwaysCleanWhenIdle`). The gate-up timer keeps the gate-down relay from being served
  (`GateController.GateUpStarvesGateDown`), and the trigger relay is not released at power-up
  (`GateController.TriggerAgreesIff`).
* A second `begin` for a port breaks the one-listener invariant exactly when a socket is free
  (`SocketTable.BeginKeepsOneListenerIff`). `accept` is sure to leave a listener only if
  the chip takes none away during the call (`SocketTable.SocketTable.Accept`,
  `SocketTable.ListenerTakenDuringScan`). A `connect` with an address the socket layer refuses
  leaves its socket open (`SocketTable.RefusalsExhaustSockets`). A client that takes over
  a half-closed socket of a server keeps its registration; when the server then hands its
  connection out, `SocketTable.TakenSocketIsServedIff` says.

## Model

| member | source | states |
|---|---|---|
| SizeRegister.Pass | libraries/Ethernet/utility/w5500.cpp:37-43 | one pass of the double read over a rising register: no word exceeds it, equal words are a value it held, and a pass that must be repeated saw it change |
| SizeRegister.StableResult | libraries/Ethernet/utility/w5500.cpp:47-57 | for every rising register the result never exceeds its current value, was really held during the call, or is a zero of which the bytes were read at two moments |
| SizeRegister.StableEnds | libraries/Ethernet/utility/w5500.cpp:35-57 | the loop ends, at most one pass later than the register changed its value |
| SizeRegister.SteadyResult | libraries/Ethernet/utility/w5500.cpp:35-57 | a register at rest is read exactly |
| SizeRegister.ReadWord | libraries/Ethernet/utility/w5500.h:278-282 | the 16-bit accessor joins the high byte of one access and the low byte of the next |
| SizeRegister.ReadTwice | libraries/Ethernet/utility/w5500.cpp:38-42 | the loop body either hands out the value the specification gives or goes on towards it with a register that has risen |
| SizeRegister.ReadStable | libraries/Ethernet/utility/w5500.cpp:47-57 | the loop terminates with the specified value, which is explained by the register and obtained in bounded time |
| SizeRegister.TornAtRest | libraries/Ethernet/utility/w5500.cpp:47-57 | zero from a register that did not move is true |
| SizeRegister.TornRead | libraries/Ethernet/utility/w5500.cpp:47-57 | a high byte 0 followed by a low byte 0 reads as zero, whatever the register held |
| SizeRegister.ZeroPossibleIff | libraries/Ethernet/utility/w5500.cpp:47-57 | by the value at the beginning: zero can come back exactly below 256, so a false zero exactly from 1 to 255 |
| SizeRegister.UnchangedIsExact | libraries/Ethernet/utility/w5500.cpp:35-57 | a register that does not change during the reading is read exactly |
| SizeRegister.FreshEnough | libraries/Ethernet/utility/w5500.cpp:35-45 | from 256 on the result is at least what the register held when the reading began |
| SizeRegister.ChunkFits | libraries/Ethernet/utility/socket.cpp:349-356 | a chunk not above the free size is taken as asked if the free size cannot be torn |
| SizeRegister.ChunkAtRest | libraries/Ethernet/utility/socket.cpp:349-356 | with nothing being freed a chunk is cut to the free size |
| SizeRegister.BufferChunk | libraries/Ethernet/utility/socket.cpp:346-356 | the size taken is the specified one, never exceeds the free size, and is the smaller of request and free size if that does not change |
| SizeRegister.OverrunChunk | libraries/Ethernet/utility/socket.cpp:349-351 | space freed between the two readings makes a chunk that did not fit as long as the new free size |
| SizeRegister.TornChunk | libraries/Ethernet/utility/socket.cpp:349-351 | a torn first reading makes any chunk 256 bytes long |
| SizeRegister.NeverLongerThanAskedIff | libraries/Ethernet/utility/socket.cpp:346-356 | over all rising registers from a given free size: a chunk is never longer than asked exactly if it is empty, or the free size is at least 256 and it fits, or it is at least the largest free size |
| SizeRegister.TakenAsAskedIff | libraries/Ethernet/utility/socket.cpp:346-356 | it is as long as asked exactly if it is empty, or the free size is at least 256 and it fits |
| Ring.WriteAt | libraries/Ethernet/utility/w5500.cpp:66-76 | what each ring offset holds after a transfer of any length at any pointer: the last byte that fell on it |
| Ring.WriteSeenFrom | libraries/Ethernet/utility/w5500.cpp:66-76 | the same, seen from any stretch of the ring |
| Ring.WriteConcat | libraries/Ethernet/utility/w5500.cpp:66-76 | transfers back to back are one transfer |
| Ring.WriteWraps | libraries/Ethernet/utility/w5500.cpp:69-75 | the pointer may have wrapped at 65536 |
| Ring.ReadBack | libraries/Ethernet/utility/w5500.cpp:91-95 | reading what was written gives the data with its head overwritten by what exceeds the ring |
| Ring.IntactIff | libraries/Ethernet/utility/w5500.cpp:66-76 | a transfer survives exactly when it fits the ring or repeats itself where it does not |
| Ring.WriteBehind | libraries/Ethernet/utility/w5500.cpp:66-76 | a transfer behind stored bytes that fits leaves them alone and continues them |
| SoftwareWrap.Driver.constructor | libraries/Ethernet/utility/w5200.cpp:40-43 | the base of every socket window |
| SoftwareWrap.Driver.Store | libraries/Ethernet/utility/w5100.cpp:85-93 | the copy in two pieces is a copy around the end of the window, and writes nothing else |
| SoftwareWrap.Driver.SendDataProcessingOffset | libraries/Ethernet/utility/w5100.cpp:77-97 | equals the per-byte copy modulo 2048 in the socket window, touches no other address, and leaves TX_WR behind the data |
| SoftwareWrap.Driver.Load | libraries/Ethernet/utility/w5100.cpp:112-130 | the read in two pieces is a read around the end of the window |
| SoftwareWrap.Driver.ReadData | libraries/Ethernet/utility/w5200.cpp:112-130 | equals the per-byte read modulo 2048 of the socket window, for every pointer |
| SoftwareWrap.Driver.RecvDataProcessing | libraries/Ethernet/utility/w5100.cpp:100-110 | reads at RX_RD and advances it unless peeking |
| SoftwareWrap.StoredIsWrite | libraries/Ethernet/utility/w5200.cpp:77-97 | a split copy of the flat address space is a ring write of the window |
| SoftwareWrap.LoadedIsRead | libraries/Ethernet/utility/w5100.cpp:112-130 | a split read is a ring read of the window |
| SoftwareWrap.WindowsAreDisjoint | libraries/Ethernet/utility/w5200.cpp:40-43 | no two windows overlap and none leaves the address space; only that of W5200 socket 7 ends at its top |
| W5500.ControlByteFields | libraries/Ethernet/utility/w5500.h:354-372 | a control byte has socket, block and direction in their bit fields |
| W5500.ControlBytesAreDistinct | libraries/Ethernet/utility/w5500.h:354-372 | two accesses share a control byte only if socket and kind agree |
| UdpChip.FramesConcat | libraries/Ethernet/EthernetUdp.cpp:124-137 | framing of a concatenation |
| UdpChip.DeliverAppends | libraries/Ethernet/utility/w5500.cpp:78-89 | an arrival appends one whole frame to the receive data, or is dropped, wherever the ring wraps |
| UdpChip.HappenAllEvolves | libraries/Ethernet/utility/w5500.cpp:35-57 | any events between two accesses only append frames and free space |
| UdpChip.AfterEvolves | libraries/Ethernet/utility/w5500.cpp:35-57 | the same over any number of accesses |
| UdpSend.StoredPut | libraries/Ethernet/utility/w5500.cpp:66-76 | one more chunk behind what is stored |
| UdpSend.PutAllFrom | libraries/Ethernet/EthernetUdp.cpp:111-116 | writes at growing offsets continue one store |
| UdpSend.PutAllAppend | libraries/Ethernet/EthernetUdp.cpp:111-116 | the last of several writes lands where the others end |
| UdpSend.BuildingStep | libraries/Ethernet/EthernetUdp.cpp:111-116 | a write keeps the packet under construction what its chunks say |
| UdpSend.WritesAreOneStore | libraries/Ethernet/utility/socket.cpp:346-359 | any writes, from any committed pointer and whatever an abandoned packet left, are one store of their concatenation |
| UdpSend.TransmittedPayload | libraries/Ethernet/utility/socket.cpp:379-399 | what SEND transmits, for every sequence of writes below 64 KB |
| UdpSend.SentAsWrittenIff | libraries/Ethernet/utility/socket.cpp:346-359 | a packet leaves as written exactly when it fits the ring or repeats itself where it does not |
| UdpSend.SendRefinement | libraries/Ethernet/EthernetUdp.cpp:95-116 | chunks that together fit the free size leave as one datagram and spare the bytes in flight |
| UdpSend.StoreKeepsInFlight | libraries/Ethernet/utility/w5500.cpp:66-76 | a store within the free size does not touch bytes in flight |
| UdpSend.InFlightSurvivesIff | libraries/Ethernet/utility/w5500.cpp:66-76 | a store of any length spares the bytes in flight exactly if what lies beyond the free space repeats them |
| UdpSend.AbandonedIsSentByEmptyPacket | libraries/Ethernet/EthernetUdp.cpp:95-104 | an abandoned packet is what an empty one transmits |
| SocketDriver.ReleaseConsumes | libraries/Ethernet/utility/w5500.cpp:78-89 | moving RX_RD and RECV take exactly the first bytes off the receive data while frames may arrive behind |
| SocketDriver.SizesRise | libraries/Ethernet/utility/w5500.cpp:35-57 | between two commands both size registers only rise |
| SocketDriver.ZeroNeedsArrival | libraries/Ethernet/utility/w5500.cpp:47-57 | a zero received size while data waits needs an arrival during the reading |
| SocketDriver.ZeroNeedsFew | libraries/Ethernet/utility/w5500.cpp:47-57 | a zero received size needs fewer than 256 bytes waiting when the reading begins |
| SocketDriver.ReadsZeroIff | libraries/Ethernet/utility/w5500.cpp:47-57 | some arrivals make the received size read as zero exactly if fewer than 256 bytes are waiting |
| SocketDriver.UnsafeIsOverrun | libraries/Ethernet/utility/socket.cpp:349-351 | for every length that is not safe, what the chip has to do so that more is taken than was given |
| SocketDriver.BufferDataIsExactIff | libraries/Ethernet/utility/socket.cpp:346-356 | whatever the chip frees: exactly as much is taken as asked if and only if the length is 0, or it fits and at least 256 bytes are free; never more if and only if that holds or the length is at least the ring size |
| SocketDriver.OneWriteIsSentIff | libraries/Ethernet/utility/socket.cpp:346-399 | a packet of one write leaves as written under every script exactly under that condition |
| SocketDriver.Socket.Elapse | libraries/Ethernet/utility/w5500.cpp:35-57 | what any number of register accesses lets happen |
| SocketDriver.Socket.GetRXReceivedSize | libraries/Ethernet/utility/w5500.cpp:47-57 | under every script a size other than zero was the true one at a moment of the call; zero is true, or fewer than 256 bytes were waiting and an arrival disturbed it |
| SocketDriver.Socket.Recv | libraries/Ethernet/utility/socket.cpp:146-176 | takes as many bytes as asked for and available off the front, reports 0 or -1 only without data, or with fewer than 256 bytes waiting and an arrival meanwhile |
| SocketDriver.Socket.Peek | libraries/Ethernet/utility/socket.cpp:184-189 | the byte at RX_RD, with nothing consumed |
| SocketDriver.Socket.ChunkLength | libraries/Ethernet/utility/socket.cpp:348-356 | how much is taken: the specified length; it fits the free space, is as much as asked if that is safe, and the smaller of both if the free size does not change |
| SocketDriver.Socket.ReadChunk | libraries/Ethernet/utility/socket.cpp:348-356 | how much is taken and after how many accesses: the specified length, at most the free space by then |
| SocketDriver.Socket.BufferData | libraries/Ethernet/utility/socket.cpp:346-359 | stores that much at the offset behind the committed pointer, and leads to the specified chip and access |
| SocketDriver.Socket.StartUdp | libraries/Ethernet/utility/socket.cpp:361-377 | accepts every destination but address 0.0.0.0 or port 0 |
| SocketDriver.Socket.SendUdp | libraries/Ethernet/utility/socket.cpp:379-399 | sends once; succeeds exactly if SEND_OK is seen before TIMEOUT |
| EthernetUdp.EthernetUdp.constructor | libraries/Ethernet/EthernetUdp.cpp:39-59 | the framing invariant to begin with |
| EthernetUdp.EthernetUdp.StillFramed | libraries/Ethernet/EthernetUdp.cpp:147-193 | consuming part of a datagram, with arrivals behind it, keeps the framing invariant |
| EthernetUdp.EthernetUdp.Read | libraries/Ethernet/EthernetUdp.cpp:147-160 | the next byte of the current datagram, in order; -1 only at its end, or after an arrival with fewer than 256 bytes waiting |
| EthernetUdp.EthernetUdp.ReadInto | libraries/Ethernet/EthernetUdp.cpp:162-193 | the next bytes of the current datagram, as many as fit; -1 only at its end, or after an arrival with fewer than 256 bytes waiting |
| EthernetUdp.EthernetUdp.Peek | libraries/Ethernet/EthernetUdp.cpp:195-205 | the next byte, which stays unread |
| EthernetUdp.EthernetUdp.Flush | libraries/Ethernet/EthernetUdp.cpp:207-217 | terminates under every script with the current datagram used up |
| EthernetUdp.EthernetUdp.ParsePacket | libraries/Ethernet/EthernetUdp.cpp:118-145 | reports exactly the next datagram, its address, port and length, however little of the last one was read; passes over a queued one only after an arrival and with fewer than 256 bytes waiting |
| EthernetUdp.EthernetUdp.NextPacket | libraries/Ethernet/EthernetUdp.cpp:123-145 | the same once the last datagram is used up |
| EthernetUdp.EthernetUdp.TakeHeader | libraries/Ethernet/EthernetUdp.cpp:126-130 | a positive read of 8 bytes is one whole header, with its payload next in the ring |
| EthernetUdp.EthernetUdp.ReadHeader | libraries/Ethernet/EthernetUdp.cpp:124-141 | the header read between two datagrams is that of the next one |
| EthernetUdp.EthernetUdp.BeginPacket | libraries/Ethernet/EthernetUdp.cpp:95-99 | an empty packet to the destination, or a refusal |
| EthernetUdp.EthernetUdp.Write | libraries/Ethernet/EthernetUdp.cpp:111-116 | the packet under construction grows by the bytes taken: all of the buffer if its length is safe, and the buffer cut to the free size if that does not change |
| EthernetUdp.EthernetUdp.EndPacket | libraries/Ethernet/EthernetUdp.cpp:101-104 | transmits the concatenation of the writes since beginPacket as one datagram, if there was one and they fit the ring |
| EthernetUdp.EthernetUdp.SendPacket | libraries/Ethernet/EthernetUdp.cpp:95-116 | for any buffers and every script, beginPacket, a write for each and endPacket transmit what the specified writes leave; that is the concatenation of the buffers, to the destination, if it fits the free size and is empty or at least 256 bytes are free |
| EthernetUdp.EthernetUdp.WriteAll | libraries/Ethernet/EthernetUdp.cpp:111-116 | any writes leave the transmit side the specification says, whatever the chip frees meanwhile |
| EthernetUdp.HeaderTaken | libraries/Ethernet/EthernetUdp.cpp:124-137 | 8 bytes off a framed ring are address, port and length of the next datagram |
| EthernetUdp.SplitStream | libraries/Ethernet/EthernetUdp.cpp:118-193 | bytes taken are the front of the current datagram; its rest and all later frames stay |
| PacketWrites.PacketIsSentIff | libraries/Ethernet/EthernetUdp.cpp:95-116 | a packet of any number of writes that fits the free space leaves as written under every script exactly if it is empty or at least 256 bytes are free |
| PacketWrites.SafeWrites | libraries/Ethernet/utility/socket.cpp:346-359 | writes of safe lengths store just their data, whatever the chip frees meanwhile |
| PacketWrites.DriverTears | libraries/Ethernet/utility/socket.cpp:349-351 | below 256 free bytes, one release at any access makes the write begun then take 256 bytes, and leaves empty writes before it alone |
| PacketWrites.Spoiled | libraries/Ethernet/utility/socket.cpp:346-359 | if the first write that is not empty is torn, TX_WR ends at another length than was given, however many writes there are |
| PacketWrites.SpoiledIsSent | libraries/Ethernet/utility/socket.cpp:379-399 | then the packet does not leave as written |
| ReaderRefinement.Obey | libraries/Ethernet/EthernetUdp.cpp:147-217 | each kind of reading on the real class does what the reader does while no datagram arrives |
| ReaderRefinement.RunBoth | libraries/Ethernet/EthernetUdp.cpp:147-217 | any sequence of readings gives on both what the commands mean, one after the other, and the same rest, while no datagram arrives |
| TcpSend.GetTXFreeSize | libraries/Ethernet/utility/w5500.cpp:35-45 | never more than is free when it returns |
| TcpSend.AwaitRoom | libraries/Ethernet/utility/socket.cpp:107-118 | ends with room for the data and the connection seen standing, or with the connection seen gone |
| TcpSend.Send | libraries/Ethernet/utility/socket.cpp:96-137 | stores at most 2048 bytes behind the bytes in flight, sends them, and returns their number if SEND_OK was seen, 0 if CLOSED was |
| TcpSend.ClientWrite | libraries/Ethernet/EthernetClient.cpp:77-87 | what is handed over and what is reported, each after the signal that was seen |
| TcpSend.ReportIsTrueIff | libraries/Ethernet/EthernetClient.cpp:82-86 | the reported size is right exactly if nothing was given or the connection did not stand, or the write was acknowledged and at most 2048 bytes long |
| TcpSend.Conservation | libraries/Ethernet/utility/socket.cpp:96-137 | over every run of writes and transmissions and every wrap, what left the chip and what is in flight are what was written, in order |
| TcpSend.SendAppends | libraries/Ethernet/utility/socket.cpp:120-122 | a write that waited for room appends to the bytes in flight |
| TcpSend.DrainDrops | libraries/Ethernet/utility/w5500.cpp:35-45 | transmission takes from the front of the bytes in flight |
| PacketReader.Reader.Read | libraries/Ethernet/EthernetUdp.cpp:147-160 | the next byte or -1 |
| PacketReader.Reader.ReadByte | libraries/Ethernet/Dhcp.cpp:301-303 | a failed read stored in a byte is 255 |
| PacketReader.Reader.ReadOver | libraries/Ethernet/EthernetUdp.cpp:162-193 | a short datagram leaves the tail of the buffer as it was |
| PacketReader.Reader.Discard | libraries/Ethernet/Dhcp.cpp:286-289 | a counted loop of reads is one skip |
| PacketReader.Reader.Flush | libraries/Ethernet/EthernetUdp.cpp:207-217 | nothing is left |
| DhcpOptions.ParseIsMeaning | libraries/Ethernet/Dhcp.cpp:291-374 | on every well-formed option area the loop computes the meaning of the decoded options |
| DhcpOptions.StepIsMeaning | libraries/Ethernet/Dhcp.cpp:293-373 | one pass reads one option of prescribed length exactly |
| DhcpOptions.PaddingIsIgnored | libraries/Ethernet/Dhcp.cpp:295-299 | padding changes nothing |
| DhcpOptions.ParseGoesOnBehindEnd | libraries/Ethernet/Dhcp.cpp:291-374 | on every well-formed area the loop takes in the decoded options and goes on behind the end option, whatever stands there |
| DhcpOptions.ParseIsMeaningOfAllOptions | libraries/Ethernet/Dhcp.cpp:291-374 | it computes the meaning of all options, those behind an end option too |
| DhcpOptions.ChangesNothingIff | libraries/Ethernet/Dhcp.cpp:291-374 | bytes behind the end option change nothing for every client exactly if the client looks at none of their options |
| DhcpOptions.TypeBehindEndIsObeyed | libraries/Ethernet/Dhcp.cpp:291-304 | a message type behind the end option of any well-formed area counts |
| DhcpOptions.MeaningIsLast | libraries/Ethernet/Dhcp.cpp:301-366 | by option number: the last type, mask, lease time, T1 and T2 count, and of the last router and server list the first address |
| DhcpOptions.ServerIsBelieved | libraries/Ethernet/Dhcp.cpp:330-344 | a server identifier is taken exactly if none was known or it comes from the known one |
| DhcpOptions.ServerIsKept | libraries/Ethernet/Dhcp.cpp:330-344 | without one, or when another server is known, the server stays |
| DhcpOptions.TypeIs255Iff | libraries/Ethernet/Dhcp.cpp:291-304 | behind whole options, and perhaps a message type that is cut off, the type is 255 exactly if it is cut off or the last one given is 255 |
| DhcpOptions.DecodeEncoded | libraries/Ethernet/Dhcp.cpp:190-247 | encoding options and decoding them gives the options back |
| DhcpMessage.RoundTrip | libraries/Ethernet/Dhcp.cpp:134-250 | decoding a message gives back transaction id, seconds, flags, hardware address and every option |
| DhcpMessage.OptionArea | libraries/Ethernet/Dhcp.cpp:188-247 | the options start at offset 240 behind the magic cookie |
| DhcpMessage.OptionBytes | libraries/Ethernet/Dhcp.cpp:196-247 | the bytes written are the encoded options and the end option |
| DhcpMessage.HeaderFields | libraries/Ethernet/Dhcp.cpp:148-186 | the fixed fields and where they are |
| DhcpMessage.HostNameTellsMac | libraries/Ethernet/Dhcp.cpp:208-214 | the host name ends in the last three bytes of the hardware address, in hexadecimal |
| LeaseClock.LateIsTrueDelay | libraries/Ethernet/Dhcp.cpp:400-402 | the signed difference of two clock readings is the true delay, wrap or not |
| LeaseClock.CheckInTrueTime | libraries/Ethernet/Dhcp.cpp:400-408 | one call, told in true time |
| LeaseClock.CheckStaysOnTime | libraries/Ethernet/Dhcp.cpp:396-408 | every call before that limit leaves the timeout at the next whole second since the first call |
| LeaseClock.DriftFree | libraries/Ethernet/Dhcp.cpp:392-443 | over every schedule with gaps below 2^31 ms and no call at clock reading 0, the seconds deducted are the whole seconds since the first call, through any number of wraps |
| LeaseClock.CallAtClockZeroLosesNextGap | libraries/Ethernet/Dhcp.cpp:397-397 | a call at clock reading 0 makes the next one start afresh |
| LeaseClock.StaysOnTimeIff | libraries/Ethernet/Dhcp.cpp:396-408 | exactly when a call within a clock period keeps the count on time: less than 2^31 ms past the due second, or, after a call at clock reading 0, at once |
| LeaseClock.DeductsStretches | libraries/Ethernet/Dhcp.cpp:392-443 | for every schedule of such calls, through clock reading 0 too, the seconds deducted are the whole seconds of the stretches between calls at 0 |
| LeaseClock.CountedIsAtMostPassed | libraries/Ethernet/Dhcp.cpp:392-443 | that is never more than the time passed, and all of it without a call at 0 on the way |
| LeaseClock.ClockZeroDrifts | libraries/Ethernet/Dhcp.cpp:396-443 | a call at clock reading 0 loses the gap behind it; the count is right exactly if no whole second ends in it |
| LeaseClock.CallCounts | libraries/Ethernet/Dhcp.cpp:400-408 | what a call at any time counts |
| LeaseClock.CountsRightIff | libraries/Ethernet/Dhcp.cpp:400-408 | it is right exactly if the call is less than 2^31 ms past the due second; from there to 2^32 ms it is nothing |
| LeaseClock.CountdownIsExact | libraries/Ethernet/Dhcp.cpp:410-421 | a countdown stays non-negative, is exact while it runs, and is over after its length |
| LeaseClock.RunsOutBarelyEarly | libraries/Ethernet/Dhcp.cpp:410-416 | it ends early by less than the seconds counted at the last call |
| LeaseClock.RunsOutIff | libraries/Ethernet/Dhcp.cpp:408-421 | a running countdown is over at the next deduction exactly if fewer seconds would be left than were just counted |
| LeaseClock.CallCountsTrue | libraries/Ethernet/Dhcp.cpp:396-421 | one call of a schedule keeps clock and countdown true, and runs the countdown out exactly then |
| LeaseClock.RenewBeforeRebind | libraries/Ethernet/Dhcp.cpp:413-421 | renewal never overtakes rebinding |
| LeaseClock.CountdownTellsTrueTime | libraries/Ethernet/Dhcp.cpp:392-421 | over every schedule a running countdown shows the true whole seconds left |
| LeaseClock.CountdownsStartSoundIff | libraries/Ethernet/Dhcp.cpp:93-107 | the countdowns start sound exactly if T1 <= T2 < 2^31 |
| LeaseClock.DefaultsSoundIff | libraries/Ethernet/Dhcp.cpp:93-107 | the defaults are sound exactly for leases below 2^31 s |
| LeaseClock.DefaultT2IsNotSevenEighths | libraries/Ethernet/Dhcp.cpp:102-105 | the default T2 is the lease rounded down to even |
| LeaseClock.RenewalKeepsOldT1 | libraries/Ethernet/Dhcp.cpp:98-101 | a renewal reuses T1 of the old lease |
| DhcpExchange.ReplyIsUnderstood | libraries/Ethernet/Dhcp.cpp:268-374 | every well-formed reply is taken for the client exactly if operation, port, hardware address and transaction id say so, and its address and options are then learned |
| DhcpExchange.LeasedIff | libraries/Ethernet/Dhcp.cpp:50-121 | a run of passes ends in LEASED exactly if the client waited in REQUEST and found an ACK for it in one of them |
| DhcpExchange.PassAcknowledged | libraries/Ethernet/Dhcp.cpp:85-111 | a pass of a run enters LEASED exactly if it acknowledges, and only the last one can |
| DhcpExchange.LeasedByAck | libraries/Ethernet/Dhcp.cpp:85-111 | the only way into LEASED is an ACK for the client while waiting in REQUEST |
| DhcpExchange.FollowsKeeps | libraries/Ethernet/Dhcp.cpp:58-121 | polls and sent messages only grow; identity and countdown to the rebinding stay; a pass in START or REREQUEST sends a DISCOVER or REQUEST first |
| DhcpExchange.FollowsHolds | libraries/Ethernet/Dhcp.cpp:85-111 | behind the pass that enters LEASED the client holds what the ACK found by its last poll says: addresses, lease times, countdowns |
| DhcpExchange.RunHolds | libraries/Ethernet/Dhcp.cpp:50-121 | an exchange that ends in LEASED ends with exactly the lease an ACK polled in it brought |
| DhcpExchange.RunKeeps | libraries/Ethernet/Dhcp.cpp:50-121 | over a whole exchange: hardware address and initial id stay, and the first message is the DISCOVER or REQUEST its first state asks for |
| DhcpExchange.KeptTells | libraries/Ethernet/Dhcp.cpp:383-443 | what the return code of checkLease is worth: a lease is asked for exactly when a countdown is over in LEASED or START, the message that goes out is the right one, a success is a lease an ACK polled in the call brought, and a renewal without a free socket ends where nothing is due again |
| DhcpExchange.CountsAsSilenceIff | libraries/Ethernet/Dhcp.cpp:301-304 | a reply for the client whose option area is whole options, and perhaps a message type that is cut off, counts as silence exactly if it is cut off or the last type given is 255 |
| DhcpMeaning.HeardIsSaid | libraries/Ethernet/Dhcp.cpp:267-381 | what is learned from a well-formed message: if operation 2, port 67, hardware address and id make it one for the client, the address in it, options 1, 3, 6, 51, 58 and 59 by their last value, and the server of option 54 if none or that one was known; else nothing |
| DhcpMeaning.PassObeys | libraries/Ethernet/Dhcp.cpp:72-119 | a pass that found such a message learns that, and moves by its type: 2 from DISCOVER to REQUEST under its id, 5 to LEASED, 6 and 255 to START, nothing else anywhere |
| DhcpMeaning.RunObeys | libraries/Ethernet/Dhcp.cpp:50-121 | so does every pass of a run |
| DhcpMeaning.SilenceStartsOver | libraries/Ethernet/Dhcp.cpp:113-117 | a wait in which nothing came lasts longer than the response time, starts over, and changes nothing that is known |
| DhcpMeaning.GrantedIsSaid | libraries/Ethernet/Dhcp.cpp:89-107 | a lease that was granted is the one in the ACK: its address, options 1, 3, 6 and 54, its times or 900 s, half of it and twice that half, and both countdowns started |
| DhcpMeaning.HeldIsSaid | libraries/Ethernet/Dhcp.cpp:89-107 | so the client holds what a datagram polled in the call says |
| DhcpMeaning.RebindingStartsAtZero | libraries/Ethernet/Dhcp.cpp:430-433 | a rebinding begins in START with all five addresses zero and all else as it was |
| DhcpMeaning.SecondsAreTrue | libraries/Ethernet/Dhcp.cpp:62-71 | the seconds field is the true time since the exchange began, in 16 bits, through any clock wrap |
| DhcpMeaning.SentIsRead | libraries/Ethernet/Dhcp.cpp:134-250 | a server reads in a message the id, seconds, hardware address and type, and in a REQUEST the address and server the client knows |
| DhcpMeaning.PassWrites | libraries/Ethernet/Dhcp.cpp:58-84 | a pass sends one DISCOVER from START and one REQUEST from REREQUEST, under the next id, and one REQUEST on the way from DISCOVER to REQUEST; otherwise nothing |
| DhcpClient.DhcpClient.ReadFirst | libraries/Ethernet/Dhcp.cpp:311-327 | first address of a list, the rest skipped |
| DhcpClient.DhcpClient.ParseOption | libraries/Ethernet/Dhcp.cpp:293-373 | one pass of the option loop is the specified step |
| DhcpClient.DhcpClient.ParseOptions | libraries/Ethernet/Dhcp.cpp:291-374 | the option loop ends on every byte string with the datagram used up |
| DhcpClient.DhcpClient.AwaitPacket | libraries/Ethernet/Dhcp.cpp:257-266 | the first datagram that is not empty among the polls of the call, one every 50 ms; none exactly if all found nothing and the response time is over, also when the clock wraps |
| DhcpClient.DhcpClient.ReadReply | libraries/Ethernet/Dhcp.cpp:267-381 | a reply is read as specified; one for somebody else changes nothing |
| DhcpClient.DhcpClient.ParseResponse | libraries/Ethernet/Dhcp.cpp:252-381 | the first datagram to come is read as a reply, and its bytes give type and fields; an OFFER, ACK or NAK comes from one for this client with an id in the window; silence gives 255 |
| DhcpClient.DhcpClient.Discovering | libraries/Ethernet/Dhcp.cpp:72-84 | an offer that arrived, and only an offer, is answered by a REQUEST under its id |
| DhcpClient.DhcpClient.Requesting | libraries/Ethernet/Dhcp.cpp:85-111 | the message that arrived decides: ACK gives the lease it says, addresses, times and countdowns; NAK starts over, anything else waits on |
| DhcpClient.DhcpClient.Decide | libraries/Ethernet/Dhcp.cpp:89-111 | what follows a reply in REQUEST: state, lease values and countdowns, with everything else as it was read |
| DhcpClient.DhcpClient.Acknowledge | libraries/Ethernet/Dhcp.cpp:93-107 | lease values and countdowns after an ACK |
| DhcpClient.DhcpClient.Ask | libraries/Ethernet/Dhcp.cpp:58-71 | a pass in START sends a DISCOVER, one in REREQUEST a REQUEST, under the next id, and polls nothing |
| DhcpClient.DhcpClient.Listen | libraries/Ethernet/Dhcp.cpp:72-111 | a pass in DISCOVER or REQUEST waits, and what arrived, or the silence, decides the next state, all that is known, and what is sent |
| DhcpClient.DhcpClient.Pass | libraries/Ethernet/Dhcp.cpp:58-121 | the transition relation of the state machine, over what the polls found: what is sent, which state follows which reply or silence; a 255 never reaches the next pass |
| DhcpClient.DhcpClient.Exchange | libraries/Ethernet/Dhcp.cpp:50-121 | the passes form a run of that relation from the state at the call; success exactly if some wait in REQUEST finds an ACK for this exchange, failure only after the timeout; bounded time, ids that never wrap |
| DhcpClient.DhcpClient.RequestLease | libraries/Ethernet/Dhcp.cpp:36-128 | the same for the whole call, against any packets and timeouts; success means holding the lease that an ACK polled in the call says, in bytes and option numbers; a message goes out if a socket is free, and without one only the transaction id changes |
| DhcpClient.DhcpClient.ResetLease | libraries/Ethernet/Dhcp.cpp:30-33 | all five addresses are zero |
| DhcpClient.DhcpClient.Tick | libraries/Ethernet/Dhcp.cpp:396-437 | the counters lose the seconds counted |
| DhcpClient.DhcpClient.Renew | libraries/Ethernet/Dhcp.cpp:424-427 | a renewal is a request for a lease from REREQUEST |
| DhcpClient.DhcpClient.Rebind | libraries/Ethernet/Dhcp.cpp:430-435 | a rebinding is a request for a lease from START with all addresses zero |
| DhcpClient.DhcpClient.Keep | libraries/Ethernet/Dhcp.cpp:423-435 | the two branches, one after the other: a renewal if it is due, then a rebinding if that is due behind it |
| DhcpClient.DhcpClient.Reduce | libraries/Ethernet/Dhcp.cpp:396-440 | everything but the last assignment: the clock, then the two branches |
| DhcpClient.DhcpClient.CheckLease | libraries/Ethernet/Dhcp.cpp:392-443 | the clock, then the two branches as specified; it asks for a lease exactly if the countdown to the renewal is 0 or below in LEASED, or that to the rebinding in LEASED or START, and never from an exchange left in the middle; a success is a lease that an ACK polled in the call says |
| DhcpClient.DhcpClient.CallAt | libraries/Ethernet/Ethernet.cpp:132-136 | one call of a schedule asks exactly if the renewal is due in true time, and otherwise leaves both countdowns true |
| DhcpClient.DhcpClient.Maintain | libraries/Ethernet/Ethernet.cpp:132-136 | over every schedule of calls, through clock wraps, the first that asks is the first at which fewer true seconds are left to T1 than have gone by since the call before |
| DhcpClient.DhcpClient.SendMessage | libraries/Ethernet/Dhcp.cpp:134-250 | the pieces written are the message |
| DhcpClient.DhcpClient.FillFixed | libraries/Ethernet/Dhcp.cpp:148-170 | the first 28 bytes of the buffer |
| DhcpClient.DhcpClient.WriteZeros | libraries/Ethernet/Dhcp.cpp:180-186 | 192 zero bytes |
| DhcpClient.DhcpClient.FillIdentification | libraries/Ethernet/Dhcp.cpp:188-214 | magic cookie, type, client identifier and host name |
| DhcpClient.DhcpClient.FillAsked | libraries/Ethernet/Dhcp.cpp:219-231 | requested address and server identifier |
| DhcpClient.DhcpClient.PrintByte | libraries/Ethernet/Dhcp.cpp:470-479 | two hexadecimal digits, nothing else changed |
| DnsName.WriteName | libraries/Ethernet/Dns.cpp:215-243 | writes the non-empty labels of the name and the root |
| DnsName.SegmentWritten | libraries/Ethernet/Dns.cpp:219-241 | one segment of the loop, empty ones dropped |
| DnsName.DecodeEncoded | libraries/Ethernet/Dns.cpp:215-243 | a name of short labels decodes to its labels |
| DnsName.LongLabelSpoilsName | libraries/Ethernet/Dns.cpp:231-232 | a label above 63 bytes does not decode |
| DnsName.NameRoundTripIff | libraries/Ethernet/Dns.cpp:215-243 | for every host name: the round trip holds exactly if no label exceeds 63 bytes |
| DnsName.QuestionLoopEndsIff | libraries/Ethernet/Dns.cpp:318-330 | the question loop ends exactly on names complete in the packet |
| DnsName.QuestionSkipsEncoded | libraries/Ethernet/Dns.cpp:318-330 | it stops right behind a name as the client writes it |
| DnsName.AnswerNameSkipped | libraries/Ethernet/Dns.cpp:348-377 | any mix of labels and a compression pointer is skipped exactly |
| InetAton.EverythingLooksNumeric | libraries/Ethernet/Dns.cpp:62-64 | the character test lets everything through |
| InetAton.StoredIs | libraries/Ethernet/Dns.cpp:70-110 | an octet is that of its segment exactly if this and all before it are at most 255, also when the string is refused |
| InetAton.Aton | libraries/Ethernet/Dns.cpp:58-116 | accepts exactly four segments or fewer, none above 255 as a 16-bit value; what it stores, octet by octet, also when it refuses |
| InetAton.ScanOne | libraries/Ethernet/Dns.cpp:76-97 | one character of the scan |
| InetAton.ScanSegments | libraries/Ethernet/Dns.cpp:70-110 | the scan |
| InetAton.DigitsWrap | libraries/Ethernet/Dns.cpp:94-95 | a segment of any number of digits has its decimal value wrapped to a 16-bit int |
| InetAton.SegmentJudgedRightlyIff | libraries/Ethernet/Dns.cpp:76-108 | the comparison with 255 is right exactly if the decimal value is at most 255 or its low 16 bits lie from 256 to 32767 |
| InetAton.AddressJudgedRightlyIff | libraries/Ethernet/Dns.cpp:58-116 | a string of digits and dots is accepted or refused rightly exactly if it is good, or has too many segments, or one is found too large |
| InetAton.AddressRoundTrip | libraries/Ethernet/Dns.cpp:58-116 | every address in dotted notation comes back |
| InetAton.OneLetterIsAnAddress | libraries/Ethernet/Dns.cpp:58-116 | counterexample: a host name of one letter is an address |
| InetAton.SixtyFiveThousandIsZero | libraries/Ethernet/Dns.cpp:94-95 | counterexample: 65536 counts as 0 |
| DnsClient.RecordNameSkipped | libraries/Ethernet/Dns.cpp:345-377 | the cursor is behind the name of a record |
| DnsClient.AnyLength | libraries/Ethernet/Dns.cpp:343-377 | the length variable nobody set before the first record does not matter, for any bytes |
| DnsClient.RecordInBytes | libraries/Ethernet/Dns.cpp:345-394 | the head of a well-formed record is found in the bytes behind its name |
| DnsClient.WalkFindsFirstAddress | libraries/Ethernet/Dns.cpp:343-415 | on well-formed records the walk over the bytes finds the first address record |
| DnsClient.AddressIsWholeIff | libraries/Ethernet/Dns.cpp:396-405 | a record that says A, IN and four bytes is a success however many bytes follow; the address is its own, whatever was there before, exactly if four do |
| DnsClient.MissingAddressIsSuccess | libraries/Ethernet/Dns.cpp:403-405 | counterexample: such a record without an address is a success with the old address |
| DnsClient.FlagBits | libraries/Ethernet/Dns.cpp:288-300 | the response test looks at QR, the error test at TC and the response code, whatever the other fields of the flags say |
| DnsClient.FirstAddressIs | libraries/Ethernet/Dns.cpp:396-405 | the first record of type 1 and class 1 decides, by its length |
| DnsClient.NoAddressIs | libraries/Ethernet/Dns.cpp:416-421 | without one the result is -10 |
| DnsClient.ResultIsIntended | libraries/Ethernet/Dns.cpp:277-421 | on well-formed responses, with flags field by field, the client returns what they say |
| DnsClient.ObeyedIsIntended | libraries/Ethernet/Dns.cpp:277-421 | so does whoever obeys the bytes |
| DnsClient.QuestionsSkipped | libraries/Ethernet/Dns.cpp:313-336 | well-formed questions are complete and skipped exactly |
| DnsClient.HeaderOf | libraries/Ethernet/Dns.cpp:279-310 | header fields of a response |
| DnsClient.QueryRoundTrip | libraries/Ethernet/Dns.cpp:175-252 | the query asks one question, for the labels of the name; the question loop consumes it |
| DnsClient.DnsClient.SendRequest | libraries/Ethernet/Dns.cpp:175-252 | one query under a fresh id |
| DnsClient.DnsClient.SkipLabel | libraries/Ethernet/Dns.cpp:326-329 | skips a label and leaves 255 in the variable |
| DnsClient.DnsClient.SkipQuestionName | libraries/Ethernet/Dns.cpp:317-330 | stops behind a complete name |
| DnsClient.DnsClient.SkipQuestions | libraries/Ethernet/Dns.cpp:313-336 | stops behind the questions |
| DnsClient.DnsClient.SkipAnswerName | libraries/Ethernet/Dns.cpp:346-377 | terminates on every byte string and every initial value of the variable |
| DnsClient.DnsClient.ReadRecordHead | libraries/Ethernet/Dns.cpp:345-394 | type, class and length are those in the bytes behind the name |
| DnsClient.DnsClient.ProcessRecord | libraries/Ethernet/Dns.cpp:343-414 | on any bytes: a record that says A and IN is taken or refused by the length it says, any other is skipped by it |
| DnsClient.DnsClient.ProcessAnswers | libraries/Ethernet/Dns.cpp:343-421 | terminates on every byte string with what the walk over its bytes says; the old address if a record is cut short before its length |
| DnsClient.DnsClient.ProcessBody | libraries/Ethernet/Dns.cpp:277-421 | header errors, questions and answers, by the bytes of any response |
| DnsClient.DnsClient.ProcessResponse | libraries/Ethernet/Dns.cpp:255-422 | judges the first datagram to come: -1 exactly after silence for the timeout, -2 exactly if it is from elsewhere, else what its bytes give |
| DnsClient.DnsClient.GetHostByName | libraries/Ethernet/Dns.cpp:118-173 | numeric names stay off the network; otherwise one query, and what the bytes of the first datagram to arrive give, which for every well-formed answer of the server is what it means; -1 only after three waits of 5 s in which none did |
| Framing.IsComplete | HOST.ino:203-224 | complete exactly if there is an ETX |
| Framing.GetIndex | HOST.ino:241-247 | position of the last such character |
| Framing.GetCommand | HOST.ino:228-257 | moves the command to the front of the buffer and changes nothing behind it |
| Framing.FrameRoundTrip | HOST.ino:228-257 | a frame anywhere in the buffer gives back its command if no frame byte follows |
| Framing.StxIsNotNeeded | HOST.ino:209-218 | counterexample: a frame without STX is accepted |
| ReplyProtocol.PeriodIsOver | Nano_Wiz550io.ino:296-304 | a pass that finds the period over finds it over in true time, wraps included |
| ReplyProtocol.PassSendsIff | Nano_Wiz550io.ino:293-310 | exactly when a pass within a clock period sends: fewer than three count as sent, and more than 1000 ms have passed; behind a wrap only if the period straddles it, and 2 ms later |
| ReplyProtocol.CommandStartsReplies | HOST.ino:388-395 | a command makes the first reply due at once, and two of three count as sent for GETDEVICEINFO |
| ReplyProtocol.PassRemembers | Nano_Wiz550io.ino:293-310 | a pass that sends counts the reply and remembers its time; one that does not still knows the last |
| ReplyProtocol.StepKeepsInv | HOST.ino:93-128 | every command, confirmation and pass keeps the protocol invariant |
| ReplyProtocol.RepliesAreBounded | Nano_Wiz550io.ino:293-310 | over every run at most one reply to GETDEVICEINFO and two otherwise, more than the period apart |
| ReplyProtocol.InitialInv | Nano_Wiz550io.ino:139-143 | the sketch starts in the invariant |
| ReplyProtocol.SilentAfterAckR | HOST.ino:111-115 | nothing is sent after ACK_R before the next command |
| ReplyProtocol.TwoNotThree | Nano_Wiz550io.ino:292-295 | the bound of two is met and the third reply does not come |
| RelayTimer.PollDecides | HOST.ino:400-414 | one poll fires exactly when the timer is due in true time |
| RelayTimer.FiresWhenDue | HOST.ino:398-446 | for every left-over offset and all polls within a clock period it fires at the first that finds it due |
| RelayTimer.FiresAsMeantIff | HOST.ino:398-446 | with a clean offset it fires at the first poll after the delay exactly if that poll comes before the wrap or the deadline straddles it |
| RelayTimer.MissedDeadlineIsLost | HOST.ino:402-407 | a deadline missed before the wrap is lost |
| RelayTimer.StaleWait | HOST.ino:402-407 | the offset a noticed wrap leaves makes the next wait its start reading plus 502 ms |
| RelayTimer.RestartWaits | HOST.ino:163-165 | within a clock round a restarted timer fires exactly after the wait its old offset gives, for every offset |
| RelayTimer.RestartFiresAsMeantIff | HOST.ino:163-165 | at all polls of the round it decides as meant exactly if the offset is clean or the round ends before it could show |
| RelayTimer.RestartAfterWrap | HOST.ino:400-414 | restarted after a noticed wrap it waits for the clock reading of its first start plus 502 ms, too long by up to a clock period unless the first deadline straddled the wrap |
| RelayTimer.HeldForWeeks | HOST.ino:163-165 | a reachable run: still held 2 * 10^9 ms after it was started again |
| GateController.GatesAlwaysAgree | HOST.ino:159-177 | in every reachable state the gate flags hold exactly when their relays are driven LOW |
| GateController.AlwaysCleanWhenIdle | HOST.ino:398-446 | in every reachable state a timer that does not run has no offset left over |
| GateController.UpIsReleasedWhenDue | HOST.ino:398-414 | over any polls of the relay block, the gate-up relay is released exactly at the first that finds it due |
| GateController.DownIsReleasedWhenDue | HOST.ino:415-430 | so is the gate-down relay while gate up does not run |
| GateController.TriggerIsReleasedWhenDue | HOST.ino:431-446 | so is the trigger relay while neither gate runs |
| GateController.IdleTimersFireAsMeantIff | HOST.ino:398-446 | in every reachable state a command to an idle relay drives it LOW, and over any polls of the relay block it is HIGH again exactly from the first poll after the delay on, exactly if the deadline is polled before the wrap or lies beyond it; gate down needs gate up idle, the trigger both |
| GateController.TriggerAgreesIff | Nano_Wiz550io.ino:184-190 | the trigger flag agrees exactly from the first GETFRAME on |
| GateController.GateUpStarvesGateDown | HOST.ino:398-416 | while gate-up is timed gate-down is not served |
| GateController.CommandIsUnderstood | HOST.ino:99-198 | each of the six command words in a frame, behind bytes other than zero and with nothing behind it, is understood as that command |
| GateController.AckIsUnderstood | HOST.ino:111-115 | an ACK_R is understood whatever follows it in its frame |
| GateController.SettingsAreSavedIff | HOST.ino:131-158 | a command is a setting exactly if it begins with NO, MC, LI, SM, GW, DS, RH or RP |
| GateController.CommandsDrivePins | HOST.ino:159-198 | GATE UP, GATE DOWN and GETFRAME drive their pin LOW and start their timer, POWER ON drives both supplies LOW and POWER OFF HIGH; nothing else changes, and no other command does anything to relays |
| GateController.ReactIsStep | HOST.ino:102-124 | the reply variables take a step of the reply protocol |
| GateController.GateController.constructor | Nano_Wiz550io.ino:154-196 | the state at power-up |
| GateController.GateController.ProcPacket | HOST.ino:93-128 | a complete packet drives replies and relays and saves settings as its command says, and leaves the buffers clear; an incomplete one does nothing |
| GateController.GateController.Dispatch | HOST.ino:102-124 | the three kinds of command |
| GateController.GateController.CommandProc | HOST.ino:131-200 | the effect of every command on the relays |
| GateController.GateController.ReplyInit | HOST.ino:388-395 | the reply variables after a command |
| GateController.GateController.SendReply | HOST.ino:361-385 | sends below the limit, otherwise gives up |
| GateController.GateController.ReplyBlock | Nano_Wiz550io.ino:293-310 | one pass of the loop is one protocol step |
| GateController.GateController.PollTimer | HOST.ino:402-414 | one timer of the relay block |
| GateController.GateController.RelayBlock | HOST.ino:398-446 | serves one running timer, gate up first |
| GateController.GateController.ClearBuffer | HOST.ino:353-358 | all bytes are zero |
| SocketTable.BeginKeepsOneListenerIff | libraries/Ethernet/EthernetServer.cpp:16-27 | begin keeps the invariant exactly if nobody listens for the port or no socket is free |
| SocketTable.AcceptingIs | libraries/Ethernet/EthernetServer.cpp:29-49 | left alone, in plain statuses: accept closes and unregisters exactly what is half closed, of the port and without data, leaves the rest alone, and opens the lowest closed socket only if none was listening |
| SocketTable.AcceptListensIff | libraries/Ethernet/EthernetServer.cpp:29-49 | left alone, accept ends with a listener exactly if there was one, or a socket was closed, or one of the port was half closed and without data |
| SocketTable.ListenerTakenDuringScan | libraries/Ethernet/EthernetServer.cpp:29-49 | counterexample: a listener seen by the scan and then taken by the chip leaves none, although a socket is closed |
| SocketTable.RefusalsExhaustSockets | libraries/Ethernet/EthernetClient.cpp:56-59 | refused connects leave no socket after as many calls as there are sockets |
| SocketTable.TakenSocketIsServedIff | libraries/Ethernet/EthernetClient.cpp:42-48 | a client on a socket registered for a server port is handed out by that server exactly if it has data and no lower socket of the port has |
| SocketTable.SocketTable.Elapse | libraries/Ethernet/EthernetServer.cpp:33-36 | whatever the chip does between two accesses keeps the invariant |
| SocketTable.SocketTable.Socket | libraries/Ethernet/utility/socket.cpp:10-30 | the socket is open or gone, never listening; open if the chip takes none out of INIT |
| SocketTable.SocketTable.Listen | libraries/Ethernet/utility/socket.cpp:47-53 | listens from INIT if the chip takes none out of LISTEN or INIT; left alone, exactly from INIT |
| SocketTable.SocketTable.Begin | libraries/Ethernet/EthernetServer.cpp:16-27 | keeps one listener per port under every interleaving; with a closed socket it ends with a listener, if the chip takes none away; left alone, opens the first closed socket |
| SocketTable.SocketTable.Stop | libraries/Ethernet/EthernetClient.cpp:127-145 | the socket ends closed and unregistered, no listener appears |
| SocketTable.SocketTable.Sweep | libraries/Ethernet/EthernetServer.cpp:31-45 | under every interleaving it sees only listeners there were, all of them if the chip takes none away; it gives up a socket only if it was read as half closed and then without data; its exact outcome against any chip that closes none |
| SocketTable.SocketTable.Inspect | libraries/Ethernet/EthernetServer.cpp:34-44 | one socket of the scan |
| SocketTable.SocketTable.Reclaim | libraries/Ethernet/EthernetServer.cpp:40-42 | a socket without data is stopped, one with data is left alone |
| SocketTable.SocketTable.Accept | libraries/Ethernet/EthernetServer.cpp:29-49 | keeps one listener per port under every interleaving; ends with one whenever one was listening or a socket was closed, if the chip takes none out of LISTEN or INIT; gives up a socket only if it was read as half closed and then without data, and takes one only if it was read as closed; left alone, does what is specified |
| SocketTable.SocketTable.NextClient | libraries/Ethernet/EthernetServer.cpp:51-68 | a socket of the port that was seen connected during the call, with data after that; left alone, the first that is established or half closed and has data |
| SocketTable.SocketTable.StartConnect | libraries/Ethernet/EthernetClient.cpp:38-59 | under every interleaving a socket not behind the first closed one; left alone, the first that is closed, in FIN_WAIT or half closed; a refused address leaves it open |

## Left out

* SPI transfers, pins, `delay`, `Serial`, interrupts and EEPROM: hardware input and output. Clocks, random numbers, arrivals and status bits are parameters.
* `recvfrom`, `sendto`, `igmpsend` and `disconnect`: not used by the layers above, or one command.
* `Ethernet.cpp` and the setters and getters of address registers: straight copies.
* `EthernetUDP::begin` and `stop`: the choice of a socket; a socket is given.
* `EthernetClient::connect` from the CONNECT command on: waits for the chip.
* `HostProc`, `CDS.ino`, `Shock.ino`, `Buzzer.ino`, `EEPROM.ino`, `Twitter.cpp`, the examples, and the text of replies: blocking calls, formatting, or the same timer again.
* `IPAddress.h` is not part of this model; its INADDR_NONE is taken as 0.0.0.0.
- PacketReader.Reader: the DHCP and DNS clients are proved over it, so that a read that fails because a datagram arrives while fewer than 256 bytes are waiting is modelled for `EthernetUdp` only.
- SizeRegister.ReadStable: a 16-bit variable of the loop is kept as its two bytes; the register is one that only rises during the call, as RSR and FSR do between two commands.
- SocketDriver.Socket.SendUdp: requires that the chip raises SEND_OK or TIMEOUT some time; otherwise the loop of the library does not end. Status bits are functions of the poll number.
- TcpSend.Send: requires that the transmit ring empties or the connection ends, and that SEND_OK or CLOSED shows some time; otherwise its loops do not end.
- SoftwareWrap.Driver.SendDataProcessingOffset: lengths up to the ring size 2048, which the socket layer never exceeds; so do `ReadData` and `RecvDataProcessing`.
- DhcpExchange.Environment.constructor: every pass of the request loop takes at least one millisecond and at most `longest`, and random numbers are those `random(1, 2000)` yields.
- DhcpClient.DhcpClient.RequestLease: the timeouts together stay below 2^32 ms, and sending takes no time; the 34 bytes of a short reply that are not received are the arbitrary constant `stack`.
- DhcpClient.DhcpClient.SendMessage: the packet goes to an outbox as the concatenation of its writes, which is what `EthernetUdp.EthernetUdp.Write` and `EndPacket` make of them.
- DnsClient.DnsClient.ReadRecordHead: of a record cut short before the end of its length field, type, class and length are arbitrary; the library goes by what its variables held.
- DnsClient.DnsClient.ProcessResponse: requires that the question section of a datagram that passes the header checks is complete in it; `DnsName.QuestionLoopEndsIff` says that the library does not return otherwise. So do `ProcessBody`, `SkipQuestions`, `SkipQuestionName` and `GetHostByName`.
- InetAton.Accumulate: 16-bit signed overflow, undefined in C++, wraps as on the target.
- Framing.CommandIn: `strlen` of a full 24-byte buffer runs into the memory behind it, which is the parameter `beyond`.
- GateController.GateController.CommandProc: settings commands are recorded, not stored. The received buffer is a value of its own for every packet.
- SocketTable.SocketTable.Stop: the time limit is counted in milliseconds slept.
