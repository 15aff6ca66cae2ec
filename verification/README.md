# Verified model of the VPN packet path

A Dafny 4.11 model of the parts of a UDP/WebSocket/HTTP VPN where packets, shared maps and counters meet: how a client
packet is built and wrapped, how the server tells transports apart, decides whether a packet is a replay, accounts for
it, and keeps its registry of peers in memory and on disk in step. Smaller parts are the ping-loss ring, the fallback
between transports, the masking of QUIC-style headers, a rate limiter, a base64url codec and a CIDR aggregation loop.

`dafny verify dfyconfig.toml` checks everything.

## How it is organised

Code that changes state is a class or a loop over an array, tied by its postcondition to a function on values; the
theorems are about those functions, about runs of them, and about state machines of atomic steps where goroutines
interleave.

| module | content |
|---|---|
| `Bytes` | bytes, 16/32/64-bit words as bounded integers, big-endian fields, exclusive or |
| `Fnv`, `BloomFilter` | the FNV-1a hashes modulo 2^19 and the 8192-word replay filter |
| `Cipher`, `Demux`, `Xhttp`, `XhttpArrival` | packet format, the client's wrappers and the server's readers, batched HTTP bodies and what arrives of them |
| `Pipeline`, `PacketServer` | what one packet does to the server, on values and in place; runs of packets and resets |
| `Acceptance`, `Failures`, `ReplyPath` | which packets are taken, what comes of the others and what each leaves behind; panics and locks never released; where replies go |
| `Delivery` | client and server together: what becomes of a genuine packet and of everything that repeats its nonce |
| `ReplayRuns`, `ResetRace` | the same steps interleaved between goroutines |
| `Registry`, `RegistryRuns` | the two peer maps, loading and saving, and concurrent panel requests |
| `EchoRing`, `Fallback`, `QuicHeader`, `ConnectionIDs`, `RateLimiter`, `Base64Url`, `CidrAggregation`, `CidrText` | the smaller parts |

AES-GCM, HMAC, SHA-256 and the AES block are function parameters; of the first two only what NIST SP 800-38D, section 7,
and RFC 2104, section 2, guarantee is used (`Primitives.Lawful`): opening undoes sealing, and the lengths of tags and codes. Clock readings,
random draws, answers of the socket, the TUN device and the disk are parameters as well, so every theorem holds for all of
them.

## Where code, documentation and expectation part

The model follows the code. Each point below is a theorem or a visible branch of it.

- Raw UDP: a packet whose first marker byte is below 0x80 and whose next two bytes are zero is taken for a QUIC-prefixed
  one. Delivery is proved to hold exactly otherwise (`Demux.RawUdpDelivered`), with a lawful instance in which no packet
  gets through (`Demux.RawUdpCanMisroute`). The 65535-byte receive buffer also cuts off longer datagrams.
- QUIC header: decoding does not in general undo encoding. Encoder and decoder derive their masks from different samples,
  and the encoder's `append(key[:8], ...)` overwrites bytes 8 and 9 of its copy of the key before the AES key is set up.
  `QuicHeader.RoundTripExactly` states when the round trip holds; `QuicHeader.RoundTripUnderIdentity` works it out for one
  permutation of the blocks, where packet number 1 with three payload bytes fails and 256 does not.
- The ConnectionID is masked with a hash of the key and of the ShortID itself. The mask gives the ShortID back
  (`QuicHeader.ConnectionIDExactly`), the key alone does not: it leaves all ShortIDs with the same ConnectionID
  (`QuicHeader.CandidateFits`), and there can be several (`ConnectionIDs.ConnectionIDsCollide`).
- Filter reset: the words are cleared under a lock, the counter is zeroed after it. With packet and reset each taken as one
  step the counter bounds the bits (`Pipeline.FilterBudget`). With the two steps apart it covers the insertions exactly when
  no more increments land between them than were owed at the clearing (`ResetRace.CoversInsertionsExactly`);
  `ResetRace.BudgetLost` is a run where more do.
- XHTTP batches: `flush` empties the batch and then drops the body when the POST fails, and bodies are handled by
  concurrent goroutines. Order and completeness hold exactly when every body arrives and the handlers run one after the
  other (`XhttpArrival.InOrderExactly`); `XhttpArrival.LostBody` and `XhttpArrival.BodiesSwapped` are runs where they fail.
- Start-up accepts two users with the same IP. The maps are then not inverses (`Registry.DuplicateIPLoads`); they are
  exactly when the IPs are distinct (`Registry.LoadedInverse`).
- Decrypt checks the length prefix in `int` and slices in `uint16`. A prefix of 65534 or 65535 that fits the opened text
  wraps the slice bound and panics (`Cipher.PanicsExactly`). It takes an authentic packet of at least 65570 bytes: too long
  for UDP (`Demux.UdpNeverPanics`), not for WebSocket and XHTTP, which set no limit. Encrypt makes none.
- A panic in `processPacket` is on the main goroutine and ends the process. Over XHTTP and in the TUN reader it ends a
  goroutine and leaves `cpMu` locked, so that the next packet for that peer blocks the main loop for ever. Users created at
  run time, who have no cipher context, are another cause. When it happens is stated exactly (`Failures.CrashesExactly`,
  `XhttpCrashesExactly`, `HangsExactly`, `ReadyFailsExactly`); with peers loaded at start-up, packets under 65570 bytes never
  fail (`Failures.ShortNeverFails`), and `Delivery.OverlongTakesDown` is one that does.
- Start-up refuses a configuration without users. After the panel has deleted the last one, everything is saved, and the
  server does not start again (`RegistryRuns.LastUserDeleted`).
- `processPacket` takes over the writer before any check: a packet that is then refused still turns the peer's replies to
  where it came from (`ReplyPath.PathIsLastArrival`).
- XHTTP inserts into the filter before it decrypts, counts no drops, and counts traffic even when the TUN write failed.
- 02_NETWORK_CRYPTO.md describes larger server padding profiles and a nonce-only marker; the code pads 0 to 40 bytes on both
  sides and authenticates DynamicID and nonce.
- The rate limiter's bound needs a clock that does not go back between requests of one IP; `Date.now()` may. Every step
  back, however small, has a run with 399 acceptances in one minute (`RateLimiter.StepBackBreaksLimit`).
- The CIDR list is split at spaces only. No address is lost, whatever the entries, exactly when every separator has a space
  in it (`CidrText.SafeExactly`); of two /24 on two lines the second is lost (`CidrText.LostBehindNewline`).
- The base64url decoder restores padding by a length that counts white space, which atob then skips
  (`Base64Url.WhiteSpaceExactly`).

## Model

| member | source | states |
|---|---|---|
| Fnv.Fnv1a64 | protocol/cipher.go:60-67 | the loop computes the seeded 64-bit FNV-1a hash the theorems below speak of |
| Fnv.Fnv1a16 | protocol/cipher.go:51-58 | the loop computes the low 16 bits of the unseeded hash |
| Bytes.BigEndian | protocol/cipher.go:144-158 | the 16- and 32-bit fields hold a number, most significant byte first |
| Bytes.XorBitwise | protocol/cipher.go:62-64 | exclusive or, bit by bit |
| Fnv.HashOfEmpty | protocol/cipher.go:60-61 | the empty string hashes to the offset basis under the seed |
| Fnv.HashOfMore | protocol/cipher.go:62-65 | one byte more is an exclusive or and a multiplication by the prime modulo 2^64 |
| Fnv.ShortIsLow | protocol/cipher.go:51-58 | the 16-bit hash is the low bits of the unseeded one |
| Fnv.RoundOnLow19 | protocol/cipher.go:62-65 | a round sends two words to the same value modulo 2^19 exactly when they agreed modulo 2^19 |
| Fnv.IndexInjectiveInSeed | server/server.go:125-130 | for every key, two seeds give the same filter index exactly when the seeds agree modulo 2^19 |
| Fnv.IndexOntoInSeed | server/server.go:125-130 | for every key, every index is reached by some seed: index is a bijection of the seed |
| BloomFilter.BloomKeyInjective | server/server.go:115-120 | two filter keys are equal exactly when ShortID and nonce are |
| BloomFilter.BloomKeyLayout | server/server.go:115-120 | a filter key is the ShortID, most significant byte first, and the nonce |
| BloomFilter.ThreeIndices | server/server.go:124-130 | the three seeds and the size of the filter |
| BloomFilter.ThreeDistinctBits | server/server.go:140-144 | every key addresses exactly three different bits inside the filter |
| BloomFilter.Bloom.Check | server/server.go:122-135 | true exactly when not all bits of the key are set |
| BloomFilter.Bloom.Set | server/server.go:137-145 | adds exactly the bits of the key, keeps all others |
| BloomFilter.Bloom.Reset | server/server.go:690-692 | clears every bit |
| Cipher.UnpaddedInner | protocol/cipher.go:262-269 | the length prefix recovers the data whatever the padding, exactly up to 65533 bytes; beyond, the slice panics |
| Cipher.OpenedPacket | protocol/cipher.go:218-270 | a packet in Encrypt's format opens to its plaintext for every key, ShortID, salt, nonce and padding, exactly up to 65533 bytes; beyond, Decrypt panics |
| Cipher.FaultsExactly | protocol/cipher.go:234-268 | each fault of Decrypt has its own cause, told by the marker, by what AES-GCM opens and by the length prefix |
| Cipher.OpensExactly | protocol/cipher.go:218-270 | Decrypt gives data exactly for an authentic packet that AES-GCM opens to a text whose prefix fits, and gives the bytes the prefix counts |
| Cipher.PacketLayout | protocol/cipher.go:166-185 | marker, masked ShortID, nonce and ciphertext, byte by byte |
| Cipher.InnerLayout | protocol/cipher.go:153-164 | length, data and padding, byte by byte |
| Cipher.RoutedLayout | server/server.go:513-516 | which bytes of a packet give the ShortID |
| Cipher.PanicsExactly | protocol/cipher.go:265-268 | Decrypt panics exactly on an authentic packet whose length prefix is at least 65534 and fits; such a packet has at least 65570 bytes |
| Cipher.RoutedPacket | server/server.go:513-516 | the ShortID recovered from DynamicID and nonce is the sender's |
| Cipher.MarkerIsBinding | protocol/cipher.go:238-253 | with another marker an accepted packet stays accepted if only bit 6 of its first byte changed, and else fails as HMAC mismatch |
| Cipher.NonceHoldsCounter | protocol/cipher.go:142-145 | the counter can be read back from the nonce |
| Cipher.NonceLayout | protocol/cipher.go:142-145 | eight bytes of counter, four of PRNG output |
| Cipher.NoncesNeverRepeat | protocol/cipher.go:142-145 | no two of 2^64 consecutive nonces of a context are equal, whatever the PRNG draws |
| Cipher.CipherPack.Encrypt | protocol/cipher.go:142-185 | advances the counter by one modulo 2^64 and returns the packet of the format for the new nonce |
| Cipher.CipherPack.Decrypt | protocol/cipher.go:234-269 | returns data, the particular fault, or the panic of the slice expression, exactly as `Opened` says |
| Demux.QuicUdpConn.Write | core/transport.go:226-240 | one prefixed datagram per call, counter advanced, count never more than the payload |
| Demux.FrameFields | core/transport.go:226-233 | every byte of the seven-byte prefix |
| Demux.RoutesExactly | server/server.go:594-637 | what the UDP and message readers make of any datagram and any message |
| Demux.QuicPrefixDelivered | server/server.go:602-618 | a prefixed packet arrives unchanged under the sender's ShortID exactly when the datagram fits the buffer |
| Demux.RawUdpDelivered | server/server.go:602-636 | a raw packet arrives so exactly when it fits and its marker does not look like a prefix |
| Demux.RawUdpCanMisroute | server/server.go:602-618 | lawful primitives exist under which every raw packet is misread |
| Demux.UdpNeverPanics | server/server.go:594-637 | no packet that comes by UDP is long enough for the panic in Decrypt |
| Demux.EndToEnd | server/server.go:511-526 | over each transport an encrypted packet arrives unchanged under its ShortID exactly when that transport does not mangle it, and opens to its plaintext; over XHTTP it is carried in a body among others, and is lost exactly behind a packet under 18 bytes |
| Xhttp.BodyLayout | core/transport.go:311-337 | count and lengths in four bytes each, most significant first, frames in order |
| Xhttp.GoodPartExactly | server/server.go:338-340 | short is under 18 bytes |
| Xhttp.FlushAtFiveHundred | core/transport.go:311-323 | the writer that brings the batch to 500 packets or more owes a flush, no other does |
| Xhttp.YieldsExactly | server/server.go:332-343 | a packet in a batch is handled exactly when none before it is under 18 bytes |
| Xhttp.ServeBody | server/server.go:314-346 | on any body: stays in bounds, ends, and handles the frames up to the count or the first that is short or does not fit |
| Xhttp.ServedIsUnique | server/server.go:332-343 | a body determines the packets handled |
| Xhttp.ServedBatch | server/server.go:319-343 | of a printed batch exactly the longest prefix without a packet under 18 bytes is handled |
| Xhttp.NothingLost | core/transport.go:305-340 | in every interleaving of writers and flushers, bodies followed by the batch are the accepted packets in order, each body with its count |
| Xhttp.BatchBounded | core/transport.go:318-324 | a batch stays below 500 plus the number of writers that owe a flush |
| Xhttp.CountsFit | core/transport.go:334-339 | with at most 2^32 - 500 writers every count field is the number of frames of its body |
| XhttpArrival.BatchesDelivered | core/transport.go:311-347 | in every interleaving of writers, flushers and handlers, with any bodies lost: the bodies yield the accepted packets; each is handled at most once, those of one body in order, and as many as its handler has had turns |
| XhttpArrival.InOrderExactly | core/transport.go:337-347 | all packets are handled in the order of Write exactly when all bodies arrive and are handled one after the other as handed off |
| XhttpArrival.LostBody | core/transport.go:338-346 | a run in which an accepted packet is neither waiting nor handled |
| XhttpArrival.BodiesSwapped | core/transport.go:340-343 | two bodies whose packets are handled in the other order |
| Xhttp.XhttpConn.Write | core/transport.go:305-326 | refuses when closed; else one append, and a flush at 500 |
| Xhttp.XhttpConn.FlushSection | core/transport.go:328-340 | hands off the whole batch with its count, or nothing when empty |
| Pipeline.RealHostLawful | server/server.go:122-145 | the server's own hashes meet what the run theorems ask of an index function |
| Pipeline.DropsConserved | server/server.go:148-164 | cause by cause, drops of a run = drops reported + drops pending |
| Pipeline.PacketsConserved | server/server.go:192-301 | every packet is counted once: reported, pending, keep-alive, TUN failure, delivery, or the crash or hang that is the main loop's last |
| Pipeline.TrafficConserved | server/server.go:294-301 | each peer's CumRx grows by exactly the bytes delivered for it, ByteIn holds those since the panel last zeroed it |
| Pipeline.FilterContents | server/server.go:243-247 | the filter holds exactly the bits inserted since the last reset, the counter counts them; packets that fail leave both alone |
| Pipeline.FilterBudget | server/server.go:673-695 | never more than 3 bits per counted insertion; below half full up to 85000 |
| Acceptance.ProcessAccepts | server/server.go:192-301 | processPacket takes a packet exactly when its peer is registered and free, the filter lets it through and Decrypt gives data; the data decide the outcome, and filter, counters, last-seen time and books are as stated |
| Acceptance.ProcessRefuses | server/server.go:192-241 | any other packet leaves the filter and, its reply path apart, every peer as they were |
| Acceptance.RefusalsExactly | server/server.go:196-241 | unknown peer, held lock, replay, HMAC mismatch or another fault: each outcome has its cause |
| Acceptance.CountersRaised | server/server.go:197-239 | which of the four drop counters a packet raises |
| Acceptance.ReportsExactly | server/server.go:148-164 | a drop is counted, or a minute after the last report goes with those pending into one line; other packets leave the books alone |
| Acceptance.XhttpAccepts | server/server.go:362-413 | xhttpProcessPacket takes a packet exactly when it has 18 bytes and the same conditions hold; its data decide the outcome and are credited |
| Acceptance.XhttpRefuses | server/server.go:362-393 | otherwise no peer changes, but for the lock a crash leaves held |
| Acceptance.XhttpRefusalsExactly | server/server.go:362-393 | each refusal has its cause, and what any packet does to filter and books |
| Acceptance.SentExactly | server/server.go:720-753 | the TUN reader sends exactly for a peer with a writer, a free lock and a context, if the buffer holds the packet |
| Acceptance.LastSeenIsLastTaken | server/server.go:248 | after any run a peer was last seen when processPacket last took a packet of it |
| PacketServer.DropCounters.LogDrops | server/server.go:148-164 | at most once a minute the counters are reported and zeroed |
| PacketServer.Server.ProcessPacket | server/server.go:192-301 | in place: the new state and outcome, crashes and hangs included, are those of `Process`; one nonce is used and an openable echo sent for a keep-alive with a writer |
| PacketServer.Server.XhttpProcessPacket | server/server.go:362-413 | in place: the new state and outcome, locks left behind included, are those of `ProcessXhttp`; a keep-alive gets an openable answer |
| PacketServer.Server.ReadTun | server/server.go:720-753 | a packet for an address goes, encrypted and openable, to the peer registered under it, or there is no writer, or the reader waits or panics with the lock held, as `TunStep` says |
| PacketServer.Server.Echo | server/server.go:267-280 | the echo opens to its one byte, is routed to the peer, and changes nothing but the nonce counter |
| PacketServer.Server.ResetFilter | server/server.go:688-695 | no bit and no count is left, all else stays |
| PacketServer.Server.HandleReset | server/webpanel.go:417-426 | every ByteIn is zero, all else stays |
| PacketServer.Server.LoadPeers | server/server.go:430-461 | fails as `StartUp` does (server/server.go:181-183 included) or builds its registry of untouched peers, each under its own key and nonce offset; the object maps are inverses exactly when IPs are distinct |
| PacketServer.Server.CreateUser | server/webpanel.go:193-223 | reply and registry are those of `CreateIn`, the maps stay inverses, the one new peer has no cipher context, the others are the same objects |
| PacketServer.Server.DeleteUser | server/webpanel.go:271-283 | reply and registry are those of `DeleteIn`, the maps stay inverses |
| PacketServer.Server.SaveConfig | server/webpanel.go:365-392 | lists every registered user once, strictly sorted by ShortID, and writes that list |
| PacketServer.SortByID | server/webpanel.go:381 | strictly sorted, same users |
| Delivery.GenuinePacket | server/server.go:208-301 | a packet under a client's key is refused exactly when the filter already holds its three bits, else its data is delivered (or is a keep-alive, or meets a failing TUN), or crashes the server from 65534 bytes on |
| Delivery.GenuineXhttpPacket | server/server.go:362-413 | the same over XHTTP, where a failing TUN does not show |
| Delivery.OverlongTakesDown | protocol/cipher.go:265-268 | a ready server taken down by one authentic packet of 65570 bytes |
| Delivery.EmptyFilterTakes | server/server.go:688-695 | right after a reset every genuine packet is taken |
| Delivery.NeverAgain | server/server.go:225-247 | once a ShortID and nonce are in the filter, neither entry point takes them again until a reset, whatever runs in between; a server ready at that time refuses them as a replay |
| Failures.NothingAfterTheEnd | server/server.go:761-763 | after a crash in processPacket nothing happens, after a hang the main loop takes no packet |
| Failures.CrashesExactly | server/server.go:218-230 | processPacket crashes exactly for a registered peer with a free lock, on a packet the filter lets through, without cipher context or with an overlong text |
| Failures.XhttpCrashesExactly | server/server.go:379-390 | the same for xhttpProcessPacket |
| Failures.HeldExactly | server/server.go:388-390 | a peer's lock is held for ever exactly when it was at the start or a panic over XHTTP or in the TUN reader has left it |
| Failures.HangsExactly | server/server.go:218-219 | while the main loop serves, the next packet for a peer hangs it exactly when such a panic has happened |
| Failures.ReadyFailsExactly | server/server.go:430-461 | with peers loaded at start-up a run goes without crash, hang and unhandled event exactly when no event brings an overlong text the filter lets through, or a TUN packet Encrypt's buffer cannot hold |
| Failures.ShortNeverFails | server/server.go:430-461 | hence packets under 65570 bytes, and TUN packets that fit, never fail |
| Failures.UdpIsShort | server/server.go:594-637 | whatever comes by UDP is that short |
| ReplyPath.PathIsLastArrival | server/server.go:203-212 | after any run replies go where the last packet under the peer's ShortID came from |
| ReplayRuns.AtMostOnceBetweenResets | server/server.go:208-258 | in every interleaving of lock, check, decrypt, set, unlock, resets and foreign insertions no (ShortID, nonce) is accepted twice between resets |
| ReplayRuns.AloneIsProcess | server/server.go:208-258 | run without interference, those steps are `Process`, and keep the lock exactly where it crashes |
| ResetRace.CoversInsertionsExactly | server/server.go:688-695 | between resets, counted and owed increments cover the insertions exactly when no more landed late than were owed at the clearing |
| ResetRace.CoversBitsExactly | server/server.go:688-695 | then they bound the bits, and where no two keys share a bit only then |
| ResetRace.CoversDuringReset | server/server.go:688-695 | during a reset, owed and late increments bound the bits |
| ResetRace.BudgetLost | server/server.go:688-695 | one insertion between the steps leaves three bits uncounted, for every key |
| ResetRace.BudgetKept | server/server.go:688-695 | an increment between them does no harm when it was owed before the clearing |
| Registry.CreatesExactly | server/webpanel.go:193-222 | when each reply comes; after Created the record is found as given under ShortID and IP, and nothing else has changed |
| Registry.DeletesExactly | server/webpanel.go:271-282 | when each reply comes; after Deleted exactly the user's two entries are gone |
| Registry.RequestsKeepInverse | server/webpanel.go:199-223 | requests keep the maps inverse; delete undoes create |
| Registry.LoadSucceeds | server/server.go:451-459 | loading succeeds exactly on non-zero distinct ShortIDs and registers exactly the listed users |
| Registry.LoadFailsAtFirst | server/server.go:451-456 | the error names the fault of the first bad user |
| Registry.LastListedWins | server/server.go:458 | of users that share an IP the last one is found under it |
| Registry.LoadedInverse | server/server.go:454-459 | the loaded maps are inverses exactly when the IPs are distinct |
| Registry.DuplicateIPLoads | server/server.go:454-459 | any two users sharing an IP load and break the correspondence |
| Registry.ListIsUnique | server/webpanel.go:369-382 | the registry determines the saved list |
| Registry.SavedListLoads | server/webpanel.go:369-382 | loading a saved list rebuilds the registry; start-up accepts it exactly when a user is left |
| RegistryRuns.MapsStayInverse | server/webpanel.go:199-223 | in every interleaving of requests from a start-up with distinct IDs and IPs the maps are inverses |
| RegistryRuns.RefusedNeverSaves | server/webpanel.go:193-213 | a refused request changes nothing and never comes to save |
| RegistryRuns.DiskAgreesAtRest | server/webpanel.go:365-392 | whenever no request is between update and save and the last write succeeded, the disk holds the registry, and a restart rebuilds it exactly when a user is left |
| RegistryRuns.LastUserDeleted | server/server.go:181-183 | from any one configured user: deleted, saved, at rest, and the restart is refused |
| RegistryRuns.DiskLagsBehindUpdate | server/webpanel.go:221-227 | from a start with one user: between update and save of another the disk lags behind |
| EchoRing.RingRefinesCounter | core/vpn.go:272-289 | after any run the ring in age order is the last hundred pushes, all but the youngest `Counter` acknowledged |
| EchoRing.AckedFormPrefix | core/vpn.go:279-289 | among used slots in age order the acknowledged ones come first |
| EchoRing.WaitingIsCounter | core/vpn.go:272-289 | the unacknowledged slots number a counter up on push, down on ack, clipped to 0..100 |
| EchoRing.LossExactly | core/vpn.go:291-310 | after any run total is the number of the last hundred pushes at most 30 s old, and lost that of the youngest `Counter` pushes over 10 s and at most 30 s old |
| EchoRing.LossOfRun | core/vpn.go:291-315 | for every run lost <= total <= 100, and lost is at most that counter |
| EchoRing.LossIgnoresPosition | core/vpn.go:298-310 | counting in array order equals counting in age order |
| EchoRing.Ring.EchoPush | core/vpn.go:272-277 | drops the oldest slot and appends the new one |
| EchoRing.Ring.EchoAck | core/vpn.go:279-289 | marks the oldest waiting slot and no other |
| EchoRing.Ring.EchoCalcLoss | core/vpn.go:291-315 | the percentage lost/total of the window, in 0..100 |
| EchoRing.Ring.EchoReset | core/vpn.go:317-322 | back to the empty ring |
| QuicHeader.ProtectionIsInvolution | protocol/quic.go:58-66 | for any mask the protection pass undoes itself on every packet |
| QuicHeader.ProtectionKeepsForm | protocol/quic.go:58-66 | it keeps the top three bits of byte 0 and the ConnectionID |
| QuicHeader.RoundTripExactly | protocol/quic.go:79-120 | decode after encode never fails and returns payload and packet number exactly when the masks agree where used |
| QuicHeader.RoundTripOfLongPayload | protocol/quic.go:79-120 | from five payload bytes on, exactly when the masks are equal |
| QuicHeader.RoundTripUnderIdentity | protocol/quic.go:51-66 | for one permutation of the blocks: exactly on packet numbers divisible by 256 or payloads under three bytes |
| QuicHeader.FirstByteExactly | protocol/quic.go:30-34 | bits 01, spin parity, key phase, zeros |
| QuicHeader.SentComesBack | protocol/quic.go:29-69 | the round trip for the packet Encode builds: never an error, exact exactly when the masks agree, from five bytes on when they are equal |
| QuicHeader.SentUnderIdentity | protocol/quic.go:29-69 | the same for that permutation of the blocks |
| QuicHeader.ConnectionIDExactly | protocol/quic.go:40-45 | bytes 1 to 4 of an encoded packet; with its mask the ConnectionID gives the ShortID back |
| QuicHeader.CandidateFits | protocol/quic.go:40-45 | a ShortID fits the field under the key exactly when it has the same ConnectionID |
| ConnectionIDs.ConnectionIDsCollide | protocol/quic.go:40-45 | two ShortIDs with one ConnectionID |
| QuicHeader.ProtectionLayout | protocol/quic.go:58-66 | which mask byte meets which byte of the packet |
| QuicHeader.EncoderKeyLayout | protocol/quic.go:40 | which bytes of its key the encoder alters |
| QuicHeader.ApplyMask | protocol/quic.go:97-105 | the in-place loop is the protection pass |
| QuicHeader.Codec.Encode | protocol/quic.go:29-69 | the packet built in place is the protected plain packet, under the key as altered |
| QuicHeader.Codec.Decode | protocol/quic.go:79-120 | result and the caller's unmasked buffer |
| Fallback.ResolvedExactly | core/transport.go:106-118 | the four cases of the configuration |
| Fallback.StartsAfterActive | core/transport.go:78-84 | the walk starts after the first place of the active transport, or at the front |
| Fallback.AttemptsExactly | core/transport.go:86-102 | dialled are, in order, all transports but the active one up to the chosen one or to the end |
| Fallback.ChosenIsFirst | core/transport.go:86-103 | succeeds exactly when some entry other than the active one can be dialled, and picks the first such |
| Fallback.SucceedsExactly | core/transport.go:74-104 | the same stated on the priorities before rotation |
| Fallback.AttemptsOncePerPosition | core/transport.go:86-102 | each position is dialled at most once, and never the active transport |
| Fallback.WalksCycle | core/transport.go:78-102 | with distinct reachable priorities the successor of the active one is chosen |
| Fallback.Search | core/transport.go:86-103 | the modular loop dials and chooses as the rotated list says |
| Fallback.TransportManager.Fallback | core/transport.go:74-104 | failure leaves conn and active alone; success replaces both and closes the old connection |
| RateLimiter.Limiter.IsRateLimited | docs/doh-worker.js:16-37 | new map and answer of the in-place trimming |
| RateLimiter.StoredListIsWindow | docs/doh-worker.js:27-35 | each IP's list is its accepted times in the minute up to its last request |
| RateLimiter.RefusedExactly | docs/doh-worker.js:31-33 | a request is refused exactly when 200 accepted ones lie in its window |
| RateLimiter.AtMostLimitPerMinute | docs/doh-worker.js:16-37 | no closed minute, wherever it starts, holds more than 200 accepted requests of an IP whose clock does not go back |
| RateLimiter.TwoHundredPerMinute | docs/doh-worker.js:10-37 | that bound in numbers: 200 in 60000 ms |
| RateLimiter.RefusedAtTwoHundred | docs/doh-worker.js:10-33 | a request is refused exactly when 200 accepted ones lie within 60000 ms before it |
| RateLimiter.StepBackBreaksLimit | docs/doh-worker.js:17-35 | for any two readings, a run that goes back only from the later to the earlier has 399 acceptances in one closed minute |
| RateLimiter.StepSafeExactly | docs/doh-worker.js:17-35 | a single clock step keeps the bound in every run exactly when it does not go back |
| Base64Url.BytesToBase64url | docs/doh-worker.js:57-63 | the loops compute the encoding below |
| Base64Url.Base64urlToBytes | docs/doh-worker.js:45-55 | the loops compute the decoding below |
| Base64Url.EncodedIsUrlSafe | docs/doh-worker.js:62 | no '+', '/' or '=' in an encoded string |
| Base64Url.AlphabetExactly | docs/doh-worker.js:49-62 | the letters of RFC 4648, table 1, and no others |
| Base64Url.GroupsExactly | docs/doh-worker.js:62 | three bytes and four sextets are the same 24 bits, a rest is filled up with zeros |
| Base64Url.EncodedLetters | docs/doh-worker.js:62 | every character of an encoded string |
| Base64Url.AtobFailsExactly | docs/doh-worker.js:49 | decoding fails exactly on a foreign character or a single one left over |
| Base64Url.PackedExactly | docs/doh-worker.js:49 | four values are 24 bits, spare bits of a rest are dropped |
| Base64Url.DecodingUndoesEncoding | docs/doh-worker.js:45-63 | for every byte array, in all three residues of its length |
| Base64Url.DecodingIgnoresPadding | docs/doh-worker.js:46-49 | the padded spelling decodes to the same bytes |
| Base64Url.WhiteSpaceExactly | docs/doh-worker.js:47-49 | an encoded string with white space in it decodes exactly when the white space or the whole is a multiple of four characters |
| CidrAggregation.Aggregate | gui/app.go:490-513 | trimming, split and loop yield the targets of the pieces without repeats |
| CidrAggregation.DedupIsFirstOccurrences | gui/app.go:491-512 | duplicate-free, in order of first occurrence, nothing missing |
| CidrAggregation.WidenedCovers | gui/app.go:496-501 | the /16 covers what the /24 did |
| CidrAggregation.ContributionForms | gui/app.go:496-508 | what pieces of any form contribute, malformed ones included |
| CidrAggregation.SplitExactly | gui/app.go:490 | pieces hold no space, and joined by spaces they are the text |
| CidrAggregation.PieceCovered | gui/app.go:493-512 | every address covered by a well-formed piece is covered by an output |
| CidrText.SafeExactly | gui/app.go:490-513 | of a text of well-formed entries no address is lost, whatever the entries, exactly when every separator has a space |
| CidrText.LostBehindNewline | gui/app.go:490-501 | of two /24 on two lines the second is lost |
| CidrAggregation.OutputOrigin | gui/app.go:496-511 | every output comes from one piece: the CIDR it spells, or the /16 around that /24, or the piece as it stands; the other pieces do not matter |

## Left out

- Sockets, TLS, WebSocket and HTTP handling, JSON, the TUN and Wintun devices, routes, kill switch and user interfaces: I/O.
- Buffer pools and the xorshift generator: their output is an arbitrary parameter, no property depends on it.
- The `NoEncrypt` mode and the server's `IsQUIC` branch: the first has no packet header, the second is set by no reader.
- Cipher.CipherPack.Encrypt: requires what fits the 65535-byte pooled buffer, because the source slices that buffer and panics beyond it.
- ReplayRuns.AtMostOnceBetweenResets: covers peers loaded at start-up, one per ShortID; deletion followed by creation of the same ShortID would give it a second lock. `xhttpProcessPacket` appears only as foreign insertions, because its own check and set are separate and unlocked.
- Failures.HangsExactly: a peer deleted and created again would have a new lock; runs have a fixed set of peers.
- Pipeline.PacketsConserved: `Process`, `logDrops` and the panel's zeroing are taken as one step each; counters are unbounded where the source has int64.
- PacketServer.Server.LoadPeers: says nothing of the maps after an error, because the source exits there.
- PacketServer.Server.SaveConfig: sorts by insertion, since the library's sort is not part of this model; JSON is the identity on the list.
- EchoRing.Ring.EchoCalcLoss: the percentage is a real number, because rounding to a float is not the point.
- EchoRing.RingRefinesCounter: needs non-zero times, which time.Now() always gives.
- XhttpArrival.BatchesDelivered: packets of 18 to 2^32 - 1 bytes and at most 2^32 - 500 writers, so that the 32-bit length and count fields hold; shorter packets are the subject of `Xhttp.ServedBatch`.
- XHTTP responses: echoes come back unframed and `flush` overwrites `readBuf`, so no round trip is meant to hold.
- Fallback.TransportManager.Fallback: reachability is fixed during a call; the error text is not modelled. `Dial` is left out as a plain first-match loop.
- CidrText.SafeExactly: entries are well-formed CIDRs; what else a download may contain is carried through as `CidrAggregation.OutputOrigin` says.
- The TUN reader's parsing of IP headers, its error correction factor and its counters (ByteOut, CumTx): the destination is a parameter. The VPN lifecycle loops and the resuming of sessions: the loops re-read their stop channel each turn, so the code does not decide a one-set-per-session claim.
