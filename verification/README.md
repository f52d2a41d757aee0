# A verified model of the SJA1105 static configuration tool

The tool keeps the configuration of an SJA1105 Ethernet switch in a *staging area*: a byte
image of some twenty tables, each an array of bit-packed entries. This project models how that
image is built, parsed, edited and delivered to the switch, and proves what each step promises.
`dafny verify dfyconfig.toml` checks all of it.

The modules, from the bottom up:

* `Errno` – error numbers.
* `Bits` – natural numbers as sets of bits; every bit operation is defined one bit at a time.
* `Gtable` – the bit-field engine: a field of up to 64 bits spread over 8-bit boxes whose
  addresses are permuted by quirks. A table of bytes stands for one number `Num(q, B)`; reading
  is a slice of it, writing replaces the slice.
* `Lfsr`, `Crc32`, `Crc8` – shift registers over GF(2), and the two checksums built on them.
* `Layouts` – the bit layout of every table entry, as data: the fields in the order in which the
  accessors touch them, for both device families and both variants of the two tables whose
  layout depends on the entry.
* `EntryCodec`, `EntryAccess` – what one accessor does to one entry, as functions and as the
  loops over an array that refine them.
* `Positions` – the figures of the table formats: every packed entry as a sum with one term for
  each member, written down without the layouts, and the proof that packing gives this sum.
* `Image` – the configuration (`Config`), the image of a configuration (`ImageOf`), index
  assignment (`PatchFdb`) and parsing (`UnpackImage`), as the specification.
* `RoundTrip`, `Length`, `Corruption`, `Overlong`, `Fdb`, `Canonical` – what the specification guarantees.
* `OnDisk` – the image word by word: where each table starts, what is in its header, its entries
  and its checksums; capacities and block ids.
* `TableHeader`, `StaticConfig` – the code: class `StaticConfig` with the methods that pack,
  parse and patch a configuration in place, each proved against `Image`.
* `Validity` – the check before an upload, and when it is exact.
* `Modify`, `Runs` – changing a configuration that is then saved and loaded; runs of packs and
  of save/load cycles.
* `Spi`, `Upload`, `Flush`, `FlushRun` – messages on the bus, the chunked upload, the flush
  protocol as an automaton, and the code that runs it.
* `OnTheWire`, `FlushCodes` – messages and upload byte by byte, and the code of a flush told from
  what was on the bus.
* `Ptp`, `Text` – PTP timestamps, and the printers and parsers of numbers, lists and MAC
  addresses.
* `Device`, `Repack`, `Commands` – setting up the SPI device, what the file and the switch have
  in common although the configuration is packed for each of them, and the sequencing of the
  `upload` and `modify` commands.
* `Registers`, `CommandCodes` – register reads byte by byte, and the codes of the commands told
  from the file and the bus.

## How the code is modelled

* Words are natural numbers below a bound (`byte`, `uint32`, `uint64`); every wrap-around and
  truncation of the C code is written out.
* A configuration entry is the sequence of the `uint64_t` members of its C structure. The union
  in the VL lookup entry is kept: its two views share members.
* The straight-line field lists of the accessors, and the nineteen steps of `pack`, are data
  that a loop runs over; order, positions and sizes are those of the code.
* The bus is a list of replies about which nothing is known (`SpiSetup.replies`), so a statement
  about a method holds for every behaviour of the bus. `SpiSetup.events` records every transfer
  with what was sent and received. The device is modelled by what it makes of those transfers:
  `WordAt` is the word last written at an address.
* Formats are stated twice. The modules that model the code build them from its own definitions;
  `Positions`, `OnDisk`, `OnTheWire`, `FlushCodes`, `Registers` and `CommandCodes`, and the last
  sections of `Crc8`, `Fdb`, `Validity` and `Text`, say with literal positions, addresses and
  numbers what these amount to.
* What the operating system answers is a parameter: file access (`Io`, `readable`) and opening
  the SPI device (`Setup`).
* `ONES_TO_RIGHT_OF(63)` shifts a 64-bit word by 64 (`src/lib/gtable/gtable.c:38`); it is taken
  as 2^64 - 1. Signed overflow in the time conversion is taken as two's complement wrap-around.
* `unpack` has no length argument, and its count check lets one entry too many into an array.
  Runs in which it would leave the buffer or an array end in the outcomes `PastEnd` and
  `Overrun`; `Accepted` and `Rejected` are its return codes 0 and -1. Table counts are taken to
  be at most the length of their arrays when a configuration is packed.

## What turned out not to hold

* A changed header word goes unnoticed if it makes the length zero: the image then ends early
  and is accepted. `Corruption.OneWordIsDetected` says that this is the only exception, and
  `Corruption.ZeroedLengthIsAccepted` makes one in every packed image that has a table.
* FDB indices are not stable over a save and a load: `Fdb.IndexStableIff` says exactly when one
  is, and by `Fdb.OnlyIndexChanges` the only entry of a fresh table always moves. They settle:
  from the second save/load cycle on nothing changes any more (`Runs.SaveLoadIsStable`).
* After `modify` with a flush the file and the switch need not hold the same forwarding table,
  because the configuration is packed for each of them. They do, and then agree in everything but
  the final checksum, if and only if the number of entries in every bin is a multiple of four
  (`Repack.SentIsFileIff`); with a single entry they do not (`Repack.OneEntryMoves`).
* The count check of `unpack` does not keep a table within its array: `Overlong.EntriesOverrunIff`
  says exactly when the entry one too many is stored, `Overlong.OverlongImageOverruns` gives an
  image for every table.
* Without prior packing, the frame memory check can be passed by a sum that wraps around:
  `Validity.MemoryCheckExactIff` gives the exact condition, `Validity.OversizedIsValid` a
  configuration.
* Ticks to timespec and back is the identity for times within 2^60 ticks of zero only, not while
  8 * ticks is below 2^64, because the sum is signed (`Ptp.TicksRoundTripIff`).
* Timespec to ticks and back loses less than 8 ns for times that are not negative and below
  2^63 ns, and otherwise only for whole ticks below 2^64 ns (`Ptp.TimespecRoundTripIff`). 2^64 ns
  are lost altogether, and -1 ns comes back late (`Ptp.TimespecRoundTripFails`).
* A setting of the SPI device that is not read back as written is logged, and the device closed,
  but the set-up reports success (`Device.SpiConfigure`, whenever the system answers
  `ReadBackDiffers`).
* On P/Q/R/S devices egress timestamps are reconstructed from 24 bits with a 32-bit mask;
  `Ptp.ReconstructionExact` says for which times this still gives the right answer.

## Model

| member | source | states |
|---|---|---|
| Gtable.BoxAddrPermutation | src/lib/gtable/gtable.c:58-79 | for every length that is a multiple of 4 and each of the four quirk combinations the map from boxes to addresses is a permutation of [0, len), with an explicit inverse |
| Gtable.UnpackBoxes | src/lib/gtable/gtable.c:176-230 | the box loop that reads yields the slice of the number that the permuted bytes stand for |
| Gtable.PackBoxes | src/lib/gtable/gtable.c:176-230 | the box loop that writes leaves exactly the bytes of the number with that slice replaced, and every byte outside the table alone |
| Gtable.Truncate | src/lib/gtable/gtable.c:159-170 | an oversized value loses its upper bits, any other is kept |
| Gtable.FieldAccess | src/lib/gtable/gtable.c:113-232 | error codes for reversed and oversized fields without any effect; otherwise the slice read, or the slice replaced and the value truncated in place |
| Gtable.GetFieldArithmetic | src/lib/gtable/gtable.c:176-230 | reading a field is (N >> end) mod 2^width |
| Gtable.PutFieldArithmetic | src/lib/gtable/gtable.c:176-230 | writing v changes N by (v mod 2^width - old slice) * 2^end and nothing else |
| Gtable.NumIsWordNum | src/lib/gtable/gtable.c:68-79 | with the least significant 32-bit word first, N is the sum of big-endian words times 2^(32 w) |
| Gtable.NumOfQuirks | src/lib/gtable/gtable.c:58-79 | under each of the four quirk combinations a table is the number that its bytes are with the words in the other order and the bytes within each word reversed, as the quirks say |
| Gtable.GetPut | src/lib/gtable/gtable.c:176-230 | a field written is read back, truncated to its width |
| Gtable.GetPutApart | src/lib/gtable/gtable.c:176-230 | a write leaves every disjoint field as it was |
| Gtable.PutPutApart | src/lib/gtable/gtable.c:176-230 | writes to disjoint fields commute |
| Crc32.BitReverse | src/lib/gtable/gtable.c:81-93 | the loop reverses the low bits of a word |
| Crc32.Crc32Add | src/lib/gtable/gtable.c:303-319 | one byte is eight steps of the register, least significant bit first |
| Crc32.EtherCrc32Le | src/lib/gtable/gtable.c:321-337 | the loop over words computes the checksum specified by EtherCrc32 |
| Crc32.EtherCrc32IsIeee802Point3 | src/lib/gtable/gtable.c:321-337 | the checksum is the CRC of clause 3.2.9 of IEEE 802.3 (complemented head, remainder by the generator, complement, reflection) of the bytes with each group of four reversed |
| Crc32.EtherCrc32IsReflectedCrc | src/lib/gtable/gtable.c:303-337 | the same value comes from the least-significant-bit-first register with polynomial 0xEDB88320 |
| Crc32.EtherCrc32DetectsWord | src/lib/gtable/gtable.c:321-337 | buffers that differ in exactly one aligned 32-bit word have different checksums |
| Crc32.BurstIsDetected | src/lib/gtable/gtable.c:321-337 | so have buffers of one length that differ only within 32 consecutive bits of the bit stream, aligned or not |
| Lfsr.RunIsRemainder | src/lib/gtable/gtable.c:303-319 | the register holds the remainder of the seeded message polynomial by the generator |
| Lfsr.RemainderUnique | src/lib/gtable/gtable.c:303-319 | a remainder below the degree of the generator is unique |
| Lfsr.RunInjectiveInMessage | src/lib/gtable/gtable.c:303-319 | with an odd polynomial, messages of register length lead to different registers |
| Lfsr.ReflectedRunSimulates | src/lib/gtable/gtable.c:303-337 | the reflected register simulates the plain one step by step |
| Crc8.Crc8Add | src/lib/gtable/gtable.c:339-353 | one byte is eight steps of the 8-bit register, most significant bit first |
| Crc8.ComputeFdbHash | src/lib/gtable/gtable.c:361-373 | the loop over the eight bytes of the key computes the hash specified by FdbHash, the remainder that HashOfWords and HashOfAddress give |
| Crc8.HashIsRemainder | src/lib/gtable/gtable.c:361-373 | the hash is the remainder of key * x^8 by the polynomial taken out of Koopman notation |
| Crc8.HashIsLinear | src/lib/gtable/gtable.c:361-373 | the hash of the exclusive or of two keys is the exclusive or of their hashes |
| Crc8.BurstIsDetected | src/lib/gtable/gtable.c:361-373 | keys that differ, but only within eight consecutive bits, aligned or not, fall into different bins, for every poly |
| Crc8.OneByteApart | src/lib/gtable/gtable.c:361-373 | in particular keys that differ in exactly one byte |
| Crc8.HashOfWords | src/lib/gtable/gtable.c:361-373 | for any two 64-bit words the hash is the remainder, by x^8 plus the low byte of 2 * poly + 1, of key * x^8, where bit i of the key is that of the MAC address or bit i - 48 of the VLAN id |
| Crc8.HashOfAddress | src/lib/gtable/gtable.c:361-373 | for a 16-bit VLAN id and a 48-bit MAC address that key is vlanid * 2^48 + macaddr |
| Crc8.AddressesApart | src/lib/gtable/gtable.c:361-373 | MAC addresses that differ in one byte fall into different bins, for every VLAN id and every poly |
| Crc8.VlansApart | src/lib/gtable/gtable.c:361-373 | so do VLAN ids that differ in one byte, for every MAC address |
| Layouts.AllLayoutsWellFormed | src/lib/static-config/tables/mac-config.c:41-130 | in every layout of every table and device the fields are disjoint, within the entry, at most 64 bits wide and use each member once |
| Layouts.SgmiiSeparate | src/lib/static-config/tables/sgmii.c:41-96 | the reserved words of the SGMII entry overlap none of its fields |
| EntryCodec.FieldsRoundTrip | src/lib/static-config/tables/l2-policing.c:42-62 | for any well-formed layout, unpacking a packed entry gives each packed member modulo 2^width, whatever was in the table and the entry before |
| EntryCodec.PolicingVariant | src/lib/static-config/tables/vl-policing.c:41-63 | the type that unpacking branches on is the one that packing branched on |
| EntryCodec.VlLookupFormat1RoundTrip | src/lib/static-config/tables/vl-lookup.c:42-72 | an entry packed with the format 1 layout and unpacked with the format 0 layout gives back egrmirr, ingrmirr, vlid and port through the union |
| EntryCodec.EntryRoundTrip | src/lib/static-config/tables/l2-lookup.c:42-95 | for every table, device and entry, unpacking the packed bytes gives exactly the stored members, the others zero |
| Positions.PackedEntryIs | src/lib/static-config/tables/vlan-lookup.c:41-62 | for every table, device, variant and entry the packed bytes, as big-endian words with the first one least significant, are the sum of the members modulo 2^width times 2^position, with literal positions; loops as formulas such as 13 + 10 i; and the size in bytes |
| EntryAccess.PackEntryInto | src/lib/static-config/tables/vl-policing.c:41-63 | the accessor clears and fills its bytes with the packed entry (bit by bit: Positions.PackedEntryIs), truncates the entry in place and touches nothing else, for every table |
| EntryAccess.UnpackEntryFrom | src/lib/static-config/tables/vl-lookup.c:42-72 | the accessor reads the entry that the bytes stand for, for every table; of packed bytes these are the members that Positions.PackedEntryIs places |
| TableHeader.PackHeader | src/lib/static-config/tables/table-header.c:41-73 | the twelve header bytes and nothing else are written |
| TableHeader.UnpackHeader | src/lib/static-config/tables/table-header.c:41-66 | the three members are the slices of the header |
| TableHeader.PackHeaderWithCrc | src/lib/static-config/tables/table-header.c:75-85 | the header ends up with the checksum of its first eight bytes, whatever the stale checksum was |
| TableHeader.WriteCrc | src/lib/static-config/static-config.c:40-48 | the word behind a table becomes the checksum of the table |
| RoundTrip.TableHeaderRoundTrip | src/lib/static-config/tables/table-header.c:41-85 | a packed header is read back, and its checksum matches |
| StaticConfig.StaticConfig.PatchFdb | src/lib/static-config/static-config.c:383-413 | the loop assigns the indices and advances the counters as specified (in numbers: Fdb.IndexInNumbers, Fdb.BinIsRemainder), and changes nothing else |
| StaticConfig.StaticConfig.PackTable | src/lib/static-config/static-config.c:502-516 | header, entries and data checksum of one table are written at p; the entries in use are truncated in place; an empty table writes nothing |
| StaticConfig.StaticConfig.Pack | src/lib/static-config/static-config.c:499-675 | an invalid device id is refused without effect; otherwise the buffer holds the image of the patched configuration, nothing beyond it is written, and the configuration is normalised |
| StaticConfig.StaticConfig.AddEntry | src/lib/static-config/static-config.c:80-223 | one entry is appended to the table of the block id, or the call fails without effect |
| StaticConfig.StaticConfig.UnpackTable | src/lib/static-config/static-config.c:438-485 | one turn of the loop either ends the parse with its outcome or leaves the rest of it to do, strictly further on |
| StaticConfig.StaticConfig.PatchVlLupFormat | src/lib/static-config/static-config.c:281-289 | every VL lookup entry in use gets the announced format |
| StaticConfig.StaticConfig.CountFdbBins | src/lib/static-config/static-config.c:487-493 | the loaded forwarding entries are counted into their bins |
| StaticConfig.StaticConfig.Unpack | src/lib/static-config/static-config.c:415-497 | outcome and configuration, also a rejected one, are those of UnpackImage |
| RoundTrip.UnpackOfImage | src/lib/static-config/static-config.c:415-497 | for every configuration with a valid device id, in range or not: its image is accepted, whatever follows it, and gives the stored members, zeros beyond the counts, the announced VL formats and recounted bins |
| OnDisk.ImageOnDisk | src/lib/static-config/static-config.c:499-675 | for every configuration the image is: the device id; each table with entries, in order and behind the one before, with block id, length in words, the checksum of these, the entries at multiples of their size with their members in place, and the checksum of the entries; eight zero bytes and DE AD BE EF; nothing else |
| OnDisk.Capacities | src/lib/include/static-config.h:87-105 | counts are within the arrays if and only if they are within the nineteen literal bounds |
| OnDisk.KnownDevices | src/lib/static-config/static-config.c:415-437 | the four device ids, and which of them are E/T |
| OnDisk.UnknownDevice | src/lib/static-config/static-config.c:415-437 | an image that starts with any other word is rejected |
| OnDisk.BlockIds | src/lib/static-config/static-config.c:80-223 | each block id is that of its table, 0x0F is skipped with 52 bytes an entry, any other is refused |
| OnDisk.FormatIsAnnounced | src/lib/static-config/static-config.c:281-289 | after parsing, member 0 of every VL lookup entry in use is member 0 of the general parameters, and nothing else is different |
| Canonical.NewIsCanonical | src/tool/parse-config.c:215-242 | the configuration that `config new` saves is canonical, for every valid device id |
| Canonical.SaveThenLoad | src/lib/static-config/static-config.c:415-497 | for every canonical configuration unpack of pack gives the configuration as pack left it, with the FDB counters rebuilt from the packed indices |
| Canonical.PackedCanonical | src/lib/static-config/static-config.c:499-675 | packing changes nothing in a canonical configuration but FDB indices and counters |
| Canonical.RebuiltCounters | src/lib/static-config/static-config.c:487-493 | after save and load each counter is the number of entries that hash into its bin, modulo 256, whatever it was before |
| Canonical.PackNormalises | src/lib/gtable/gtable.c:159-170 | packing leaves every packed member of every entry below 2^width, and packing again changes neither entry nor bytes |
| Length.LengthIsExact | src/lib/static-config/static-config.c:677-728 | for every valid device id and all counts within their arrays get_length is the exact size of the image, a multiple of 4, at most 622912, with no wrap-around |
| Corruption.OneWordIsDetected | src/lib/static-config/static-config.c:438-485 | in every accepted image, changing one 32-bit word of any table's header, data or checksum makes unpacking fail, unless and only unless the length in the header became zero |
| Corruption.PackedImageIsProtected | src/lib/static-config/static-config.c:499-675 | so does changing one word of any table of any packed image, at the place where the table is |
| Corruption.ZeroedLengthIsAccepted | src/lib/static-config/static-config.c:438-450 | in every packed image with a table, zeroing the length in the header of the table is a change of one word that goes unnoticed |
| Overlong.EntriesOverrunIff | src/lib/static-config/static-config.c:50-58 | the loop over the entries of a table stores one beyond the array if and only if more are announced than there is room for and the buffer is long enough for the one too many; the count check never fires |
| Overlong.OverlongTable | src/lib/static-config/static-config.c:438-485 | every image whose first table is announced longer than its array, and that goes on for one entry more than fits, makes unpack write past the array |
| Overlong.OverlongImageOverruns | src/lib/static-config/static-config.c:438-485 | for every table and device, an image that does |
| Fdb.AssignedIndex | src/lib/static-config/static-config.c:383-413 | entry i keeps all members but the index; its index is 4 * bin + (counter + number of earlier entries of the bin) mod 4, despite the 8-bit wrap |
| Fdb.IndexInNumbers | src/lib/static-config/static-config.c:383-413 | member 13 of entry i becomes 4 * bin + (counter + how many of the entries before it are in its bin) mod 4, with literal figures, and no other member changes |
| Fdb.BinIsRemainder | src/lib/static-config/static-config.c:383-413 | the bin is the remainder for member 9 as VLAN id, or 0 if member 16 of the parameters is set, member 10 as MAC address and member 15 of the parameters as polynomial |
| Fdb.NeighboursApart | src/lib/static-config/static-config.c:383-413 | entries that differ in one byte of the MAC address, or of the VLAN id while it counts, are in different bins; the VLAN id alone makes no difference while it does not |
| Fdb.IndicesDistinctIffBinsFit | src/lib/static-config/static-config.c:383-413 | all indices are below 1024 and in their bins, and they are distinct if and only if no bin receives more than 4 entries |
| Fdb.RunOfPacks | src/lib/static-config/static-config.c:383-413 | the index of every entry after n packs in a row, in closed form |
| Fdb.CountersAfterReload | src/lib/static-config/static-config.c:487-493 | counting the assigned indices gives the population of each bin modulo 256 |
| Fdb.FdbRunIndices | src/lib/static-config/static-config.c:383-413 | on the entries and counters alone: after every run of packs and of packs whose counters are then recounted, indices are in their bins, and distinct if and only if no bin is overfull |
| Fdb.IndexStableIff | src/lib/static-config/static-config.c:487-493 | an index survives save, load and pack if and only if the bin population and the starting counter agree modulo 4 |
| Fdb.OnlyIndexChanges | src/lib/static-config/static-config.c:487-493 | the index of the only entry of a fresh table is changed by the pack after a save and a load |
| Fdb.SaveLoadSettles | src/lib/static-config/static-config.c:487-493 | from the second save/load cycle on neither entries nor counters change, whatever the counters were before |
| Runs.StepFollows | src/lib/static-config/static-config.c:415-497 | packing a canonical configuration, and unpacking what was packed, leave a canonical configuration and change its forwarding entries and counters as module Fdb says and nothing else |
| Runs.RunFollows | src/lib/static-config/static-config.c:415-675 | so does every run of packs and of save/load cycles |
| Runs.StepIndices | src/lib/static-config/static-config.c:383-413 | a pack, or a save and a load, of any configuration gives every forwarding entry the index 4 * bin + (counter before + rank) mod 4; so indices are in their bins, and distinct if and only if no bin is overfull |
| Runs.RunIndices | src/lib/static-config/static-config.c:383-413 | the same of the last step of every non-empty run from any configuration |
| Runs.RunFromAnyStart | src/lib/static-config/static-config.c:383-413 | from any configuration, once it has been saved and loaded, the bins stay the same: the indices after every further run fit the bins that its entries had when they were loaded |
| Runs.SaveLoadIsStable | src/lib/static-config/static-config.c:415-497 | saving and loading a canonical configuration a third time gives exactly what the second time gave |
| Validity.CheckMemorySize | src/lib/static-config/static-config.c:291-317 | accepts if and only if the sum of the sixteen partitions (FrameMemoryIs), in 32-bit int arithmetic, is at most 929 |
| Validity.CheckValid | src/lib/static-config/static-config.c:319-381 | accepts if and only if the counts are as the switch needs them and the memory check passes |
| Validity.MemoryCheckExactIff | src/lib/static-config/static-config.c:291-317 | for every configuration: the check agrees with the true sum if and only if the sum is below 2^31 or its 32-bit int value is above the budget anyway |
| Validity.OversizedIsValid | src/lib/static-config/static-config.c:319-381 | a configuration that was never packed and passes the whole validity check with a sum of 2^31 |
| Validity.CheckAfterPack | src/tool/parse-config.c:92-106 | on the way of load, default and modify to the check (pack comes first) a configuration is valid if and only if its counts are and its true sum is at most 929 |
| Validity.CheckAfterUnpack | src/tool/parse-config.c:169-185 | on the way of upload to the check (unpack comes first), for any bytes and any outcome, the check is exact |
| Validity.FrameMemoryIs | src/lib/static-config/static-config.c:291-317 | the true sum is e[1] + ... + e[8] of the L2 forwarding parameters and, if the VL forwarding parameters are in use, f[0] + ... + f[7] of these |
| Validity.AcceptedAfterPack | src/tool/parse-config.c:92-106 | after packing anything, the whole check accepts if and only if every table has the entries it needs, by a rule per table, and that sum is at most 929 |
| Validity.AcceptedAfterUnpack | src/tool/parse-config.c:169-185 | the same after unpacking any bytes |
| Modify.SavedIsCanonical | src/tool/staging-area.c:190-236 | whatever was saved, however far out of range, is canonical when loaded, as long as the VL formats agree with the general parameters |
| Modify.SavedTwiceIsCanonical | src/tool/staging-area.c:190-236 | what is loaded after a second save is canonical, whatever was saved first |
| Modify.ModifySaveLoad | src/tool/config-modify.c:46-71 | set one stored field of one entry to any value, save, load: that field is the value modulo 2^width and nothing else changed but FDB indices and counters |
| Modify.NothingBeyondCount | src/tool/staging-area.c:190-236 | for every configuration, entries beyond a count are zero after save and load |
| Modify.ShrinkThenGrow | src/tool/config-modify.c:205-209 | shrink a table, save, load, grow it: the kept entries and all other tables are as they were, the exposed entries are zero, but for FDB indices |
| Commands.StagingAreaSave | src/tool/staging-area.c:190-236 | when the file changes and to what, for each behaviour of the file system; the configuration is packed in any case but an invalid device id |
| Commands.StagingAreaLoad | src/tool/staging-area.c:135-188 | the configuration is what the file unpacks to, with code 7 if it is not accepted and 9 if it cannot be read |
| Commands.EntryModify | src/tool/config-modify.c:46-71 | an index out of bounds or a value that does not parse is an error with its code; otherwise exactly the addressed members change, or the count, to the 32-bit int value of the number |
| Device.DeviceIdGet | src/lib/spi/spi-transfer.c:96-156 | one read of the device id, kept if and only if it is one of the four known ones; one more read on P/Q/R/S; the code is that of the last read, or -EINVAL for an unknown device |
| Device.SpiConfigure | src/lib/spi/spi-transfer.c:173-268 | the switch is asked for its device id if and only if the device could be set up and no id was configured; nothing is sent in a dry run |
| Device.ProbeOnlyReads | src/lib/spi/spi-transfer.c:96-268 | the set-up sends nothing but reads, so no word of the switch is different for it; if it succeeds after asking, the id is that of the device that answered |
| Registers.ProbeInBytes | src/lib/spi/spi-transfer.c:96-156 | the probe in bytes: word 0 of the switch is read and taken if it is one of four literal ids; for the last two the word at 0x100BC3 is read as well; any other is an error |
| Commands.ConnectAndFlush | src/tool/parse-config.c:169-185 | the set-up, and if it succeeded the flush for the device that the set-up found: nothing is sent for an invalid configuration, otherwise the transfers are a run of the automaton |
| Commands.ConfigUpload | src/tool/parse-config.c:169-185 | nothing is sent before the file was accepted; then the set-up, with code 3 if it fails, then the flush with its own code, 7 without a transfer if and only if counts or the true memory sum are invalid |
| Commands.ConfigModify | src/tool/parse-config.c:186-214 | the file is untouched unless load and edit succeed, and is what the file system makes of the image of the edited configuration; nothing is sent unless it was written and a flush was asked for; then code 4 if the set-up fails, 6 if the flush does, and the transfers of set-up and flush in every case |
| Commands.WritesArePrepared | src/tool/parse-config.c:169-214 | in every session of either command: before a write to the configuration area, successful or not, the set-up has succeeded, the configuration was found valid and the switch was inhibited, reset and, if needed, found idle |
| Commands.FileReachesSwitch | src/tool/parse-config.c:186-214 | after code 0 of modify with a flush every word of the saved file outside the forwarding table and the final checksum is in the configuration area of the switch |
| Repack.SavedAndSent | src/tool/staging-area.c:190-282 | for every configuration the file and the image sent after it are equally long and the same outside the forwarding table and the last word |
| Repack.SentIndexRotates | src/lib/static-config/static-config.c:383-413 | for a canonical configuration each entry sent is that of the file but for its index, which stays in its bin and moves on by the population of the bin modulo 4 |
| Repack.SentIsFileIff | src/tool/staging-area.c:190-282 | for a canonical configuration what is sent equals the saved file, but for the final checksum, if and only if the number of forwarding entries in every bin is a multiple of four |
| Repack.OneEntryMoves | src/tool/staging-area.c:190-282 | a canonical configuration with one forwarding entry for which it does not |
| Repack.ResavedFile | src/tool/staging-area.c:135-236 | loading a file that the tool wrote and saving it again gives the same bytes outside the forwarding table, if the VL formats of what was saved agree with the general parameters |
| Repack.ResavedAgain | src/tool/staging-area.c:135-236 | and without any condition for files written after an earlier load |
| Commands.FileAfterModify | src/tool/parse-config.c:186-214 | the file that modify leaves is accepted, with the one field changed modulo 2^width and nothing else but FDB indices and counters |
| CommandCodes.SessionSeen | src/tool/parse-config.c:169-214 | the code of the flush within either command from the bytes on the bus: 7 exactly if the configuration is not valid, and then nothing is sent; otherwise as for FlushSeen |
| CommandCodes.ModifySeen | src/tool/parse-config.c:186-214 | codes 9, 4, 6 and 0 of modify, each if and only if: the file could not be written, the set-up failed, the flush failed, all went well |
| CommandCodes.ListIsStored | src/tool/config-modify.c:46-71 | a list replaces as many members as it has elements and no other |
| CommandCodes.EditRefused | src/tool/config-modify.c:46-71 | an index beyond the entries in use, or a list that is too long, is -ERANGE |
| CommandCodes.CountIsSet | src/tool/config-modify.c:205-209 | a count within the capacity of the table is set and nothing else |
| Spi.MessageRoundTrip | src/lib/spi/spi-message.c:40-57 | a message header is read back as written, each member truncated to its width |
| OnTheWire.HeaderInNumbers | src/lib/spi/spi-message.c:40-57 | the header is the big-endian word (access mod 2) * 2^31 + (read count mod 64) * 2^25 + (address mod 2^21) * 2^4 |
| Spi.SpiSetup.SendPackedBuf | src/lib/spi/spi-message.c:90-134 | exactly one transfer with header and payload; a read stores the received bytes, and only if it succeeded |
| Spi.SendLongPackedBuf | src/lib/spi/spi-message.c:181-218 | the chunks are sent in order; on a failure exactly the chunks before it were sent; a read assembles the received bytes |
| Spi.ChunksCover | src/lib/spi/spi-message.c:195-217 | there are ceil(len / 256) chunks; chunk k is at base + 64 k and holds bytes 256 k on, 256 of them except perhaps in the last |
| Spi.ChunksConcat | src/lib/spi/spi-message.c:195-217 | the chunks joined are the buffer |
| Spi.MemoryAfterChunks | src/lib/spi/spi-message.c:181-218 | after all chunks the device holds word k of the buffer at base + k, and no other word was written |
| Spi.MemoryAfterFailure | src/lib/spi/spi-message.c:181-218 | if chunk j fails the device holds exactly the first 64 j words of the buffer, and no other word was written |
| Upload.StaticConfigUpload | src/tool/staging-area.c:238-282 | what is sent are the chunks of UploadImage, whose bytes UploadEndsWithChecksum gives; nothing is sent for an invalid device id |
| OnTheWire.UploadEndsWithChecksum | src/tool/staging-area.c:256-271 | for every configuration with a valid device id the bytes to be sent are those of the packed image but for the last word, and this is the checksum of exactly the bytes before it |
| OnTheWire.ChunkOnTheWire | src/tool/staging-area.c:273-277 | the header of chunk k is the word 0x80200000 + 0x400 k, its payload bytes 256 k on, 256 of them or what is left |
| OnTheWire.UploadedWords | src/tool/staging-area.c:249-277 | after a successful upload the device holds at 0x20000 the words of the packed image but the last, behind them the checksum of these, and nothing anywhere else |
| Upload.UploadAddressesFit | src/lib/spi/spi-message.c:54-56 | every chunk address of every upload fits the 21-bit header field and lies in the configuration area |
| Upload.UploadedMemory | src/tool/staging-area.c:249-277 | after a successful upload word k of that image is at CONFIG_ADDR + k for every k, and nothing else was written |
| Upload.FailedUploadMemory | src/tool/staging-area.c:249-277 | after an upload that failed with chunk j exactly the first 64 j words of the image are there, and nothing else was written |
| Flush.ConfigWriteIsPrepared | src/tool/staging-area.c:284-385 | in every run, every write to the configuration area comes after a successful inhibit and reset and, if needed, after at most 100 polls the last of which found the device idle |
| Flush.NothingWritten | src/tool/staging-area.c:284-385 | a run that ends without response, or before the upload, has written nothing to the configuration area |
| Flush.FinishedIsClean | src/tool/staging-area.c:348-375 | a finished run on real hardware ended with a status read that found no error, which is 8 in the upper four bits of its first byte (OnTheWire.CleanInBytes) |
| Flush.FlushedMemory | src/tool/staging-area.c:284-385 | after every run that got past the upload the configuration area holds the upload image word for word |
| OnTheWire.InhibitOnTheWire | src/lib/control/port.c:40-56 | a transfer inhibits transmission if and only if it is 80 00 01 10 and a word whose low five bits are set |
| OnTheWire.ResetOnTheWire | src/lib/reset/rgu.c:108-183 | a transfer is the cold reset if and only if it is 81 00 44 00 00 00 00 08, with 04 at the end on P/Q/R/S |
| OnTheWire.StatusReadOnTheWire | src/lib/status/general.c:148-172 | a transfer is the status read if and only if it is 18 00 00 10 and 48 zeros, or 1A 00 00 10 and 52 zeros on P/Q/R/S |
| OnTheWire.ClockWriteOnTheWire | src/tool/staging-area.c:341-347 | which transfers count as writes of the clocking setup, in numbers |
| OnTheWire.ConfigWriteOnTheWire | src/tool/staging-area.c:273-277 | which transfers count as writes to the configuration area, in numbers |
| OnTheWire.StatusInBytes | src/lib/status/general.c:44-146 | the five members are bits 7 to 4 of byte 0 and bit 0 of byte 11 of what was received |
| OnTheWire.CleanInBytes | src/tool/staging-area.c:348-375 | the status is accepted if and only if byte 0 divided by 16 is 8, and idle if and only if byte 11 is even |
| FlushRun.InhibitTx | src/lib/control/port.c:40-56 | one transfer that sets the inhibit bit of all five ports, although the buffer is not cleared |
| FlushRun.ColdResetDevice | src/lib/reset/rgu.c:108-183 | one transfer that sets the cold reset bit of the device family and no other |
| FlushRun.GeneralStatusGet | src/lib/status/general.c:148-172 | one read whose flags are those of the received words |
| FlushRun.WaitForL2 | src/tool/staging-area.c:321-335 | the retry loop ends idle or not responding exactly as the automaton does |
| FlushRun.StaticConfigFlush | src/tool/staging-area.c:284-385 | code 7 if and only if the configuration is not valid, and then nothing was sent or changed; otherwise the transfers are a run of the automaton and the code says where it ended (in bytes: FlushCodes.FlushSeen), and the configuration is packed in place if and only if the run reached the upload |
| FlushRun.FlushGuarantees | src/tool/staging-area.c:284-385 | code 3 implies that no configuration word was written; code 0 implies that the device holds the upload image and, on real hardware, that the final status was clean (in bytes: FlushCodes.FlushSeen); every configuration write was prepared |
| FlushCodes.WrittenWhenReady | src/tool/staging-area.c:296-336 | every write to the configuration area comes after a successful inhibit and reset and, if needed, after at most 100 successful status reads all but the last of which were busy, in bytes |
| FlushCodes.NotRespondingIff | src/tool/staging-area.c:296-336 | a run ends without response if and only if nothing was written and the first transfer failed, or a poll failed, or 100 polls found the device busy |
| FlushCodes.FlushSeen | src/tool/staging-area.c:284-385 | the code of a flush of a valid configuration from the bytes on the bus: 3 exactly for such runs; 0 on real hardware exactly if something was written and the last transfer is a status read whose first byte divided by 16 is 8; 0 of a dry run exactly if clocks and device id are in order; else 5 |
| Ptp.ReconstructionWindow | src/lib/ptp/ptp.c:608-629 | the reconstruction gives t if and only if t has the partial timestamp as low bits and lies 1 to one period before now, modulo 2^64 |
| Ptp.ReconstructionExact | src/lib/ptp/ptp.c:608-629 | on E/T the true time is recovered exactly if it is 1 to 2^24 ticks ago; on P/Q/R/S if in addition its bits 24 to 31 are zero |
| Ptp.PqrsTimestampLost | src/lib/ptp/ptp.c:608-629 | a P/Q/R/S timestamp one tick old that is not recovered |
| Ptp.PtpEgrTsPoll | src/lib/ptp/ptp.c:553-632 | the clock is read if and only if the register was read and had an update; the code is that of the last read, or -EAGAIN without an update; on success the time is the one reconstructed from both |
| Ptp.PolledTimestamp | src/lib/ptp/ptp.c:553-632 | on E/T a poll between 1 and 2^24 ticks after the event gives its time |
| Registers.TimestampRegister | src/lib/ptp/ptp.c:586-600 | the timestamp is in the upper three bytes of the register, the update flag in bit 0 |
| Registers.ClockOnTheWire | src/lib/ptp/ptp.c:569-585 | the two-word read of the clock that belongs to source and family |
| Registers.PolledInNumbers | src/lib/ptp/ptp.c:553-632 | the result of a poll is the last time before the clock value with the low 24 bits, or 32 on P/Q/R/S, of the register, as 8 ns ticks modulo 2^64 ns |
| Ptp.TicksRoundTripIff | src/lib/ptp/ptp.c:322-332 | ticks to timespec and back is the identity exactly for ticks within 2^60 of zero |
| Ptp.TicksRoundTripFails | src/lib/ptp/ptp.c:322-332 | ticks with 8 * ticks below 2^64 that are not given back |
| Registers.TimespecInNumbers | src/lib/ptp/ptp.c:327-332 | sec * 10^9 + nsec is 8 * ticks modulo 2^64, and nsec is below 10^9 |
| Registers.TicksInNumbers | src/lib/ptp/ptp.c:322-325 | for 0 to 2^63 ns the ticks are the nanoseconds divided by 8 |
| Ptp.TimespecRoundTripIff | src/lib/ptp/ptp.c:322-332 | for every timespec: the result is normalised, and less than 8 ns early if and only if the time is in [0, 2^63) ns, or in [2^63, 2^64) ns and a whole number of ticks |
| Ptp.TimespecRoundTripFails | src/lib/ptp/ptp.c:322-332 | 2^64 ns, which come back as 0, and -1 ns, which comes back late |
| Text.HexIsRead | src/tool/strings.c:149-183 | a number printed with 0x%X is read back by strtoull, whatever follows that is not a digit |
| Text.DigitsOf | src/tool/strings.c:149-183 | which characters are read as which hexadecimal digit, in either case |
| Text.HexIsPrinted | src/common.c:37-51 | printed numbers have no leading zeros, digits and capitals only, and show the value |
| Text.TrimWhitespace | src/tool/strings.c:269-292 | the two loops compute the text without white space at either end |
| Text.MacAddrFromString | src/tool/strings.c:94-120 | the loop over six bytes computes MacFrom, including the error for trailing text |
| Text.MacAddrSprintf | src/lib/helpers.c:38-47 | six two-digit bytes separated by colons, 17 characters |
| Text.MacRoundTrip | src/tool/strings.c:94-120 | reading a printed MAC address gives its low 48 bits, hence every value below 2^48 |
| Text.MacNumeralsAreRead | src/tool/strings.c:94-120 | six hexadecimal bytes separated by colons, in either case and with any number of digits, are read as the number whose bytes they are; anything behind them is -EFBIG |
| Text.MacIsPrinted | src/lib/helpers.c:38-47 | character by character: two small hexadecimal digits for each of the six bytes, most significant first, with colons between |
| Text.ReliableUint64FromString | src/tool/strings.c:149-183 | MAC address, binary or C-style number; nothing read and overflow are errors; a success consumes text |
| Text.NumeralIsRead | src/tool/strings.c:149-183 | binary, octal, decimal and hexadecimal digits are read as their value, up to the first character that is no letter or digit; a value beyond 64 bits is -EOVERFLOW |
| Text.SignedIsRead | src/tool/strings.c:149-183 | a decimal number may have white space and a sign before it; a minus sign silently gives the value modulo 2^64 |
| Text.ReadArray | src/tool/strings.c:185-221 | the loop computes ParseArray and terminates because each turn consumes text |
| Text.PrintArray | src/common.c:37-51 | the loop prints the elements in order between brackets, for every list that fits the line |
| Text.ArrayRoundTrip | src/tool/strings.c:185-221 | for every list within the allowed count, reading what was printed gives the count and the same 64-bit values |
| Text.ArrayIsRefused | src/tool/strings.c:185-221 | a text without a bracket is -EINVAL, a list that is too long -ERANGE |
| Text.ShortListsFit | src/common.c:37-51 | every list of up to 107 values fits the line |

## Left out

- The QUIRK_MSB_ON_THE_RIGHT quirk: the tool never sets it, and it gives negative bit positions for boxes that a field fills only in part.
- `sja1105_static_config_hexdump`, all `*_show` functions, logging and screen layout: output only.
- Reading and writing XML, the built-in default configuration, INI files, command-line parsing and table or field name matching: an edit arrives as table, index, member and text.
- The commands `load`, `default`, `new`, `save` and `show`: they run the same save, load and flush steps as `modify` and `upload`.
- Clock synchronization parameters: the parser skips their 52 bytes, and the tool never packs them.
- The register values of the clocking setup: which clock registers are written, and its return code, are parameters; what is kept is that results of single writes are ignored and that nothing below address 0x100000 is written.
- Device.DeviceIdGet: the part number that is read on P/Q/R/S is dropped, because only messages and the parameters of the clocking setup depend on it.
- Status members that the flush does not look at, and all other register accessors.
- PTP commands, clock rate and clock setting: thin wrappers around one register each.
- The "bin full" warning of the index assignment: it has no effect on the configuration.
- The table counts of a configuration being packed beyond their arrays, and negative counts: the C code would read past its arrays.
- Memory allocation, delays, file locking and the contents of `errno`.
- Text.StrToULL: only the bases the tool uses are meant (0, 2 and 16); locale extensions and digit separators are not modelled.
- Text.ReadArray: the string is a value, so the terminator that the C code writes into its buffer is not visible, and the element that it stores one beyond the allowed count is part of the result instead of the caller's memory.
- Text.PrintArray: requires that the text fits the line, because the C code would write past its buffer otherwise.
- Commands.ConfigModify: requires that an edited count is within the array of its table; the C code would read past the array when it saves.
- Commands.EntryModify: requires that an edited count is not negative as an int; elements of a list that were stored before a parse error are not kept, nor is the unset value that a count gets when its text does not parse (src/tool/config-modify.c:205-209), because the configuration is then discarded.
- Commands.StagingAreaLoad: buffers on which the C code would read or write out of bounds give code 7.
- StaticConfig.StaticConfig.Pack: requires counts within the arrays and a buffer of at least get_length bytes, which is what both callers allocate.
- Spi.SendLongPackedBuf: requires a length that an int can hold and addresses below 2^64.
