# Verified models of dstack's measurement and zone logic

dstack recomputes what a confidential VM must have measured at launch, and keeps the external state
(DNS zone, registers, logs) those measurements and certificates depend on. This project models that
logic in Dafny and proves what it is for.

| files | what they model |
|---|---|
| `Tdvf`, `Mrtd`, `MrtdBinding` | parsing TDVF firmware metadata; MRTD in both page orders, and what an MRTD says about the firmware |
| `MemoryAcceptor`, `TdHob`, `TdHobExtents`, `Varuint`, `TdHobWitness` | the TD HOB, what it says about memory, and its measurement from the section table and from a compact witness |
| `Kernel`, `SetupHeader` | QEMU's rewriting of the Linux setup header, and the Python script that applies it ahead of time |
| `TdxMeasurement`, `TdxBinding`, `LiteRefusal` | MRTD and RTMR0-2 from an image directory and from a measurement document; what equal registers mean; an image whose document is refused |
| `SevSnp`, `SnpInput`, `SnpPages`, `SnpMeasurement`, `SnpBinding`, `SnpReference` | the SEV-SNP launch digest, its input validator and its image projection; what equal digests mean; the page formats byte by byte |
| `DnsZone`, `CaaText`, `Caa`, `Dns01` | a DNS zone whose calls may fail before or after their effect; CAA replacement; DNS-01 publishing and cleanup |
| `RuntimeEvents`, `EventBinding`, `EventJson` | processes that measure events into registers and append them to a log under a lock; what a register says about the log; the canonical JSON of an event |
| `CryptoStream`, `StreamFormat`, `StreamIntegrity` | the chunked authenticated stream, its bytes, and what accepting one means |
| `DnsPersist`, `IssueValues`, `IssuerNames` | the issue-value record: rendering, parsing, what every record reads as, and the issuer names |
| `Checksums`, `CtMonitor` | `sha256sum.txt`, and the certificate transparency scan |
| `Common`, `Sequences`, `Patching`, `Text`, `Splitting`, `Utf8`, `Utf16`, `Guids` | bytes, sorting, field writes, text and its encodings, GUIDs |

`dafny verify dfyconfig.toml` verifies everything.

## Conventions

- SHA-256, SHA-384, Authenticode, the AEAD and X25519 are parameters. Hashes are arbitrary functions
  of their output length and are never taken to be injective: a commitment theorem says "the same
  input, or these two inputs collide" and names the two inputs. The AEAD is only assumed to open what
  it sealed and to add 16 bytes; what an accepted stream means is stated in the same way, "the stream
  that was sent, or this frame opened and was never sealed".
- An error is `Err`, without the source's message.
- Fixed-width arithmetic is written out: `Word32`, `Word64`, explicit `%` and explicit bounds where the
  source uses checked arithmetic.
- Formats and limits are stated a second time, in literal numbers and without the functions that build
  the bytes, by lemmas that read the finished bytes (`StreamFormat`, `SnpReference`, `TdHobExtents`,
  `MrtdBinding.StreamReads`, the field lemmas of `Kernel`).
- Imperative code is a method proved equal to a specification function (`ComputeMrtd`, `EncryptStream`,
  `SetCaaRecords`, `Gctx`); the theorems are about the functions. Failing calls are driven by a script
  of outcomes that is part of the state, so a theorem about a method covers every way its calls may
  fail, and an exhausted script stands for a healthy network. What a caller finds afterwards is stated
  in terms of the script before the call (`Dns01.Predict`).

## Where code, comments and expectations differ

- A document is not usable at every memory size, as the comment at dstack/dstack-mr/src/tdx.rs:418-420
  suggests: for a kernel whose header QEMU rewrites it is refused unless the memory size is one that
  `tdx_kernel_hash_uses_precomputed_high_mem` accepts (tdx.rs:430-441). Decoding also refuses a command
  line over 2048 bytes, which the image path accepts. `TdxMeasurement.LitePathAgrees` states exactly
  this, and `LiteRefusal.DocumentRefused` shows images that measure at 1 GiB while their document is
  refused there: with cause for some initrd lengths (`LiteRefusal.DigestsDiffer`), needlessly without
  an initrd (`LiteRefusal.NoInitrdNoDifference`).
- The resource HOB lengths do not always add up to the memory size: from 0xB0000000 bytes on, an accept
  that pushes the start of the last range above 2 GiB makes the two HOBs around the hole count too much.
  `TdHob.MemoryIsConserved` gives the exact condition and `TdHob.HighAcceptMiscounts` an instance.
- The header script accepts images of 0x258 to 0xfff bytes, which the verifier refuses;
  `SetupHeader.NormalizedIsPatched` has the condition and `SetupHeader.BareHeaderIsRefused` an instance.
- `needs_purge` compares challenge names as written while the provider matches names without case and
  trailing dots. An order in which one name is spelled two ways loses its first challenge
  (`Dns01.RespellingWipes`); `Dns01.PublishKeepsLive` and `Dns01.Authorize` show that this is the only way.
- Cleanup removes the records the run knows of. A record whose creation took effect but whose answer was
  lost stays, as does a challenge whose removal is refused. `Dns01.RequestNewCertificate` says which
  records stay, from the zone, the order and the script before the call; `Dns01.LostAnswerStays` and
  `Dns01.LostAnswerRun` are an instance.
- A register and the log part ways when an emission stops between the two.
  `RuntimeEvents.MeasuresTheLogExactly` says which steps do that, `RuntimeEvents.StrandedShows` that a
  replay then no longer reproduces the register, short of a collision or a cycle, and
  `RuntimeEvents.FailedExtendStrands` is an instance.
- The version 1 event format puts the name and the payload behind colons without escaping them
  (dstack/cc-eventlog/src/runtime_events.rs:130-139), so that two events can share a digest:
  `EventBinding.V1Ambiguous` is a pair, and `EventBinding.V1Exactly` says which events are free of this.
- CAA tags are compared as written (dstack/certbot/src/acme_client.rs:375-377), while section 4.1 of
  RFC 8659 has CAs compare them without case. `Caa.RestrictionLasts` holds for both readings; a record
  tagged `Issue` is left in place (`Caa.OtherCaseStays`, `Caa.OtherCaseRun`).

## Model

| member | source | states |
|---|---|---|
| Tdvf.Parse | dstack/dstack-mr/src/tdvf.rs:163-328 | on every byte string the parser terminates and returns what the declarative table reader returns, error or sections |
| Tdvf.WalkTable | dstack/dstack-mr/src/tdvf.rs:191-218 | the backwards walk with a decreasing offset finds the data of the metadata entry exactly when the recursive reading of the table does |
| Tdvf.ParseTableValid | dstack/dstack-mr/src/tdvf.rs:163-328 | whatever is accepted is a bounded table of sections that lie inside the firmware and the address space, at most 65536 pages in all |
| Tdvf.LayoutParses | dstack/dstack-mr/src/tdvf.rs:163-328 | laying out payload, descriptor, section records, other table entries and reset vector, then parsing, returns the sections laid out |
| Tdvf.SectionReadsBack | dstack/dstack-mr/src/tdvf.rs:97-105 | a section record decodes to the section it encodes |
| Tdvf.TableIdentifiers | dstack/dstack-mr/src/tdvf.rs:164-236 | the two identifiers are the encodings of their textual GUIDs, and the signature is the text TDVF |
| Tdvf.SectionLimits | dstack/dstack-mr/src/tdvf.rs:255-307 | a section passes the checks if and only if, in numbers, it is whole pages at a page address below 2^64, has no more raw bytes than memory, and its measured bytes lie in the firmware |
| Tdvf.TableLimits | dstack/dstack-mr/src/tdvf.rs:241-313 | a table has at most 64 sections and 65536 pages |
| Guids.SpelledGuid | dstack/dstack-mr/src/tdvf.rs:122-146 | the encoding of a GUID in text: the first three fields byte-reversed, the last two as written |
| Mrtd.ComputeMrtd | dstack/dstack-mr/src/tdvf.rs:330-393 | on every well-formed table, in either page order, it succeeds and hashes exactly the specified block stream, which `MrtdBinding.StreamReads` reads back as page operations |
| Mrtd.MeasureSection | dstack/dstack-mr/src/tdvf.rs:373-391 | one section appends its blocks in the order the variant calls for |
| Mrtd.SameBlocks | dstack/dstack-mr/src/tdvf.rs:330-393 | both orders absorb the same multiset of blocks |
| Mrtd.SameStream | dstack/dstack-mr/src/tdvf.rs:330-393 | the hashed bytes are equal in both orders if and only if no multi-page section both adds and extends its pages |
| Mrtd.MrtdCandidates | dstack/dstack-mr/src/tdvf.rs:395-401 | the two MRTD candidates are equal if no section is order-sensitive; otherwise equal candidates mean that the two named streams collide |
| Mrtd.BlockBudget | dstack/dstack-mr/src/tdvf.rs:330-393 | either order feeds the hasher at most 33 times per page: one block for the add, and sixteen blocks with their data for the extends |
| Mrtd.ParsedIsMeasurable | dstack/dstack-mr/src/tdvf.rs:163-393 | whenever the parser accepts, both page orders can be measured, within the page budget |
| MrtdBinding.StreamReads | dstack/dstack-mr/src/tdvf.rs:330-393 | read as 128-byte blocks naming an operation and an address, with 256 bytes of data behind each extend, the hashed stream is exactly the operations of the table in the given order: every page not augmented, and all sixteen chunks of every extended page with their firmware bytes |
| MrtdBinding.SectionCount | dstack/dstack-mr/src/tdvf.rs:373-391 | in either order a section costs one add per page it adds and sixteen extends per page it extends, no fewer and no more |
| MrtdBinding.SameTable | dstack/dstack-mr/src/tdvf.rs:330-393 | one table, one order, two firmwares with the same operations: the same firmware bytes in every extended section |
| MrtdBinding.MrtdBinds | dstack/dstack-mr/src/tdvf.rs:395-401 | equal MRTDs, whatever the two tables and orders: the same sequence of page operations, or the two named streams collide |
| MrtdBinding.MrtdBindsContents | dstack/dstack-mr/src/tdvf.rs:395-401 | with one table and one order: the same firmware bytes in every extended section, or the two named streams collide |
| MemoryAcceptance.MemoryAcceptor.Accept | dstack/dstack-mr/src/tdvf.rs:611-634 | rewriting the range list gives the cut and re-sorted list the specification describes |
| MemoryAcceptance.MemoryAcceptor.constructor | dstack/dstack-mr/src/tdvf.rs:605-609 | a fresh acceptor holds all of memory as one unaccepted range |
| MemoryAcceptance.AcceptCommutes | dstack/dstack-mr/src/tdvf.rs:611-634 | on a laid-out list two accepts with different starts commute |
| MemoryAcceptance.OrderIndependence | dstack/dstack-mr/src/tdvf.rs:600-634 | any accepts with distinct starts build the same list in file order and in address order |
| MemoryAcceptance.Coverage | dstack/dstack-mr/src/tdvf.rs:600-634 | after any accepts, overlapping or not, the unaccepted ranges hold exactly the points of memory outside every accepted range |
| MemoryAcceptance.CoverageIsDisjoint | dstack/dstack-mr/src/tdvf.rs:600-634 | and no point lies in two of them |
| MemoryAcceptance.AcceptedOrigin | dstack/dstack-mr/src/tdx.rs:276-310 | every accepted range of the list is one of the spans accepted |
| MemoryAcceptance.DisjointAcceptsPartition | dstack/dstack-mr/src/tdvf.rs:600-634 | disjoint accepts inside memory leave a sorted partition of memory in which no two unaccepted ranges touch |
| TdHob.EmitTdHob | dstack/dstack-mr/src/tdvf.rs:540-596 | growing the buffer and patching the end-of-list field gives the specified bytes, or the error when there is no range; what they say is `TdHob.TdHobReadsBack`, `TdHobExtents.HobsCoverRam` and `TdHobExtents.AcceptedExactly` |
| TdHob.TdHobReadsBack | dstack/dstack-mr/src/tdvf.rs:540-596 | the bytes are the hand-off HOB and one 48-byte resource HOB after another with the literal headers of the format, they decode to exactly the resource HOBs, and the end-of-list field points 8 bytes past them |
| TdHob.HobListTotal | dstack/dstack-mr/src/tdvf.rs:563-589 | for any chain of ranges the HOB lengths add up to the memory size if and only if memory is not split or the last range starts at or below 2 GiB |
| TdHob.LastRangeLow | dstack/dstack-mr/src/tdvf.rs:563-589 | where the last range of the partition starts, in terms of the accepts alone |
| TdHob.MemoryIsConserved | dstack/dstack-mr/src/tdvf.rs:551-589 | for disjoint accepts inside memory the resource lengths add up to the memory size if and only if every accept keeps the 2 GiB split intact |
| TdHob.HighAcceptMiscounts | dstack/dstack-mr/src/tdvf.rs:563-589 | at 0xB0000000 bytes, after one accept above 2 GiB, the resource lengths add up to 0xD0000000 |
| TdHobExtents.HobsCoverRam | dstack/dstack-mr/src/tdvf.rs:551-589 | for disjoint accepts inside memory that keep the split, the extents of the HOBs lie in address order without overlap and their union is exactly the RAM: [0, size) below 0xB0000000 bytes, and from there on [0, 2 GiB) and the rest from 4 GiB on |
| TdHobExtents.AcceptedExactly | dstack/dstack-mr/src/tdvf.rs:563-589 | the resource type is 0x00 exactly on the accepted spans that do not reach the end of memory, and 0x07 everywhere else |
| Varuint.PutVaruint | dstack/dstack-mr/src/tdvf.rs:432-444 | the shifting loop appends the base-128 encoding |
| Varuint.ReadVaruint | dstack/dstack-mr/src/tdx.rs:145-165 | the shifting loop returns value and rest, or the error, of the recursive decoder; ten groups at most and no value over 64 bits |
| Varuint.RoundTrip | dstack/dstack-mr/src/tdx.rs:145-165 | every 64-bit value is read back from its encoding, whatever follows it |
| Varuint.DecodesExactly | dstack/dstack-mr/src/tdx.rs:145-165 | a number of at most ten bytes is read as the weight of its seven-bit groups exactly when that is below 2^64, whether padded or not |
| Varuint.DecodesNothingElse | dstack/dstack-mr/src/tdx.rs:145-165 | input without a final byte is refused |
| Varuint.EncodesExactly | dstack/dstack-mr/src/tdvf.rs:432-444 | the encoding is a number of that weight, without padding |
| TdHobWitness.MeasureTdHob | dstack/dstack-mr/src/tdvf.rs:522-597 | accepting the sections in file order and emitting the list hashes the specified bytes |
| TdHobWitness.BuildWitness | dstack/dstack-mr/src/tdvf.rs:431-495 | the witness of a table, or the error, as specified |
| TdHobWitness.MeasureTdHobFromWitness | dstack/dstack-mr/src/tdx.rs:183-274 | decoding and accepting range by range hashes the specified bytes, with every error case |
| TdHobWitness.ApartWhenSorted | dstack/dstack-mr/src/tdvf.rs:470-479 | comparing neighbours in address order decides overlap between any two ranges |
| TdHobWitness.WitnessExists | dstack/dstack-mr/src/tdvf.rs:431-495 | a witness exists if and only if there is exactly one TD_HOB section and the page ranges are non-empty and pairwise disjoint |
| TdHobWitness.WitnessReadsBack | dstack/dstack-mr/src/tdx.rs:183-215 | decoding a witness returns the base, the HOB page and the ranges it was built from |
| TdHobWitness.WitnessRanges | dstack/dstack-mr/src/tdvf.rs:446-495 | the ranges a witness holds are sorted, addressable and distinct, and are the sections' byte ranges |
| TdHobWitness.WitnessSpells | dstack/dstack-mr/src/tdvf.rs:481-494 | a witness is the base page, the distance of the TD_HOB page from it, the number of ranges, and a start distance and a page count for each range, as numbers one behind the other |
| TdHobWitness.WitnessLimits | dstack/dstack-mr/src/tdx.rs:183-215 | whatever decodes has at most 64 ranges, and all its addresses are page addresses below 2^64 |
| TdHobWitness.AcceptedAddresses | dstack/dstack-mr/src/tdvf.rs:522-550 | an address is accepted if and only if it lies in a section of type 2 or 3 |
| TdHobWitness.HobBaseIs | dstack/dstack-mr/src/tdvf.rs:522-550 | the HOB list is placed at the last section of type 2, or at 0x809000 |
| TdHobWitness.WitnessAgrees | dstack/dstack-mr/src/tdx.rs:183-274 | for every well-formed table with a witness and every memory size, the bytes hashed from the witness are the bytes hashed from the table |
| Kernel.PatchKernel | dstack/dstack-mr/src/kernel.rs:146-242 | overwriting the header in place gives the image with the specified field writes, or the specified error |
| Kernel.HighMemoryIsTwoGiBLow | dstack/dstack-mr/src/kernel.rs:10-21 | the high-memory predicate holds exactly of the sizes whose memory below 4 GiB is 2 GiB |
| Kernel.MemoryIndependence | dstack/dstack-mr/src/kernel.rs:10-21 | the patch is the same for any two memory sizes the predicate accepts |
| Kernel.PredicateIsTight | dstack/dstack-mr/src/kernel.rs:10-21 | for a kernel whose ceiling is the memory limit, at every memory size the predicate refuses there is an initrd size that patches differently than at 2 GiB |
| Kernel.InitrdPlacement | dstack/dstack-mr/src/kernel.rs:187-240 | a non-empty initrd is page-aligned, wholly below the kernel's ceiling and the ACPI area, and on the highest such page |
| Kernel.LimitMeaning | dstack/dstack-mr/src/kernel.rs:187-236 | the computed limit bounds exactly the ends that respect the ceiling and the ACPI area |
| Kernel.RestUnchanged | dstack/dstack-mr/src/kernel.rs:146-242 | no byte outside the header fields QEMU owns changes |
| Kernel.PatchIsIdempotent | dstack/dstack-mr/src/kernel.rs:146-242 | patching a patched kernel changes nothing |
| Kernel.LoaderTypeIs | dstack/dstack-mr/src/kernel.rs:146-186 | the type of loader field is 0xb0 from protocol 2.00 on |
| Kernel.HeapFieldsAre | dstack/dstack-mr/src/kernel.rs:146-186 | from protocol 2.01 on the heap flag is set and the heap ends at 0xfe00 or, for a kernel loaded low, 0x9e00 |
| Kernel.CmdlineFieldIs | dstack/dstack-mr/src/kernel.rs:146-186 | from protocol 2.02 on the command line is at 0x20000 or 0x9a000 |
| Kernel.OldCmdlineFieldsAre | dstack/dstack-mr/src/kernel.rs:146-186 | before that the magic 0xa33f and the offset stand in the old fields |
| Kernel.CeilingIs | dstack/dstack-mr/src/kernel.rs:187-208 | the ceiling in numbers for each protocol version and load flag |
| Kernel.Below4gIs | dstack/dstack-mr/src/kernel.rs:210-219 | how much memory is below 4 GiB, in numbers |
| Kernel.RefusedExactly | dstack/dstack-mr/src/kernel.rs:146-242 | the patch is refused if and only if the image is shorter than 0x1000 bytes, or there is an initrd and the protocol is before 2.00, memory does not hold the ACPI area or the initrd does not fit |
| SetupHeader.Normalize | os/image/normalize-kernel-header.py:171-179 | the loop writes the target fields in place, reports the fields it changed, and leaves the image alone on an error |
| SetupHeader.NormalizedIsPatched | os/image/normalize-kernel-header.py:89-179 | on every image the script accepts, at every memory size of the predicate, its output is the verifier's patch if and only if the image has 0x1000 bytes |
| SetupHeader.BareHeaderIsRefused | os/image/normalize-kernel-header.py:89-179 | an image of 0x258 bytes that the script normalizes and the verifier refuses, whatever the memory |
| SetupHeader.PatchedIsNormalized | dstack/dstack-mr/src/kernel.rs:146-242 | on supported kernels of that length the script accepts whatever the verifier does, with the same result |
| SetupHeader.SameFieldsAgain | os/image/normalize-kernel-header.py:89-168 | normalizing does not change the target fields |
| SetupHeader.CheckPasses | os/image/normalize-kernel-header.py:208-212 | after a run the check mode finds nothing left to change |
| TdxMeasurement.LitePathAgrees | dstack/dstack-mr/src/tdx.rs:421-486 | for every image whose document builds and every VM, the document gives exactly the registers, or the error, of the image if the command line has at most 2048 bytes and the kernel header is normalized or memory is 2 GiB or at least 0xB0000000 bytes; otherwise it is refused |
| LiteRefusal.DocumentRefused | dstack/dstack-mr/src/tdx.rs:421-441 | for a concrete firmware, command line and VM of 1 GiB and any kernel and initrd that measure there and at high memory: the document builds, the image measures, and the document is refused |
| LiteRefusal.DigestsDiffer | dstack/dstack-mr/src/kernel.rs:10-21 | for a kernel that follows the memory size and an initrd of a telling length, the digest in the document and the one measured at 1 GiB are of different kernels |
| LiteRefusal.NoInitrdNoDifference | dstack/dstack-mr/src/kernel.rs:146-242 | without an initrd the kernel digest is the same at every memory size |
| TdxMeasurement.BuildDocument | dstack/dstack-mr/src/tdx.rs:341-403 | the document of an image directory, with every error case |
| TdxMeasurement.MeasureImageDir | dstack/dstack-mr/src/tdx.rs:588-693 | MRTD and RTMR0-2 of an image directory, with every error case; what the registers say is `TdxBinding.RegistersBind` |
| TdxMeasurement.MeasureFromDocument | dstack/dstack-mr/src/tdx.rs:421-486 | MRTD and RTMR0-2 from a document, with every error case; they are those of the image by `TdxMeasurement.LitePathAgrees` |
| TdxMeasurement.MeasureEventLog | dstack/dstack-mr/src/util.rs:27-36 | the extend loop computes the hash chain over the log from 48 zero bytes |
| TdxMeasurement.MrtdApplies | dstack/dstack-mr/src/tdx.rs:132-143 | the candidate a document selects is the MRTD of the image in the page order of the VM |
| TdxMeasurement.KernelHashApplies | dstack/dstack-mr/src/tdx.rs:430-441 | when the document's kernel digest applies it is the digest the VM measures |
| TdxBinding.RegistersBind | dstack/dstack-mr/src/tdx.rs:588-693 | two images in two VMs with equal registers: the same page operations, TD HOB bytes, ACPI digests, kernel digest, command line and initrd, or two extends or two measured inputs, named, collide |
| TdxBinding.MeasuresExactly | dstack/dstack-mr/src/tdx.rs:588-693 | an image is measured if and only if it has a command line that is not blank and its section table, the QEMU version, the TD HOB and the kernel are in order |
| TdxBinding.DocumentMeasuresExactly | dstack/dstack-mr/src/tdx.rs:421-486 | a document is measured if and only if its command line has at most 2048 bytes and names a rootfs, its kernel digest applies at this memory size, its digests have 48 bytes, and the QEMU version and the TD HOB are in order |
| TdxBinding.Rtmr0Binds | dstack/dstack-mr/src/tdvf.rs:51-90 | equal RTMR0: the same TD HOB bytes and the same loader, RSDP and table digests, or a named collision |
| TdxBinding.Rtmr1Binds | dstack/dstack-mr/src/tdx.rs:312-320 | equal RTMR1: the same kernel digest, or a named collision |
| TdxBinding.Rtmr2Binds | dstack/dstack-mr/src/tdx.rs:336-338 | equal RTMR2: the same command line and initrd, or a named collision |
| TdxBinding.LogCommits | dstack/dstack-mr/src/util.rs:27-36 | logs of one length with one register value have the same entries, or one named extend collides |
| TdxBinding.Rtmr0Events | dstack/dstack-mr/src/tdvf.rs:51-90 | the thirteen events of RTMR0 by position: the TD HOB first, the five variables by vendor and name at 2 to 6, the separator, and the ACPI loader, RSDP and tables at 8, 9 and 10 |
| TdxBinding.VariableIs | dstack/dstack-mr/src/tdvf.rs:148-159 | the bytes measured for an unset EFI variable: vendor, the length of the name, no data, and the name in UTF-16 |
| TdxBinding.Vendors | dstack/dstack-mr/src/tdvf.rs:51-65 | the two vendor identifiers are the encodings of their textual GUIDs |
| TdxBinding.Rtmr1Events | dstack/dstack-mr/src/tdx.rs:312-320 | the five events of RTMR1 by position and text |
| TdxBinding.Rtmr2Events | dstack/dstack-mr/src/tdx.rs:336-338 | the two events of RTMR2: the command line followed by " initrd=initrd" and two zero bytes in UTF-16, and the initrd digest |
| TdxBinding.PageOrders | dstack/dstack-mr/src/machine.rs:87-112 | the page order of each QEMU major version: refused below 8, two passes for 8, one pass from 9 on and without a version, unless the VM says otherwise |
| TdxBinding.MeasuredKernel | dstack/dstack-mr/src/kernel.rs:246-292 | the kernel behind the digest: the file itself if its header is normalized, and otherwise the file with the size of this initrd in its header, the initrd on the highest page below the ceiling and the 0x28000 bytes of ACPI data, and nothing changed outside the header fields |
| Utf16.ReadsBack | dstack/dstack-mr/src/util.rs:13-18 | decoding the UTF-16 bytes of a text returns the text |
| Utf16.PairExample | dstack/dstack-mr/src/util.rs:13-18 | the surrogate pair of an example in section 5 of RFC 2781 |
| Utf16.AsciiChar | dstack/dstack-mr/src/util.rs:13-18 | an ASCII character is its code and a zero byte |
| Text.RootfsHashFromCmdline | dstack/dstack-mr/src/sev.rs:890-911 | a command line is accepted exactly when it names one rootfs by a 32-byte digest, which is returned |
| Text.RootfsHashOfTrimmed | dstack/dstack-mr/src/sev.rs:890-911 | trimming does not change the rootfs a command line names |
| Text.RootfsNamedOnce | dstack/dstack-mr/src/sev.rs:890-911 | if exactly one word begins with dstack.rootfs_hash=, the result is the 32 bytes its 64 hexadecimal digits stand for, or an error |
| Text.RootfsNotNamedOnce | dstack/dstack-mr/src/sev.rs:890-911 | if no word or several do, it is refused |
| SevSnp.Gctx.Update | dstack/dstack-mr/src/sev.rs:251-261 | one update extends the digest by the PAGE_INFO block of the page |
| SevSnp.Gctx.UpdateZeroPages | dstack/dstack-mr/src/sev.rs:275-279 | the loop extends by one ZERO page per started 4 KiB; page `i` is recorded 4096 * i bytes on, modulo 2^64 (`SevSnp.ZeroPageAt`) |
| SevSnp.Gctx.UpdateNormalPages | dstack/dstack-mr/src/sev.rs:269-273 | the loop extends by the digest of each 4 KiB chunk |
| SevSnp.ZeroPageAt | dstack/dstack-mr/src/sev.rs:275-279 | zero page `i` has type 3, address (gpa + 4096 * i) mod 2^64 and a digest of zeros |
| SevSnp.NormalPageAt | dstack/dstack-mr/src/sev.rs:269-273 | normal page `i` has type 1, that address, and the digest of bytes 4096 * i to at most 4096 * i + 4096 |
| SevSnp.PageInfoFields | dstack/dstack-mr/src/sev.rs:251-261 | where digest, contents, length, page type and address stand in a PAGE_INFO block |
| SnpReference.PagesStarted | dstack/dstack-mr/src/sev.rs:275-279 | the number of pages is that of the started 4096-byte blocks |
| Common.LeAt | dstack/dstack-mr/src/sev.rs:637-647 | byte `i` of a little-endian field is digit `i` of the number to the base 256 |
| SevSnp.PageInfoInjective | dstack/dstack-mr/src/sev.rs:251-261 | a PAGE_INFO block determines the digest it extends and the update it records |
| SevSnp.LaunchCommits | dstack/dstack-mr/src/sev.rs:232-292 | equal digests after equally many updates: same seed and same updates, or a collision between the PAGE_INFO blocks of one named step |
| SnpInput.ValidateInput | dstack/dstack-mr/src/sev.rs:145-212 | the validator accepts exactly the inputs that meet every stated rule |
| SnpInput.ValidateSections | dstack/dstack-mr/src/sev.rs:189-209 | the loop with its running page total decides the section rules |
| SnpReference.ValidLimits | dstack/dstack-mr/src/sev.rs:145-212 | a valid input has 1 to 512 processors, guest features 1, 1 to 64 sections of the five known types and positive size, a kernel hash section, at most 65536 pages, a hash table and a reset address |
| SnpReference.ValidWithin | dstack/dstack-mr/src/sev.rs:145-212 | nothing more is asked of these: a valid input stays valid with any other processor count, addresses and sections within those limits |
| SnpReference.Signatures | dstack/dstack-mr/src/sev.rs:656-683 | the processor signature of every name the source knows, in numbers |
| SnpPages.TablePageInjective | dstack/dstack-mr/src/sev.rs:315-360 | the hash table page determines where the table is and the three digests in it |
| SnpPages.HashTableFields | dstack/dstack-mr/src/sev.rs:307-352 | where the command line, initrd and kernel digests stand in the table |
| SnpPages.VmsaFields | dstack/dstack-mr/src/sev.rs:685-718 | code segment, instruction pointer, processor signature and features stand in the finished page |
| SnpPages.VmsaInjective | dstack/dstack-mr/src/sev.rs:685-718 | a VMSA page determines the reset address, the processor signature and the features |
| SnpReference.TableGuids | dstack/dstack-mr/src/sev.rs:294-305 | the identifiers in the hash table are the encodings of their textual GUIDs |
| SnpReference.HashesPageLayout | dstack/dstack-mr/src/sev.rs:315-382 | the hash table page byte by byte: identifiers, lengths and digests of the trimmed command line, the initrd (of nothing if there is none) and the kernel at the table offset, zeros elsewhere |
| SnpReference.VmsaIsResetState | dstack/dstack-mr/src/sev.rs:685-718 | the VMSA page is the reset state of a processor: every segment, control and other register with its literal value, and zeros elsewhere |
| SnpMeasurement.ComputeExpectedMeasurement | dstack/dstack-mr/src/sev.rs:721-790 | the digest of the specified page updates, with every error case; which pages they visit, by type and address, is `SnpBinding.SectionsAreVisited` and `SnpBinding.VmsaVisits` |
| SnpMeasurement.MeasureSections | dstack/dstack-mr/src/sev.rs:746-774 | the section loop extends by the sections' updates and fails exactly when a section cannot be measured or no kernel hash section exists |
| SnpBinding.ValidInputMeasures | dstack/dstack-mr/src/sev.rs:145-212 | a valid input costs at most 65536 + 512 updates and is measured if and only if the table offset plus 176 is at most 4096 |
| SnpBinding.ProjectionKeepsLaunch | dstack/dstack-mr/src/sev.rs:794-818 | for every input the projection accepts, rebuilding keeps the validator's verdict and the expected digest |
| SnpBinding.ValidInputProjects | dstack/dstack-mr/src/sev.rs:1037-1063 | every valid input can be projected |
| SnpBinding.SamePartition | dstack/dstack-mr/src/sev.rs:776-787 | if one update sequence is the end of another, their VMSA pages are the same and the section pages of the one are the end of those of the other |
| SnpBinding.SectionsNormalPages | dstack/dstack-mr/src/sev.rs:747-774 | the only page measured by contents is the kernel hash table, and it occurs |
| SnpBinding.SectionsAreVisited | dstack/dstack-mr/src/sev.rs:746-774 | the sections contribute, in order, ZERO pages (type 3) at every started 4 KiB of memory and CAA sections, and one page of type 5, 6 or 1 for secrets, CPUID and kernel hashes, each at its own address |
| SnpBinding.VmsaVisits | dstack/dstack-mr/src/sev.rs:776-787 | then one page of type 2 at 0xFFFFFFFFF000 for each processor |
| SnpBinding.VisitsCommit | dstack/dstack-mr/src/sev.rs:721-790 | if the section updates of one launch end those of another, the page types and addresses of the one end those of the other |
| SnpBinding.MeasurementBinds | dstack/dstack-mr/src/sev.rs:721-790 | equal expected digests, whatever the number of updates: same number and kind of processors, kernel, initrd, command line and rootfs, the page types and addresses of the shorter input end those of the longer one, and the shorter input starts from the digest the longer one has reached by then, or one of five named collisions |
| SnpBinding.EqualCountsBind | dstack/dstack-mr/src/sev.rs:721-790 | with equally many updates the firmware seeds are equal as well, and the sections visit the same pages by type and address |
| Utf8.Injective | dstack/dstack-mr/src/sev.rs:337-340 | different command lines have different bytes |
| DnsZone.Zone.AddRecord | dstack/certbot/src/dns01_client.rs:31-41 | the record is added exactly when the next fault is not a refusal and the provider does not turn it down as a duplicate; its fresh id is answered exactly when the answer is not lost |
| DnsZone.Zone.RemoveRecord | dstack/certbot/src/dns01_client.rs:43-46 | the record goes exactly when it is there and the next fault is not a refusal; the call succeeds exactly when the answer is not lost either |
| DnsZone.Zone.GetRecords | dstack/certbot/src/dns01_client/cloudflare.rs:236-283 | every record at the name, compared without case and trailing dots, once each |
| DnsZone.AtIs | dstack/certbot/src/dns01_client/cloudflare.rs:242-275 | a record is at a name if and only if the two agree up to the case of their letters and their trailing dots |
| CaaText.GuardIsGuard | dstack/certbot/src/acme_client.rs:384-390 | the guards certbot adds are recognised as guards |
| CaaText.ContentIsNoGuard | dstack/certbot/src/acme_client.rs:158-164 | the records certbot installs are never guards, whatever issuer and account they name |
| CaaText.RenderedTag | dstack/certbot/src/acme_client.rs:375-377 | the tag of a rendered record reads back |
| CaaText.RenderedReads | dstack/certbot/src/acme_client.rs:549-594 | a rendered record reads as flags 0, the tag and the quoted value |
| CaaText.GuardDenies | dstack/certbot/src/acme_client.rs:384-390 | whatever is recognised as a guard is an issue or issuewild record that names no issuer |
| CaaText.ContentReads | dstack/certbot/src/acme_client.rs:158-164 | the value installed names the issuer, one validation method and one account, for any issuer and account without a semicolon |
| Caa.AdoptGuards | dstack/certbot/src/acme_client.rs:532-547 | finds a stale guard of each tag exactly when there is one |
| Caa.SetGuard | dstack/certbot/src/acme_client.rs:549-565 | a guard of the tag is there afterwards, by safe steps only |
| Caa.RemoveOthers | dstack/certbot/src/acme_client.rs:567-581 | on success the guards are the only issuer records of the name; the guards stay throughout |
| Caa.Install | dstack/certbot/src/acme_client.rs:583-590 | the two new records are added beside the guards, duplicating nothing |
| Caa.RemoveGuards | dstack/certbot/src/acme_client.rs:593-594 | on success exactly the two new records are left |
| Caa.ReplaceCaa | dstack/certbot/src/acme_client.rs:514-595 | one name: safe steps wherever it stops, other records untouched, exactly the two new records when it finishes, and it finishes if no call fails |
| Caa.SetCaaRecords | dstack/certbot/src/acme_client.rs:506-597 | all base names: no step leaves a restricted name open or adds a duplicate, records other than the names' issuer records, and all records that are not CAA records, are untouched, a finished run leaves exactly the two new records at each name, and from any zone a run without failures finishes |
| Caa.FinishedMeans | dstack/certbot/src/acme_client.rs:583-594 | after a finished replacement every issue and issuewild record of the name names the issuer, one validation method and one account and nothing else, and there is one of each |
| Caa.RunAll | dstack/certbot/src/acme_client.rs:506-597 | any number of runs, stopped anywhere, with any content: every step of the whole history is safe |
| Caa.RestrictionLasts | dstack/certbot/src/acme_client.rs:514-595 | over such a history a name restricted by a tag at one moment is restricted at every later one, with tags compared as written and without case |
| Caa.OtherCaseStays | dstack/certbot/src/acme_client.rs:375-377 | whatever is replaced, a record tagged `Issue` stays, and restricts its name as a CA reads it |
| Caa.OtherCaseRun | dstack/certbot/src/acme_client.rs:506-597 | a finished run on a zone with such a record, which is still there |
| Caa.FinishedKept | dstack/certbot/src/acme_client.rs:514-595 | finishing one name keeps the names finished before it |
| Caa.BaseNameIs | dstack/certbot/src/acme_client.rs:368-373 | a wildcard name stands for its base name, any other name for itself |
| Dns01.RemoveTxtRecords | dstack/certbot/src/dns01_client.rs:54-63 | succeeds exactly when the listing and every removal go through, and then the TXT records at the name are gone and nothing else is; on failure some of them are; how much of the script is used |
| Dns01.Publish | dstack/certbot/src/acme_client.rs:792-808 | purge unless this run published at the name, then add: success, whether a record was added and what is left of the script, as predicted from the zone and the script; every step it makes |
| Dns01.PublishKeepsLive | dstack/certbot/src/acme_client.rs:1144-1148 | publishing keeps all challenges live if and only if the names are spelled one way |
| Dns01.RespellingWipes | dstack/certbot/src/acme_client.rs:1144-1148 | a concrete pair of names for which publishing the second challenge takes down the first |
| Dns01.ExactlyPublished | dstack/certbot/src/acme_client.rs:792-808 | the TXT records at a published name are exactly the challenges published there |
| Dns01.Authorize | dstack/certbot/src/acme_client.rs:759-827 | its result, the challenges it knows of and the challenge whose record it added without knowing are those predicted from the zone, the order and the script; that record is there exactly when the last step is an add whose answer was lost; the challenges are live together if and only if the names are spelled one way, and then no step removes a record of this run |
| Dns01.HealthyNetwork | dstack/certbot/src/acme_client.rs:759-827 | without a lost answer in the script no record is added unknown to the run, and the rest of the script has no fault the script did not have |
| Dns01.AuthorizedExactly | dstack/certbot/src/acme_client.rs:759-827 | authorizing succeeds only if every authorization is valid or pending with a dns-01 challenge, and then the challenges are the names and values of the pending ones, in order |
| Dns01.HealthyAuthorizes | dstack/certbot/src/acme_client.rs:759-827 | on a healthy network, with a provider that takes duplicates, it succeeds if and only if they are |
| Dns01.LostAnswerStays | dstack/certbot/src/acme_client.rs:792-808 | a concrete order whose record is added, unknown to the run |
| Dns01.CleanUp | dstack/certbot/src/acme_client.rs:610-621 | removes nothing but the challenges; a challenge stays if and only if its removal is refused |
| Dns01.RequestNewCertificate | dstack/certbot/src/acme_client.rs:602-623 | whatever happens to the order, the records of this run that stay are exactly the predicted unanswered one and the predicted challenges whose removal is refused; none if the script has no refusal and no lost answer; no older record goes except TXT records at the order's names, and no record that is not TXT changes |
| Dns01.LostAnswerRun | dstack/certbot/src/acme_client.rs:602-623 | a run on an empty zone whose one answer is lost leaves exactly the record of that challenge |
| RuntimeEvents.ReplayEvents | dstack/cc-eventlog/src/runtime_events.rs:165-176 | the loop returns the replay of the events up to and including the first with the given name; what a replay says about the events is `EventBinding.ReplaysBind` and `EventBinding.LogsBind` |
| RuntimeEvents.UpTo | dstack/cc-eventlog/src/runtime_events.rs:165-176 | the prefix that ends at the first event of that name, or all events |
| RuntimeEvents.MutexStep | dstack/dstack-attest/src/lib.rs:80-93 | every step keeps the lock with the one process that is past it |
| RuntimeEvents.VersionedStep | dstack/dstack-attest/src/lib.rs:104-147 | every step keeps one version for all events, and the version on file never changes |
| RuntimeEvents.OrderedStep | dstack/dstack-attest/src/lib.rs:190-225 | every step keeps the log, with the event in flight, an in-order subsequence of what each configured register measured |
| RuntimeEvents.RunKeeps | dstack/dstack-attest/src/lib.rs:190-225 | in every interleaving, with failures and crashes anywhere, mutual exclusion, versions, register contents and order hold |
| RuntimeEvents.LogIsMeasured | dstack/dstack-attest/src/lib.rs:190-225 | in every run the log is an in-order subsequence of what each configured register measured, under one version |
| RuntimeEvents.ReplayReproduces | dstack/cc-eventlog/src/runtime_events.rs:72-103 | in every run without failures each configured register equals the replay of the log whenever the lock is free |
| RuntimeEvents.EmissionMeasures | dstack/dstack-attest/src/lib.rs:190-225 | an emission without failures logs the event and extends RTMR3 by its SHA-384 digest on TDX and on Google TDX, PCR 14 by its SHA-256 digest on Google TDX and by its SHA-384 digest on NitroTPM, and no register on any other platform |
| RuntimeEvents.StartsFromZeros | dstack/cc-eventlog/src/runtime_events.rs:165-176 | the registers start from zeros, 32 bytes in a SHA-256 bank and 48 otherwise |
| RuntimeEvents.MeasuresTheLogExactly | dstack/dstack-attest/src/lib.rs:190-225 | in every run, whenever the lock is free, a register has measured exactly the log if and only if no step ended an emission that the register had measured and the log had not |
| RuntimeEvents.ReplayDespiteFailures | dstack/cc-eventlog/src/runtime_events.rs:72-103 | in every run without such a step, whatever else failed, each configured register equals the replay of the log whenever the lock is free |
| RuntimeEvents.StrandedShows | dstack/cc-eventlog/src/runtime_events.rs:72-103 | in every run with such a step, whenever the lock is free, the register differs from the replay of the log, or two named extends collide, or its first extends, as many as the log lacks, lead back to the start value |
| RuntimeEvents.ReplaysAlike | dstack/cc-eventlog/src/runtime_events.rs:165-176 | two replays with one result: the longer one begins with extends that lead back to the start value, or two named extends collide |
| EventBinding.ReplaysBind | dstack/cc-eventlog/src/runtime_events.rs:117-176 | two replays of equally many events with one value: the same preimages one by one, or two extends or two preimages, named, collide |
| EventBinding.V1Bytes | dstack/cc-eventlog/src/runtime_events.rs:128-139 | a version 1 preimage is the bytes 01 00 00 08, a colon, the name in UTF-8, a colon and the payload |
| EventBinding.V1Binds | dstack/cc-eventlog/src/runtime_events.rs:128-139 | version 1 events whose names have no colon and with one preimage have the same name and payload |
| EventBinding.V1Ambiguous | dstack/cc-eventlog/src/runtime_events.rs:128-139 | two different version 1 events with one preimage |
| EventBinding.V1Exactly | dstack/cc-eventlog/src/runtime_events.rs:128-139 | a version 1 event is the only one with its preimage if and only if its name has no colon and no colon of the payload stands behind valid UTF-8 |
| EventBinding.V2Binds | dstack/cc-eventlog/src/runtime_events.rs:140-142 | version 2 events with one preimage have the same name and payload, if the canonical JSON is injective |
| EventBinding.LogsBind | dstack/cc-eventlog/src/runtime_events.rs:117-176 | two logs of one version and length that replay to one value are the same log, or something named collides; for version 1, if no name has a colon |
| EventJson.CanonicalInjective | dstack/cc-eventlog/src/runtime_events.rs:155-162 | the canonical JSON determines the name and the payload |
| EventJson.CanonicalBinds | dstack/cc-eventlog/src/runtime_events.rs:155-162 | so the condition of V2Binds holds of it |
| EventJson.CanonicalReads | dstack/cc-eventlog/src/runtime_events.rs:155-162 | as a JSON reader reads it, the text is an object of name, payload in hexadecimal and type 134217729, in this order, whatever the name contains |
| RuntimeEvents.FailedExtendStrands | dstack/dstack-attest/src/lib.rs:190-225 | a concrete run after which the register has measured an event and the log is empty |
| CryptoStream.NoncesDiffer | dstack/dstack-util/src/crypto.rs:71-76 | no two chunk indices share a nonce |
| CryptoStream.ReadChunk | dstack/dstack-util/src/crypto.rs:175-188 | fills the buffer unless the input ends, for every pattern of short reads; it fails only if a read does |
| CryptoStream.Source.Read | dstack/dstack-util/src/crypto.rs:175-188 | a reader returns some but not necessarily all bytes asked for, and none only at the end; an unreliable one may fail at any call |
| CryptoStream.EncryptStream | dstack/dstack-util/src/crypto.rs:95-173 | with two swapped buffers and any short reads the output is the specified stream; with a reliable reader it succeeds exactly for a valid chunk size, a non-zero secret and at most 2^32 chunks; after a failed read what was written is a prefix of the stream; the nonces handed to the cipher are those of chunks 0, 1, 2 and so on, one for each chunk, no two of them equal |
| CryptoStream.DecryptStream | dstack/dstack-util/src/crypto.rs:191-263 | for any short reads, what is written and whether it succeeds is what the specification says of the remaining input; after a failed read it fails, having written a prefix of that |
| CryptoStream.RoundTrip | dstack/dstack-util/src/crypto.rs:95-263 | for every plaintext and chunk size, decrypting the stream returns the plaintext |
| CryptoStream.Truncation | dstack/dstack-util/src/crypto.rs:191-263 | every strict prefix of the stream is an error, and what was written by then is a prefix of the plaintext |
| CryptoStream.CutFramesFail | dstack/dstack-util/src/crypto.rs:218-262 | the same from any chunk on |
| StreamFormat.StreamLayout | dstack/dstack-util/src/crypto.rs:78-173 | for every text, frame `k` starts at byte 45 + k * (21 + chunk size) and has flag 1 exactly if it is the last, the length, and chunk `k` sealed under the nonce prefix with the big-endian index and an associated data of magic, header, little-endian index and frame header; the stream ends with the last frame |
| StreamFormat.RefusedHeaders | dstack/dstack-util/src/crypto.rs:191-217 | a header is refused if and only if its version is not 0, its chunk size not 1 to 16777216, or the shared secret zero; otherwise the frames decide |
| StreamFormat.RefusedFrames | dstack/dstack-util/src/crypto.rs:218-236 | a frame with a flag over 1, a length over the chunk size, a short length without the final flag, or too few bytes is refused |
| StreamIntegrity.AcceptedIsSent | dstack/dstack-util/src/crypto.rs:191-263 | for every input, however the header is altered and the frames are reordered, repeated, spliced, cut or altered: what is written is a prefix of the plaintext and it is accepted if and only if it is the stream that was sent, or a frame, named by its number and preceded by the stream that was sent, opened by a cipher call the sender never made |
| StreamIntegrity.AcceptedFrames | dstack/dstack-util/src/crypto.rs:218-262 | the same from any chunk on |
| StreamIntegrity.OtherHeader | dstack/dstack-util/src/crypto.rs:78-93 | under any other header nothing opens, or the first frame opens by a cipher call the sender never made |
| StreamIntegrity.SentIsNotForged | dstack/dstack-util/src/crypto.rs:95-173 | in the stream that was sent no frame is of that kind, for every correct cipher |
| DnsPersist.ResolveIssuerDomainName | dstack/certbot/src/dns_persist.rs:47-97 | the default, or the configured name without its trailing dots when every label is legal |
| DnsPersist.ResolvedStays | dstack/certbot/src/dns_persist.rs:47-97 | a resolved name is a legal issuer name and resolves to itself |
| DnsPersist.Parse | dstack/certbot/src/dns_persist.rs:194-265 | the loop with its list of seen tags computes the declarative reading, error cases included |
| DnsPersist.RdataParses | dstack/certbot/src/dns_persist.rs:129-138 | rendering then parsing recovers every field |
| DnsPersist.RenderingSatisfies | dstack/certbot/src/dns_persist.rs:146-165 | one record's rendering satisfies another's requirement if and only if the issuers fold together, the URIs are equal and a wildcard requirement meets a wildcard record, for every lower-casing that agrees with the ASCII one on ASCII text |
| IssueValues.RecordReads | dstack/certbot/src/dns_persist.rs:194-265 | whatever the order of the parameters, the case of their tags, the blanks around them and the unknown ones among them, a record reads as the one value given under each tag; it is refused if and only if it names no issuer, not exactly one non-empty account, a known tag twice, or an expiry that is no number |
| IssueValues.RecordOf | dstack/certbot/src/dns_persist.rs:194-265 | every record the parser takes is so written |
| IssueValues.RecordSatisfies | dstack/certbot/src/dns_persist.rs:146-165 | a record satisfies a requirement if and only if it is taken, its issuer and account are the required ones, it has not expired, and a wildcard requirement meets a wildcard policy |
| IssueValues.NumeralReads | dstack/certbot/src/dns_persist.rs:248-254 | every decimal numeral below 2^64, with or without a plus sign and leading zeros, reads as its number, and none from there on |
| IssueValues.NumeralOf | dstack/certbot/src/dns_persist.rs:248-254 | nothing else reads as a number |
| IssuerNames.IssuerNameIs | dstack/certbot/src/dns_persist.rs:56-95 | the legal issuer names by their characters: letters, digits and hyphens between dots, no hyphen or dot at the edge of a label, no 64 characters without a dot, at most 253 in all |
| IssuerNames.ResolvesExactly | dstack/certbot/src/dns_persist.rs:47-97 | with white space around it and dots behind it, a name resolves to itself if it is legal, and is refused otherwise |
| IssuerNames.DefaultIssuer | dstack/certbot/src/dns_persist.rs:47-51 | a blank name resolves to letsencrypt.org |
| IssuerNames.IssuersMatch | dstack/certbot/src/dns_persist.rs:277-279 | two ASCII issuers are compared up to the case of their letters and their trailing dots |
| Checksums.Parse | dstack/dstack-types/src/sha256sum.rs:21-41 | on every byte string, the loop computes the declarative reading, error cases and bytes that are not UTF-8 included |
| Checksums.PrintedLineParses | dstack/dstack-types/src/sha256sum.rs:51-66 | a printed line parses to its entry |
| Checksums.ParsedLineIsPrinted | dstack/dstack-types/src/sha256sum.rs:51-76 | an accepted line is the printing of a valid entry |
| Checksums.ValidNameIs | dstack/dstack-types/src/sha256sum.rs:70-76 | the names accepted, by their characters: no path separator, no leading dot, not the manifest itself |
| Checksums.ParsePrint | dstack/dstack-types/src/sha256sum.rs:21-41 | the printed bytes of every non-empty list of valid uniquely named entries parse back to it |
| Checksums.PrintParse | dstack/dstack-types/src/sha256sum.rs:21-41 | every accepted file is, byte for byte, the printing of its entries, which are valid and uniquely named |
| Checksums.EntryHash | dstack/dstack-types/src/sha256sum.rs:43-49 | found if and only if the file is accepted and lists the name, and then the only digest it has |
| Utf8.ReadsBack | dstack/dstack-types/src/sha256sum.rs:21-25 | decoding the encoding of a text returns the text |
| Utf8.WritesBack | dstack/dstack-types/src/sha256sum.rs:21-25 | bytes that decode are the encoding of what they decode to: no overlong forms, surrogates or other second spellings |
| Utf8.Examples | dstack/dstack-types/src/sha256sum.rs:21-25 | one character of each length, with the examples of section 7 of RFC 3629 |
| CtMonitor.Scan | dstack/ct_monitor/src/main.rs:410-439 | visits exactly the entries in front of the watermark, records exactly the failing ones, and reports a missing watermark exactly when it is not on the page |
| CtMonitor.Monitor.CheckNewLogs | dstack/ct_monitor/src/main.rs:335-352 | one pass of the state machine; the watermark moves even when checks fail |
| CtMonitor.NoneTwice | dstack/ct_monitor/src/main.rs:335-352 | over any passes on an append-only log with unique ids no entry is checked twice |
| CtMonitor.CheckedOnce | dstack/ct_monitor/src/main.rs:335-439 | a pass that reports no missing watermark checks exactly the entries added since the previous non-empty page, whatever the checks say |
| CtMonitor.MissingExactly | dstack/ct_monitor/src/main.rs:410-439 | a pass reports a missing watermark if and only if its page is no longer than the entries added since the previous non-empty page |

## Left out

- Quote, certificate and signature verification in `attestation.rs`: delegated to crates that are not part of this model.
- ACPI table generation: the three digests are inputs.
- The Authenticode hash body, SHA, AES-GCM and X25519 internals: parameters.
- CBOR, JSON, SCALE and msgpack codecs: a document is the record it encodes. The one check made while decoding that affects a result, the length of the command line, is modelled.
- The protocol of `RuntimeEvents` takes the canonical JSON of version 2 events as a parameter; `EventJson` models it on its own.
- OVMF footer and metadata parsing for SEV-SNP (`sev.rs:484-635`): the sections, table address and reset address are inputs.
- QEMU version strings: the parsed version is an input, with a case for a malformed one.
- HTTP, ACME order polling, resolver discovery, DNS propagation checks, TPM commands and file system calls: I/O. A writer never fails.
- DnsZone.Zone.GetRecords: lists every record at a name, while the Cloudflare client stops after 19 pages of 100 records; one fault meets the whole listing.
- Concurrent writers to one DNS zone: runs follow one another. A client without DNS write access, which fails before its first call, has no zone to model.
- The log append of a runtime event is one step, though the code makes two writes (line and newline).
- SnpMeasurement.ComputeExpectedMeasurement: the hash table page and the VMSA page are built as values rather than in a mutable buffer.
- `TtlCell`, version types, legacy attestation enums, MrConfig ids, build scripts, SDKs and mock servers: easy or outside the core.
