/** Images whose measurement document is refused at a memory size at which the image measures. */
module LiteRefusal {
  import opened Common
  import opened Sequences
  import opened Text
  import opened MemoryAcceptance
  import opened TdHob
  import opened Tdvf
  import opened TdHobWitness
  import opened Kernel
  import opened Mrtd
  import opened Patching
  import opened TdxMeasurement

  const ONE_GIB := 0x4000_0000

  /** A command line that names a rootfs and nothing else. */
  function Cmdline(): string {
    ROOTFS_PARAM + EncodeHex(Zeros(32))
  }

  /** Two pages for the TD HOB. */
  const HOB_SECTION := Section(0, 0, 0x80_9000, 0x2000, SECTION_TD_HOB, 0)

  /** A firmware that is nothing but its metadata. */
  function Bios(): ByteString {
    FirmwareBytes(BodyBytes([], 0, [HOB_SECTION], []), TableBytes([], 120, []), Zeros(32))
  }

  /** An image with this kernel, whose header QEMU rewrites, and this initrd. */
  function Image(kernel: ByteString, initrd: ByteString): ImageDir {
    ImageDir(Some(Cmdline()), Bios(), kernel, initrd, None, false)
  }

  function Vm(): VmConfig {
    VmConfig(ONE_GIB, Unset, None, None)
  }

  lemma PrintableIsNoSpace(s: string)
    requires forall i :: 0 <= i < |s| ==> '!' <= s[i] <= '~'
    ensures NoSpace(s)
  {
  }

  lemma ParamIsPrintable()
    ensures NoSpace(ROOTFS_PARAM)
  {
    hide IsSpace;
    assert forall i :: 0 <= i < |ROOTFS_PARAM| ==> '!' <= ROOTFS_PARAM[i] <= '~';
    PrintableIsNoSpace(ROOTFS_PARAM);
  }

  lemma NoSpaceAppend(a: string, b: string)
    requires NoSpace(a) && NoSpace(b)
    ensures NoSpace(a + b)
  {
    hide IsSpace;
  }

  lemma HexIsPrintable(b: ByteString)
    ensures NoSpace(EncodeHex(b))
  {
    HexIsLower(b);
    hide EncodeHex, IsSpace, NoSpace;
    PrintableIsNoSpace(EncodeHex(b));
  }

  lemma WholeLine(line: string)
    requires NoSpace(line) && line != ""
    ensures Required(Some(line)) == Ok(line) && Words(line) == [line]
  {
    hide IsSpace;
    OnlyWord(line, "");
    assert "" + line == line;
    assert TrimStart(line) == line && TrimEnd(line) == line;
  }

  lemma OneRootfs(hash: ByteString)
    ensures RootfsValues([ROOTFS_PARAM + EncodeHex(hash)]) == [EncodeHex(hash)]
  {
    hide EncodeHex;
    var hex := EncodeHex(hash);
    var line := ROOTFS_PARAM + hex;
    assert line[|ROOTFS_PARAM|..] == hex;
    var words := [line];
    assert words[..0] == [] && RootfsValues(words[..0]) == [];
  }

  lemma CmdlineIsAccepted()
    ensures Required(Some(Cmdline())) == Ok(Cmdline()) && RootfsHash(Cmdline()).Ok?
  {
    hide IsSpace, NoSpace, Words, EncodeHex, DecodeHex, RootfsValues, Required;
    HexIsPrintable(Zeros(32));
    ParamIsPrintable();
    NoSpaceAppend(ROOTFS_PARAM, EncodeHex(Zeros(32)));
    WholeLine(Cmdline());
    OneRootfs(Zeros(32));
    HexRoundTrip(Zeros(32));
  }

  lemma BiosParses()
    ensures SectionTable(Bios()) == Ok([HOB_SECTION])
  {
    hide FromLe, Le, FindEntry, ParseTable;
    var body, table := BodyBytes([], 0, [HOB_SECTION], []), TableBytes([], 120, []);
    assert |FlatMap([HOB_SECTION], SectionBytes)| == 32 by { FlatMapOne(HOB_SECTION, SectionBytes); }
    assert FlatMap<Entry, Byte>([], EntryBytes) == [];
    hide FlatMap;
    assert |body| == 48 && |table| == 22;
    var fw := FirmwareBytes(body, table, Zeros(32));
    assert |fw| == 120;
    hide BodyBytes, TableBytes, FirmwareBytes;
    assert ValidTable(fw, [HOB_SECTION]) by { TableIsValid(fw); }
    LayoutParses([], 0, [HOB_SECTION], [], [], 120, [], Zeros(32), fw);
  }

  lemma TableIsValid(fw: ByteString)
    requires |fw| == 120
    ensures ValidTable(fw, [HOB_SECTION])
  {
    assert TotalPages([HOB_SECTION]) == 2 by { assert [HOB_SECTION][1..] == [] && [HOB_SECTION][..0] == []; }
  }

  lemma HasWitness()
    ensures Witness([HOB_SECTION]).Ok?
  {
    hide Witness;
    FlatMapOne(HOB_SECTION, SectionPages);
    FlatMapOne(HOB_SECTION, HobPage);
    hide FlatMap;
    WitnessExists([HOB_SECTION]);
  }

  lemma TdHobExists()
    ensures TdHobOfSections([HOB_SECTION], ONE_GIB).Ok?
  {
    hide AcceptAll, HobList, AcceptedSpans, HobBase, TdHobOfSections, TdHob.Assemble;
    var p := Span(0x80_9000, 0x80_B000);
    SpansAre(p);
    assert !Wraps(HOB_SECTION);
    FromSections([HOB_SECTION], ONE_GIB);
    OneAcceptHobs(ONE_GIB, p);
    var last := LastHobs(Range(false, p.end, ONE_GIB), ONE_GIB);
    assert |last| == 1;
    hide LastHobs;
    AssembleFits([Hob(HOB_UNACCEPTED, 0, p.start)] + [Hob(HOB_SYSTEM_MEMORY, p.start, p.end - p.start)] + last, 0x80_9000);
  }

  lemma SpansAre(p: Span)
    requires p == Span(0x80_9000, 0x80_B000)
    ensures AcceptedSpans([HOB_SECTION]) == [p] && HobBase([HOB_SECTION]) == 0x80_9000
  {
    FlatMapOne(HOB_SECTION, SectionSpan);
  }

  lemma AssembleFits(hobs: seq<Hob>, base: Word64)
    requires |hobs| == 3 && base == 0x80_9000
    ensures TdHob.Assemble(hobs, base).Ok?
  {
  }

  lemma DocumentExists(sha: Sha384, auth: Authenticode, dir: ImageDir)
    requires Required(dir.cmdline).Ok? && RootfsHash(Required(dir.cmdline).value).Ok?
    requires SectionTable(dir.bios).Ok? && Witness(SectionTable(dir.bios).value).Ok?
    requires KernelHash(auth, dir, HIGH_MEMORY_MIN).Ok?
    ensures DocumentOf(sha, auth, dir).Ok?
    ensures DocumentOf(sha, auth, dir).value.kernelHeaderNormalized == dir.kernelHeaderNormalized
  {
    hide Required, RootfsHash, SectionTable, KernelHash, Witness, Stream;
  }

  lemma ImageMeasures(sha: Sha384, auth: Authenticode, dir: ImageDir, vm: VmConfig, acpi: AcpiHashes)
    requires Required(dir.cmdline).Ok? && SectionTable(dir.bios).Ok? && PageOrder(vm).Ok?
    requires TdHobOfSections(SectionTable(dir.bios).value, vm.memorySize).Ok?
    requires KernelHash(auth, dir, vm.memorySize).Ok?
    ensures MeasureImage(sha, auth, dir, vm, acpi).Ok?
  {
    hide Required, SectionTable, KernelHash, TdHobOfSections, Stream, PageOrder, TdxMeasurement.Assemble;
  }

  /** Any kernel and initrd that measure at both memory sizes: the document is built, and at 1 GiB
      the image measures while the document is refused. */
  lemma DocumentRefused(sha: Sha384, auth: Authenticode, kernel: ByteString, initrd: ByteString, acpi: AcpiHashes)
    requires KernelHash(auth, Image(kernel, initrd), HIGH_MEMORY_MIN).Ok?
    requires KernelHash(auth, Image(kernel, initrd), ONE_GIB).Ok?
    ensures var dir := Image(kernel, initrd);
            && DocumentOf(sha, auth, dir).Ok? && MeasureImage(sha, auth, dir, Vm(), acpi).Ok?
            && MeasureDocument(sha, DocumentOf(sha, auth, dir).value, Vm(), acpi).Err?
  {
    hide Cmdline, Bios, Required, RootfsHash, SectionTable, KernelHash, Witness, TdHobOfSections, DocumentOf, MeasureImage;
    hide MeasureDocument, Decodes;
    var dir := Image(kernel, initrd);
    CmdlineIsAccepted();
    BiosParses();
    HasWitness();
    TdHobExists();
    DocumentExists(sha, auth, dir);
    ImageMeasures(sha, auth, dir, Vm(), acpi);
    LitePathAgrees(sha, auth, dir, DocumentOf(sha, auth, dir).value, Vm(), acpi);
  }

  /** The refusal has a cause for a kernel that follows the memory size and an initrd of a telling
      length: the digest in the document and the one the VM measures are of different kernels. */
  lemma DigestsDiffer(auth: Authenticode, kernel: ByteString, initrd: ByteString)
    requires FollowsMemory(kernel) && |initrd| == TellingSize(ONE_GIB)
    requires KernelHash(auth, Image(kernel, initrd), HIGH_MEMORY_MIN).Ok?
    requires KernelHash(auth, Image(kernel, initrd), ONE_GIB).Ok?
    ensures var high := Patch(kernel, |initrd|, HIGH_MEMORY_MIN, ACPI_DATA_SIZE);
            var low := Patch(kernel, |initrd|, ONE_GIB, ACPI_DATA_SIZE);
            && high.Ok? && KernelHash(auth, Image(kernel, initrd), HIGH_MEMORY_MIN) == auth(high.value)
            && low.Ok? && KernelHash(auth, Image(kernel, initrd), ONE_GIB) == auth(low.value)
            && high.value != low.value
  {
    hide Patch, FollowsMemory, TellingSize, Cmdline, Bios;
    PredicateIsTight(kernel, ONE_GIB);
    MemoryIndependence(kernel, |initrd|, HIGH_MEMORY_MIN, COMPAT_2G, ACPI_DATA_SIZE);
  }

  /** Without an initrd it has none: the digest is the same at every memory size, and the document is
      refused all the same. */
  lemma NoInitrdNoDifference(auth: Authenticode, kernel: ByteString, mem: nat, mem': nat)
    ensures KernelHash(auth, Image(kernel, []), mem) == KernelHash(auth, Image(kernel, []), mem')
  {
    hide LoaderWrites, Apply, Cmdline, Bios, InitrdLimit;
  }
}
