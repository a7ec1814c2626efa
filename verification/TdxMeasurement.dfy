/** The TDX registers computed two ways: from the image files, and from the compact
    measurement document that stands in for them when nothing is downloaded. */
module TdxMeasurement {
  import opened Common
  import opened Text
  import opened Tdvf
  import opened Mrtd
  import opened Kernel
  import opened TdHobWitness
  import Utf8
  import Utf16

  /** The only RTMR0 event layout there is. */
  datatype OvmfVariant = Pre202505

  /** The Authenticode digest of a PE image, or an error if it is not one. */
  type Authenticode = ByteString -> Result<Bytes48>

  /** metadata.json and the files it names. */
  datatype ImageDir = ImageDir(
    cmdline: Option<string>,
    bios: ByteString,
    kernel: ByteString,
    initrd: ByteString,
    ovmfVariant: Option<OvmfVariant>,
    kernelHeaderNormalized: bool)

  datatype QemuVersion = Unset | Malformed | Version(major: nat, minor: nat, patch: nat)

  /** The parts of the VM configuration the measurements depend on. `twoPassAddPages` is the
      configuration's `qemu_single_pass_add_pages`: despite that name its value is the one used to
      choose the two-pass register, when it is given. */
  datatype VmConfig = VmConfig(
    memorySize: Word64,
    qemuVersion: QemuVersion,
    twoPassAddPages: Option<bool>,
    ovmfVariant: Option<OvmfVariant>)

  datatype AcpiHashes = AcpiHashes(loader: ByteString, rsdp: ByteString, tables: ByteString)

  datatype Registers = Registers(mrtd: ByteString, rtmr0: ByteString, rtmr1: ByteString, rtmr2: ByteString)

  datatype Document = Document(
    baseCmdline: string,
    kernelAuthenticode: ByteString,
    initrdSha384: ByteString,
    ovmfVariant: OvmfVariant,
    mrtdSinglePass: ByteString,
    mrtdTwoPass: ByteString,
    tdHobWitness: ByteString,
    kernelHeaderNormalized: bool)

  const MAX_CMDLINE_LEN := 2048
  const INITRD_SUFFIX := " initrd=initrd"

  // ----- event logs -----

  /** The register after extending every entry of the log into 48 zero bytes. */
  function MeasureLog(sha: Sha384, log: seq<ByteString>): (mr: ByteString)
    ensures |mr| == 48
  {
    if log == [] then Zeros(48) else sha(MeasureLog(sha, log[..|log| - 1]) + log[|log| - 1])
  }

  method MeasureEventLog(sha: Sha384, log: seq<ByteString>) returns (mr: ByteString)
    ensures mr == MeasureLog(sha, log)
  {
    mr := Zeros(48);
    for i := 0 to |log|
      invariant mr == MeasureLog(sha, log[..i])
    {
      assert log[..i + 1][..i] == log[..i];
      mr := sha(mr + log[i]);
    }
    assert log[..|log|] == log;
  }

  /** 8BE4DF61-93CA-11D2-AA0D-00E098032B8C and D719B2CB-3D3A-4596-A3BC-DAD00E67656F. */
  const EFI_GLOBAL_GUID: ByteString :=
    [0x61, 0xdf, 0xe4, 0x8b, 0xca, 0x93, 0xd2, 0x11, 0xaa, 0x0d, 0x00, 0xe0, 0x98, 0x03, 0x2b, 0x8c]
  const IMAGE_SECURITY_GUID: ByteString :=
    [0xcb, 0xb2, 0x19, 0xd7, 0x3a, 0x3d, 0x96, 0x45, 0xa3, 0xbc, 0xda, 0xd0, 0x0e, 0x67, 0x65, 0x6f]

  const CFV_IMAGE_HASH: ByteString :=
    [ 0x34, 0x4b, 0xc5, 0x1c, 0x98, 0x0b, 0xa6, 0x21, 0xaa, 0xa0, 0x0d, 0xa3, 0xed, 0x74, 0x36, 0xf7,
      0xd6, 0xe5, 0x49, 0x19, 0x7d, 0xfe, 0x69, 0x95, 0x15, 0xdf, 0xa2, 0xc6, 0x58, 0x3d, 0x95, 0xe6,
      0x41, 0x2a, 0xf2, 0x1c, 0x09, 0x7d, 0x47, 0x31, 0x55, 0x87, 0x5f, 0xfd, 0x56, 0x1d, 0x67, 0x90 ]
  const BOOT0000_HASH: ByteString :=
    [ 0x23, 0xad, 0xa0, 0x7f, 0x52, 0x61, 0xf1, 0x2f, 0x34, 0xa0, 0xbd, 0x8e, 0x46, 0x76, 0x09, 0x62,
      0xd6, 0xb4, 0xd5, 0x76, 0xa4, 0x16, 0xf1, 0xfe, 0xa1, 0xc6, 0x4b, 0xc6, 0x56, 0xb1, 0xd2, 0x8e,
      0xac, 0xf7, 0x04, 0x7a, 0xe6, 0xe9, 0x67, 0xc5, 0x8f, 0xd2, 0xa9, 0x8b, 0xfa, 0x74, 0xc2, 0x98 ]

  function EfiVariable(sha: Sha384, guid: ByteString, name: string): ByteString {
    sha(guid + Le(|name|, 8) + Le(0, 8) + Utf16.Encode(name))
  }

  function Rtmr0Log(sha: Sha384, tdHobHash: ByteString, variant: OvmfVariant, acpi: AcpiHashes): seq<ByteString> {
    match variant
    case Pre202505 =>
      [ tdHobHash,
        CFV_IMAGE_HASH,
        EfiVariable(sha, EFI_GLOBAL_GUID, "SecureBoot"),
        EfiVariable(sha, EFI_GLOBAL_GUID, "PK"),
        EfiVariable(sha, EFI_GLOBAL_GUID, "KEK"),
        EfiVariable(sha, IMAGE_SECURITY_GUID, "db"),
        EfiVariable(sha, IMAGE_SECURITY_GUID, "dbx"),
        sha([0x00, 0x00, 0x00, 0x00]),
        acpi.loader,
        acpi.rsdp,
        acpi.tables,
        sha([0x00, 0x00]),
        BOOT0000_HASH ]
  }

  function TextEvent(sha: Sha384, text: string): ByteString {
    sha(Utf8.Encode(text))
  }

  function Rtmr1Log(sha: Sha384, kernelHash: ByteString): seq<ByteString> {
    [ kernelHash,
      TextEvent(sha, "Calling EFI Application from Boot Option"),
      sha([0x00, 0x00, 0x00, 0x00]),
      TextEvent(sha, "Exit Boot Services Invocation"),
      TextEvent(sha, "Exit Boot Services Returned with Success") ]
  }

  /** The command line OVMF measures: the image's own plus the initrd suffix. */
  function MeasuredCmdline(baseCmdline: string): string {
    baseCmdline + INITRD_SUFFIX
  }

  function Rtmr2Log(sha: Sha384, baseCmdline: string, initrdHash: ByteString): seq<ByteString> {
    [sha(Utf16.Encode(MeasuredCmdline(baseCmdline)) + [0x00, 0x00]), initrdHash]
  }

  function Assemble(
    sha: Sha384, mrtd: ByteString, tdHobHash: ByteString, variant: OvmfVariant, acpi: AcpiHashes,
    kernelHash: ByteString, baseCmdline: string, initrdHash: ByteString): Registers
  {
    Registers(
      mrtd,
      MeasureLog(sha, Rtmr0Log(sha, tdHobHash, variant, acpi)),
      MeasureLog(sha, Rtmr1Log(sha, kernelHash)),
      MeasureLog(sha, Rtmr2Log(sha, baseCmdline, initrdHash)))
  }

  // ----- the pieces both paths share -----

  /** Which MRTD candidate the QEMU version calls for. */
  function PageOrder(vm: VmConfig): Result<PageAddOrder> {
    var major := if vm.qemuVersion.Version? then vm.qemuVersion.major else 9;
    if vm.qemuVersion.Malformed? || major < 8 then Err
    else
      var twoPass := if vm.twoPassAddPages.Some? then vm.twoPassAddPages.value else major == 8;
      Ok(if twoPass then TwoPass else SinglePass)
  }

  function Required(cmdline: Option<string>): Result<string> {
    if cmdline.None? || Trim(cmdline.value) == "" then Err else Ok(cmdline.value)
  }

  function OrElse(a: Option<OvmfVariant>, b: Option<OvmfVariant>): OvmfVariant {
    if a.Some? then a.value else if b.Some? then b.value else Pre202505
  }

  /** The first RTMR1 event: the kernel file as shipped, or QEMU's rewritten copy of it. */
  function KernelHash(auth: Authenticode, dir: ImageDir, memorySize: nat): Result<ByteString> {
    if dir.kernelHeaderNormalized then auth(dir.kernel)
    else
      var patched :- Patch(dir.kernel, |dir.initrd| % U32, memorySize, ACPI_DATA_SIZE);
      auth(patched)
  }

  function SectionTable(bios: ByteString): (r: Result<seq<Section>>)
    ensures r.Ok? ==> AllWellFormed(bios, r.value) && |r.value| <= MAX_TDVF_SECTIONS
  {
    ParseTableValid(bios);
    ParseTable(bios)
  }

  // ----- the measurement document of an image -----

  function DocumentOf(sha: Sha384, auth: Authenticode, dir: ImageDir): Result<Document> {
    var cmdline :- Required(dir.cmdline);
    var rootfs :- RootfsHash(cmdline);
    var sections :- SectionTable(dir.bios);
    var kernelHash :- KernelHash(auth, dir, HIGH_MEMORY_MIN);
    var hobWitness :- Witness(sections);
    Ok(Document(
      cmdline,
      kernelHash,
      sha(dir.initrd),
      OrElse(dir.ovmfVariant, None),
      sha(Stream(dir.bios, sections, SinglePass)),
      sha(Stream(dir.bios, sections, TwoPass)),
      hobWitness,
      dir.kernelHeaderNormalized))
  }

  // ----- the two measurements -----

  /** `tdx_measurements_for_image_dir_with_acpi_hashes`. */
  function MeasureImage(sha: Sha384, auth: Authenticode, dir: ImageDir, vm: VmConfig, acpi: AcpiHashes)
    : Result<Registers>
  {
    var cmdline :- Required(dir.cmdline);
    var sections :- SectionTable(dir.bios);
    var order :- PageOrder(vm);
    var tdHob :- TdHobOfSections(sections, vm.memorySize);
    var kernelHash :- KernelHash(auth, dir, vm.memorySize);
    Ok(Assemble(sha, sha(Stream(dir.bios, sections, order)), sha(tdHob), OrElse(vm.ovmfVariant, dir.ovmfVariant),
                acpi, kernelHash, cmdline, sha(dir.initrd)))
  }

  function Checked48(b: ByteString): Result<ByteString> {
    if |b| == 48 then Ok(b) else Err
  }

  /** Decoding a document rejects a command line no x86_64 kernel could have booted with. */
  predicate Decodes(doc: Document) {
    |Utf8.Encode(doc.baseCmdline)| <= MAX_CMDLINE_LEN
  }

  /** The kernel digest in the document, the one for high memory, may be used for this VM. */
  predicate DigestApplies(doc: Document, vm: VmConfig) {
    doc.kernelHeaderNormalized || UsesHighMemoryDigest(vm.memorySize)
  }

  function SelectMrtd(doc: Document, vm: VmConfig): Result<ByteString> {
    var order :- PageOrder(vm);
    Checked48(if order.TwoPass? then doc.mrtdTwoPass else doc.mrtdSinglePass)
  }

  /** `tdx_measurements_from_measurement_document`. */
  function MeasureDocument(sha: Sha384, doc: Document, vm: VmConfig, acpi: AcpiHashes): Result<Registers> {
    if !Decodes(doc) || !DigestApplies(doc, vm) then Err
    else
      var mrtd :- SelectMrtd(doc, vm);
      var tdHob :- TdHobOfWitness(doc.tdHobWitness, vm.memorySize);
      var kernelHash :- Checked48(doc.kernelAuthenticode);
      var initrdHash :- Checked48(doc.initrdSha384);
      var rootfs :- RootfsHash(doc.baseCmdline);
      Ok(Assemble(sha, mrtd, sha(tdHob), doc.ovmfVariant, acpi, kernelHash, doc.baseCmdline, initrdHash))
  }

  // ----- agreement -----

  lemma KernelHashApplies(sha: Sha384, auth: Authenticode, dir: ImageDir, doc: Document, vm: VmConfig)
    requires DocumentOf(sha, auth, dir) == Ok(doc) && DigestApplies(doc, vm)
    ensures KernelHash(auth, dir, vm.memorySize) == Ok(doc.kernelAuthenticode)
    ensures |doc.kernelAuthenticode| == 48
  {
    hide RootfsHash, Witness, Stream, SectionTable, Required, Patch;
    if !dir.kernelHeaderNormalized {
      MemoryIndependence(dir.kernel, |dir.initrd| % U32, vm.memorySize, HIGH_MEMORY_MIN, ACPI_DATA_SIZE);
    }
  }

  lemma TdHobApplies(sha: Sha384, auth: Authenticode, dir: ImageDir, doc: Document, memorySize: nat)
    requires DocumentOf(sha, auth, dir) == Ok(doc)
    ensures SectionTable(dir.bios).Ok?
    ensures TdHobOfWitness(doc.tdHobWitness, memorySize) == TdHobOfSections(SectionTable(dir.bios).value, memorySize)
  {
    hide RootfsHash, Witness, Stream, SectionTable, Required, KernelHash, TdHobOfWitness, TdHobOfSections;
    WitnessAgrees(SectionTable(dir.bios).value, |dir.bios|, memorySize);
  }

  lemma Applies(doc: Document, vm: VmConfig)
    ensures Decodes(doc) <==> |Utf8.Encode(doc.baseCmdline)| <= 2048
    ensures DigestApplies(doc, vm)
            <==> doc.kernelHeaderNormalized || vm.memorySize == 0x8000_0000 || vm.memorySize >= 0xB000_0000
  {
    hide Utf8.Encode;
  }

  /** For every image whose document builds and every VM: measuring from the document gives
      exactly the registers (or the error) of measuring the image, or is refused outright. It is
      refused only for an overlong command line, and for a kernel with a header QEMU rewrites at a
      memory size that does not use the high-memory digest. */
  lemma LitePathAgrees(
    sha: Sha384, auth: Authenticode, dir: ImageDir, doc: Document, vm: VmConfig, acpi: AcpiHashes)
    requires DocumentOf(sha, auth, dir) == Ok(doc)
    ensures MeasureDocument(sha, doc, vm, acpi) ==
            if && |Utf8.Encode(doc.baseCmdline)| <= 2048
               && (doc.kernelHeaderNormalized || vm.memorySize == 0x8000_0000 || vm.memorySize >= 0xB000_0000)
            then MeasureImage(sha, auth, dir, vm, acpi) else Err
  {
    Applies(doc, vm);
    hide RootfsHash, Witness, Stream, SectionTable, KernelHash, TdHobOfWitness, TdHobOfSections, Assemble, Decodes,
      DigestApplies, PageOrder, Required, OrElse, Utf8.Encode;
    if Decodes(doc) && DigestApplies(doc, vm) {
      KernelHashApplies(sha, auth, dir, doc, vm);
      TdHobApplies(sha, auth, dir, doc, vm.memorySize);
      MrtdApplies(sha, auth, dir, doc, vm);
      OneVariant(doc.ovmfVariant, OrElse(vm.ovmfVariant, dir.ovmfVariant));
      hide SelectMrtd;
    }
  }

  lemma MrtdApplies(sha: Sha384, auth: Authenticode, dir: ImageDir, doc: Document, vm: VmConfig)
    requires DocumentOf(sha, auth, dir) == Ok(doc)
    ensures SectionTable(dir.bios).Ok?
    ensures PageOrder(vm).Err? ==> SelectMrtd(doc, vm) == Err
    ensures PageOrder(vm).Ok? ==>
              SelectMrtd(doc, vm) == Ok(sha(Stream(dir.bios, SectionTable(dir.bios).value, PageOrder(vm).value)))
  {
    DocumentMrtd(sha, auth, dir, doc);
    hide DocumentOf, SectionTable, Stream, PageOrder;
  }

  lemma DocumentMrtd(sha: Sha384, auth: Authenticode, dir: ImageDir, doc: Document)
    requires DocumentOf(sha, auth, dir) == Ok(doc)
    ensures SectionTable(dir.bios).Ok?
    ensures doc.mrtdSinglePass == sha(Stream(dir.bios, SectionTable(dir.bios).value, SinglePass))
    ensures doc.mrtdTwoPass == sha(Stream(dir.bios, SectionTable(dir.bios).value, TwoPass))
  {
    hide RootfsHash, Witness, Stream, SectionTable, Required, KernelHash;
  }

  lemma OneVariant(v: OvmfVariant, w: OvmfVariant)
    ensures v == w
  {
  }

  // ----- the computations as they run -----

  method MeasureKernel(auth: Authenticode, dir: ImageDir, memorySize: Word64) returns (r: Result<ByteString>)
    ensures r == KernelHash(auth, dir, memorySize)
  {
    hide Patch;
    if dir.kernelHeaderNormalized {
      return auth(dir.kernel);
    }
    var patched :- PatchKernel(dir.kernel, |dir.initrd| % U32, memorySize, ACPI_DATA_SIZE);
    return auth(patched);
  }

  /** `tdx_os_image_measurement_for_image_dir`. */
  method BuildDocument(sha: Sha384, auth: Authenticode, dir: ImageDir) returns (r: Result<Document>)
    ensures r == DocumentOf(sha, auth, dir)
  {
    hide RootfsHash, Witness, Stream, ParseTable, KernelHash, AllWellFormed;
    var cmdline :- Required(dir.cmdline);
    var rootfs := RootfsHashFromCmdline(cmdline);
    if rootfs.Err? {
      return Err;
    }
    var sections := Parse(dir.bios);
    assert sections == SectionTable(dir.bios);
    hide SectionTable;
    if sections.Err? {
      return Err;
    }
    var kernelHash :- MeasureKernel(auth, dir, HIGH_MEMORY_MIN);
    // A parsed table can always be measured, so neither result is an error.
    var single := ComputeMrtd(dir.bios, sections.value, SinglePass, sha);
    var two := ComputeMrtd(dir.bios, sections.value, TwoPass, sha);
    var hobWitness :- BuildWitness(sections.value);
    return Ok(Document(cmdline, kernelHash, sha(dir.initrd), OrElse(dir.ovmfVariant, None), single.value, two.value,
                       hobWitness,
                       dir.kernelHeaderNormalized));
  }

  method MeasureImageDir(sha: Sha384, auth: Authenticode, dir: ImageDir, vm: VmConfig, acpi: AcpiHashes)
    returns (r: Result<Registers>)
    ensures r == MeasureImage(sha, auth, dir, vm, acpi)
  {
    hide TdHobOfSections, Stream, ParseTable, KernelHash, AllWellFormed, MeasureLog, Rtmr0Log, Rtmr1Log, Rtmr2Log,
      PageOrder;
    var cmdline :- Required(dir.cmdline);
    var sections := Parse(dir.bios);
    assert sections == SectionTable(dir.bios);
    hide SectionTable;
    if sections.Err? {
      return Err;
    }
    var order :- PageOrder(vm);
    // A parsed table can always be measured, so this is not an error.
    var mrtd := ComputeMrtd(dir.bios, sections.value, order, sha);
    var tdHobHash :- MeasureTdHob(sections.value, vm.memorySize, sha);
    var rtmr0 := MeasureEventLog(sha, Rtmr0Log(sha, tdHobHash, OrElse(vm.ovmfVariant, dir.ovmfVariant), acpi));
    var kernelHash :- MeasureKernel(auth, dir, vm.memorySize);
    var rtmr1 := MeasureEventLog(sha, Rtmr1Log(sha, kernelHash));
    var rtmr2 := MeasureEventLog(sha, Rtmr2Log(sha, cmdline, sha(dir.initrd)));
    return Ok(Registers(mrtd.value, rtmr0, rtmr1, rtmr2));
  }

  method MeasureFromDocument(sha: Sha384, doc: Document, vm: VmConfig, acpi: AcpiHashes) returns (r: Result<Registers>)
    ensures r == MeasureDocument(sha, doc, vm, acpi)
  {
    hide TdHobOfWitness, MeasureLog, Rtmr0Log, Rtmr1Log, Rtmr2Log, RootfsHash, SelectMrtd, Decodes, DigestApplies;
    if !Decodes(doc) || !DigestApplies(doc, vm) {
      return Err;
    }
    var mrtd :- SelectMrtd(doc, vm);
    var tdHobHash :- MeasureTdHobFromWitness(doc.tdHobWitness, vm.memorySize, sha);
    var rtmr0 := MeasureEventLog(sha, Rtmr0Log(sha, tdHobHash, doc.ovmfVariant, acpi));
    var kernelHash :- Checked48(doc.kernelAuthenticode);
    var rtmr1 := MeasureEventLog(sha, Rtmr1Log(sha, kernelHash));
    var initrdHash :- Checked48(doc.initrdSha384);
    var rootfs := RootfsHashFromCmdline(doc.baseCmdline);
    if rootfs.Err? {
      return Err;
    }
    var rtmr2 := MeasureEventLog(sha, Rtmr2Log(sha, doc.baseCmdline, initrdHash));
    return Ok(Registers(mrtd, rtmr0, rtmr1, rtmr2));
  }
}
