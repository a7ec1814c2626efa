/** What the TDX registers say about the machine: equal registers mean the same firmware operations,
    memory, ACPI tables, kernel, command line and initrd, or a collision of two named inputs. */
module TdxBinding {
  import opened Common
  import opened Text
  import opened Guids
  import opened Tdvf
  import opened Mrtd
  import opened MrtdBinding
  import opened Kernel
  import opened TdHobWitness
  import opened TdxMeasurement
  import Utf8
  import Utf16

  // ----- logs -----

  /** What the `i`-th extend of a log hashes. */
  function ExtendInput(sha: Sha384, log: seq<ByteString>, i: nat): ByteString
    requires i < |log|
  {
    MeasureLog(sha, log[..i]) + log[i]
  }

  /** Extend `i` of the two logs: different inputs with one digest. */
  ghost predicate ExtendsCollide(sha: Sha384, a: seq<ByteString>, b: seq<ByteString>, i: nat) {
    i < |a| && i < |b| && Collision(sha, ExtendInput(sha, a, i), ExtendInput(sha, b, i))
  }

  lemma SameExtend(x: ByteString, e: ByteString, y: ByteString, f: ByteString)
    requires |x| == |y| == 48 && x + e == y + f
    ensures x == y && e == f
  {
    assert x == (x + e)[..48] && y == (y + f)[..48] && e == (x + e)[48..] && f == (y + f)[48..];
  }

  /** Logs of one length with one register value: the same entries, or an extend collides. */
  lemma {:induction false} LogCommits(sha: Sha384, a: seq<ByteString>, b: seq<ByteString>)
    requires |a| == |b| && MeasureLog(sha, a) == MeasureLog(sha, b)
    ensures a == b || exists i :: ExtendsCollide(sha, a, b, i)
    decreases |a|
  {
    if a != [] {
      var n := |a| - 1;
      var a', b' := a[..n], b[..n];
      if ExtendInput(sha, a, n) != ExtendInput(sha, b, n) {
        assert ExtendsCollide(sha, a, b, n);
      } else {
        SameExtend(MeasureLog(sha, a'), a[n], MeasureLog(sha, b'), b[n]);
        LogCommits(sha, a', b');
        hide MeasureLog;
        if i: nat :| ExtendsCollide(sha, a', b', i) {
          assert a'[..i] == a[..i] && b'[..i] == b[..i];
          assert ExtendsCollide(sha, a, b, i);
        } else {
          assert a == a' + [a[n]] && b == b' + [b[n]];
        }
      }
    }
  }

  // ----- what the events are -----

  /** The thirteen events of RTMR0. */
  lemma Rtmr0Events(sha: Sha384, tdHobHash: ByteString, variant: OvmfVariant, acpi: AcpiHashes)
    ensures var log := Rtmr0Log(sha, tdHobHash, variant, acpi);
            && |log| == 13 && log[0] == tdHobHash && log[1] == CFV_IMAGE_HASH
            && log[2] == sha(VariableBytes(EFI_GLOBAL_GUID, "SecureBoot"))
            && log[3] == sha(VariableBytes(EFI_GLOBAL_GUID, "PK"))
            && log[4] == sha(VariableBytes(EFI_GLOBAL_GUID, "KEK"))
            && log[5] == sha(VariableBytes(IMAGE_SECURITY_GUID, "db"))
            && log[6] == sha(VariableBytes(IMAGE_SECURITY_GUID, "dbx"))
            && log[7] == sha([0, 0, 0, 0])
            && log[8] == acpi.loader && log[9] == acpi.rsdp && log[10] == acpi.tables
            && log[11] == sha([0, 0]) && log[12] == BOOT0000_HASH
  {
    hide VariableBytes, Utf16.Encode, Le;
    VariableIs(sha, EFI_GLOBAL_GUID, "SecureBoot");
    VariableIs(sha, EFI_GLOBAL_GUID, "PK");
    VariableIs(sha, EFI_GLOBAL_GUID, "KEK");
    VariableIs(sha, IMAGE_SECURITY_GUID, "db");
    VariableIs(sha, IMAGE_SECURITY_GUID, "dbx");
    hide EfiVariable;
  }

  /** An unset EFI variable: vendor, length of the name, length of the data, and the name in UTF-16. */
  function VariableBytes(guid: ByteString, name: string): ByteString
    requires |name| < 256
  {
    guid + [|name|, 0, 0, 0, 0, 0, 0, 0] + [0, 0, 0, 0, 0, 0, 0, 0] + Utf16.Encode(name)
  }

  lemma VariableIs(sha: Sha384, guid: ByteString, name: string)
    requires |name| < 256
    ensures EfiVariable(sha, guid, name) == sha(VariableBytes(guid, name))
  {
    LeLong(|name|);
    LeLong(0);
    hide Le, Utf16.Encode;
  }

  lemma LeLong(v: Byte)
    ensures Le(v, 8) == [v, 0, 0, 0, 0, 0, 0, 0]
  {
    LeZero();
    assert Le(0, 4) == [0] + Le(0, 3) && Le(0, 5) == [0] + Le(0, 4);
    assert Le(0, 6) == [0] + Le(0, 5) && Le(0, 7) == [0] + Le(0, 6);
    assert Le(v, 8) == [v] + Le(0, 7);
  }

  /** The vendors' identifiers. */
  lemma Vendors()
    ensures EncodeGuid(Guid("8BE4DF61", "93CA", "11D2", "AA0D", "00E098032B8C")) == Ok(EFI_GLOBAL_GUID)
    ensures EncodeGuid(Guid("D719B2CB", "3D3A", "4596", "A3BC", "DAD00E67656F")) == Ok(IMAGE_SECURITY_GUID)
  {
    hide EncodeGuid, Guid;
    GlobalVendor();
    SecurityVendor();
  }

  lemma GlobalVendor()
    ensures EncodeGuid(Guid("8BE4DF61", "93CA", "11D2", "AA0D", "00E098032B8C")) == Ok(EFI_GLOBAL_GUID)
  {
    hide EncodeGuid, Guid;
    SpelledGuid("8BE4DF61", "93CA", "11D2", "AA0D", "00E098032B8C", EFI_GLOBAL_GUID);
  }

  lemma SecurityVendor()
    ensures EncodeGuid(Guid("D719B2CB", "3D3A", "4596", "A3BC", "DAD00E67656F")) == Ok(IMAGE_SECURITY_GUID)
  {
    hide EncodeGuid, Guid;
    SpelledGuid("D719B2CB", "3D3A", "4596", "A3BC", "DAD00E67656F", IMAGE_SECURITY_GUID);
  }

  /** The five events of RTMR1: the kernel, the call to it, a separator, and the end of boot services. */
  lemma Rtmr1Events(sha: Sha384, kernelHash: ByteString, calling: string, exiting: string, exited: string)
    requires calling == "Calling EFI Application from Boot Option"
    requires exiting == "Exit Boot Services Invocation" && exited == "Exit Boot Services Returned with Success"
    ensures Rtmr1Log(sha, kernelHash)
            == [kernelHash, sha(Utf8.Encode(calling)), sha([0, 0, 0, 0]), sha(Utf8.Encode(exiting)),
                sha(Utf8.Encode(exited))]
  {
    hide Utf8.Encode;
  }

  lemma FirstOfRtmr1(sha: Sha384, kernelHash: ByteString)
    ensures |Rtmr1Log(sha, kernelHash)| == 5 && Rtmr1Log(sha, kernelHash)[0] == kernelHash
  {
    hide Utf8.Encode;
  }

  /** The two events of RTMR2: the command line with the initrd suffix and a terminator, in UTF-16, and
      the initrd. */
  lemma Rtmr2Events(sha: Sha384, cmdline: string, initrdHash: ByteString)
    ensures Rtmr2Log(sha, cmdline, initrdHash) == [sha(Utf16.Encode(cmdline + " initrd=initrd") + [0, 0]), initrdHash]
  {
    hide Utf16.Encode;
  }

  // ----- the page order -----

  /** Which order MRTD is computed in: two passes for QEMU 8, one for later versions and for an unset
      one, unless the configuration says which; nothing for a version before 8 or one that does not
      parse. */
  lemma PageOrders(vm: VmConfig)
    ensures vm.qemuVersion.Malformed? ==> PageOrder(vm) == Err
    ensures vm.qemuVersion.Version? && vm.qemuVersion.major < 8 ==> PageOrder(vm) == Err
    ensures vm.qemuVersion.Version? && vm.qemuVersion.major == 8 && vm.twoPassAddPages.None? ==>
              PageOrder(vm) == Ok(TwoPass)
    ensures vm.qemuVersion.Version? && vm.qemuVersion.major > 8 && vm.twoPassAddPages.None? ==>
              PageOrder(vm) == Ok(SinglePass)
    ensures vm.qemuVersion.Unset? && vm.twoPassAddPages.None? ==> PageOrder(vm) == Ok(SinglePass)
    ensures vm.qemuVersion.Unset? || (vm.qemuVersion.Version? && vm.qemuVersion.major >= 8) ==>
              && (vm.twoPassAddPages == Some(true) ==> PageOrder(vm) == Ok(TwoPass))
              && (vm.twoPassAddPages == Some(false) ==> PageOrder(vm) == Ok(SinglePass))
  {
  }

  // ----- the registers of an image -----

  /** What an image and a VM feed the registers. */
  datatype Fed = Fed(
    sections: seq<Section>, order: PageAddOrder, tdHob: ByteString, kernelHash: ByteString, cmdline: string)

  ghost predicate Feeds(auth: Authenticode, dir: ImageDir, vm: VmConfig, f: Fed) {
    && SectionTable(dir.bios) == Ok(f.sections) && PageOrder(vm) == Ok(f.order)
    && TdHobOfSections(f.sections, vm.memorySize) == Ok(f.tdHob)
    && KernelHash(auth, dir, vm.memorySize) == Ok(f.kernelHash)
    && dir.cmdline == Some(f.cmdline)
  }

  lemma Measured(sha: Sha384, auth: Authenticode, dir: ImageDir, vm: VmConfig, acpi: AcpiHashes) returns (f: Fed)
    requires MeasureImage(sha, auth, dir, vm, acpi).Ok?
    ensures Feeds(auth, dir, vm, f) && AllWellFormed(dir.bios, f.sections)
    ensures MeasureImage(sha, auth, dir, vm, acpi).value
            == Assemble(sha, sha(Stream(dir.bios, f.sections, f.order)), sha(f.tdHob),
                        OrElse(vm.ovmfVariant, dir.ovmfVariant), acpi, f.kernelHash, f.cmdline, sha(dir.initrd))
  {
    hide SectionTable, PageOrder, TdHobOfSections, KernelHash, Assemble, Stream, OrElse;
    f := Fed(SectionTable(dir.bios).value, PageOrder(vm).value,
             TdHobOfSections(SectionTable(dir.bios).value, vm.memorySize).value,
             KernelHash(auth, dir, vm.memorySize).value, dir.cmdline.value);
  }

  /** An image is measured exactly when it has a command line that is not blank, and its section table,
      the QEMU version, the TD HOB and the kernel are in order. */
  lemma MeasuresExactly(sha: Sha384, auth: Authenticode, dir: ImageDir, vm: VmConfig, acpi: AcpiHashes)
    ensures MeasureImage(sha, auth, dir, vm, acpi).Ok?
            <==> && dir.cmdline.Some? && (exists i :: 0 <= i < |dir.cmdline.value| && !IsSpace(dir.cmdline.value[i]))
                 && SectionTable(dir.bios).Ok? && PageOrder(vm).Ok?
                 && TdHobOfSections(SectionTable(dir.bios).value, vm.memorySize).Ok?
                 && KernelHash(auth, dir, vm.memorySize).Ok?
  {
    hide SectionTable, PageOrder, TdHobOfSections, KernelHash, Assemble, Stream, OrElse, Trim, IsSpace;
    if dir.cmdline.Some? {
      TrimsToNothing(dir.cmdline.value);
    }
  }

  /** A document is measured exactly when its command line is short enough and names a rootfs, its kernel
      digest applies at this memory size, its digests have 48 bytes, and the QEMU version and the TD HOB
      are in order. */
  lemma DocumentMeasuresExactly(sha: Sha384, doc: Document, vm: VmConfig, acpi: AcpiHashes)
    ensures MeasureDocument(sha, doc, vm, acpi).Ok?
            <==> && |Utf8.Encode(doc.baseCmdline)| <= 2048 && RootfsHash(doc.baseCmdline).Ok?
                 && (doc.kernelHeaderNormalized || vm.memorySize == 0x8000_0000 || vm.memorySize >= 0xB000_0000)
                 && PageOrder(vm).Ok?
                 && |if PageOrder(vm).value == TwoPass then doc.mrtdTwoPass else doc.mrtdSinglePass| == 48
                 && |doc.kernelAuthenticode| == 48 && |doc.initrdSha384| == 48
                 && TdHobOfWitness(doc.tdHobWitness, vm.memorySize).Ok?
  {
    hide PageOrder, TdHobOfWitness, Assemble, RootfsHash, Decodes, DigestApplies, Utf8.Encode;
    Applies(doc, vm);
  }

  /** Equal RTMR0: the same TD HOB bytes and the same three ACPI digests, or a collision. */
  lemma Rtmr0Binds(
    sha: Sha384, tdHob: ByteString, variant: OvmfVariant, acpi: AcpiHashes,
    tdHob': ByteString, variant': OvmfVariant, acpi': AcpiHashes)
    requires MeasureLog(sha, Rtmr0Log(sha, sha(tdHob), variant, acpi))
             == MeasureLog(sha, Rtmr0Log(sha, sha(tdHob'), variant', acpi'))
    ensures || (tdHob == tdHob' && acpi == acpi')
            || Collision(sha, tdHob, tdHob')
            || exists i :: ExtendsCollide(sha, Rtmr0Log(sha, sha(tdHob), variant, acpi),
                                          Rtmr0Log(sha, sha(tdHob'), variant', acpi'), i)
  {
    hide MeasureLog, Rtmr0Log, ExtendsCollide;
    Rtmr0Events(sha, sha(tdHob), variant, acpi);
    Rtmr0Events(sha, sha(tdHob'), variant', acpi');
    LogCommits(sha, Rtmr0Log(sha, sha(tdHob), variant, acpi), Rtmr0Log(sha, sha(tdHob'), variant', acpi'));
  }

  /** Equal RTMR1: the same kernel digest, or a collision. */
  lemma Rtmr1Binds(sha: Sha384, kernelHash: ByteString, kernelHash': ByteString)
    requires MeasureLog(sha, Rtmr1Log(sha, kernelHash)) == MeasureLog(sha, Rtmr1Log(sha, kernelHash'))
    ensures || kernelHash == kernelHash'
            || exists i :: ExtendsCollide(sha, Rtmr1Log(sha, kernelHash), Rtmr1Log(sha, kernelHash'), i)
  {
    hide MeasureLog, Rtmr1Log, ExtendsCollide;
    FirstOfRtmr1(sha, kernelHash);
    FirstOfRtmr1(sha, kernelHash');
    LogCommits(sha, Rtmr1Log(sha, kernelHash), Rtmr1Log(sha, kernelHash'));
  }

  /** The kernel behind the digest: the file itself if its header is normalized, and otherwise the file
      as QEMU loads it, with the size of this initrd in its header and the initrd on the highest page
      below the ACPI area and the kernel's own ceiling. */
  lemma MeasuredKernel(auth: Authenticode, dir: ImageDir, mem: nat, digest: ByteString) returns (p: ByteString)
    requires KernelHash(auth, dir, mem) == Ok(digest)
    ensures auth(p) == Ok(digest) && |p| == |dir.kernel|
    ensures dir.kernelHeaderNormalized ==> p == dir.kernel
    ensures !dir.kernelHeaderNormalized ==>
      && |p| >= 0x1000 && (forall i :: 0 <= i < |p| && OutsideFields(i, i + 1) ==> p[i] == dir.kernel[i])
      && var size, at := |dir.initrd| % 0x1_0000_0000, FromLe(p[0x218..0x21c]);
         size > 0 ==> && FromLe(p[0x21c..0x220]) == size && at % 0x1000 == 0
                      && Placed(dir.kernel, mem, 0x2_8000, at + size)
                      && !Placed(dir.kernel, mem, 0x2_8000, at + 0x1000 + size)
  {
    hide Patch, FromLe, Placed;
    if dir.kernelHeaderNormalized {
      p := dir.kernel;
    } else {
      var size: Word32 := |dir.initrd| % U32;
      p := Patch(dir.kernel, size, mem, ACPI_DATA_SIZE).value;
      PatchedSize(dir.kernel, size, mem, ACPI_DATA_SIZE, p);
      hide KernelHash;
      if size > 0 {
        InitrdPlacement(dir.kernel, size, mem, ACPI_DATA_SIZE, p);
      }
      forall i | 0 <= i < |p| && OutsideFields(i, i + 1)
        ensures p[i] == dir.kernel[i]
      {
        RestUnchanged(dir.kernel, size, mem, ACPI_DATA_SIZE, i);
      }
    }
  }

  lemma PatchedSize(k: ByteString, initrdSize: Word32, mem: nat, acpiSize: Word32, p: ByteString)
    requires Patch(k, initrdSize, mem, acpiSize) == Ok(p)
    ensures |p| == |k| >= 0x1000
  {
    hide PatchWrites;
  }

  function CmdlineBytes(cmdline: string): ByteString {
    Utf16.Encode(cmdline + " initrd=initrd") + [0, 0]
  }

  lemma SameCmdline(a: string, b: string)
    requires CmdlineBytes(a) == CmdlineBytes(b)
    ensures a == b
  {
    hide Utf16.Encode;
    SameTail(Utf16.Encode(a + " initrd=initrd"), [0, 0], Utf16.Encode(b + " initrd=initrd"), [0, 0]);
    Utf16.Injective(a + " initrd=initrd", b + " initrd=initrd");
    var suffix := " initrd=initrd";
    assert a == (a + suffix)[..|a|] && b == (b + suffix)[..|b|] && |a| == |b|;
  }

  /** Equal RTMR2: the same command line and the same initrd bytes, or a collision. */
  lemma Rtmr2Binds(sha: Sha384, cmdline: string, initrd: ByteString, cmdline': string, initrd': ByteString)
    requires MeasureLog(sha, Rtmr2Log(sha, cmdline, sha(initrd)))
             == MeasureLog(sha, Rtmr2Log(sha, cmdline', sha(initrd')))
    ensures || (cmdline == cmdline' && initrd == initrd')
            || Collision(sha, CmdlineBytes(cmdline), CmdlineBytes(cmdline')) || Collision(sha, initrd, initrd')
            || exists i :: ExtendsCollide(sha, Rtmr2Log(sha, cmdline, sha(initrd)),
                                          Rtmr2Log(sha, cmdline', sha(initrd')), i)
  {
    hide MeasureLog, Rtmr2Log, ExtendsCollide, Utf16.Encode;
    Rtmr2Events(sha, cmdline, sha(initrd));
    Rtmr2Events(sha, cmdline', sha(initrd'));
    var a, b := Rtmr2Log(sha, cmdline, sha(initrd)), Rtmr2Log(sha, cmdline', sha(initrd'));
    LogCommits(sha, a, b);
    if a == b && !Collision(sha, CmdlineBytes(cmdline), CmdlineBytes(cmdline')) {
      assert a[0] == sha(CmdlineBytes(cmdline)) && b[0] == sha(CmdlineBytes(cmdline'));
      assert a[1] == sha(initrd) && b[1] == sha(initrd');
      SameCmdline(cmdline, cmdline');
    }
  }

  /** Two extends of the logs of one register collide. */
  ghost predicate LogsCollide(sha: Sha384, dir: ImageDir, vm: VmConfig, acpi: AcpiHashes, f: Fed,
                              dir': ImageDir, vm': VmConfig, acpi': AcpiHashes, f': Fed)
  {
    var v, v' := OrElse(vm.ovmfVariant, dir.ovmfVariant), OrElse(vm'.ovmfVariant, dir'.ovmfVariant);
    || (exists i :: ExtendsCollide(sha, Rtmr0Log(sha, sha(f.tdHob), v, acpi),
                                   Rtmr0Log(sha, sha(f'.tdHob), v', acpi'), i))
    || (exists i :: ExtendsCollide(sha, Rtmr1Log(sha, f.kernelHash), Rtmr1Log(sha, f'.kernelHash), i))
    || (exists i :: ExtendsCollide(sha, Rtmr2Log(sha, f.cmdline, sha(dir.initrd)),
                                   Rtmr2Log(sha, f'.cmdline, sha(dir'.initrd)), i))
  }

  /** Two measured inputs, named, have one digest. */
  ghost predicate InputsCollide(sha: Sha384, dir: ImageDir, f: Fed, dir': ImageDir, f': Fed)
    requires AllWellFormed(dir.bios, f.sections) && AllWellFormed(dir'.bios, f'.sections)
  {
    || Collision(sha, Stream(dir.bios, f.sections, f.order), Stream(dir'.bios, f'.sections, f'.order))
    || Collision(sha, f.tdHob, f'.tdHob)
    || Collision(sha, CmdlineBytes(f.cmdline), CmdlineBytes(f'.cmdline))
    || Collision(sha, dir.initrd, dir'.initrd)
  }

  /** Two images in two VMs with the same registers: the same page operations, TD HOB, ACPI digests,
      kernel digest, command line and initrd, or two extends or two measured inputs collide. */
  lemma RegistersBind(
    sha: Sha384, auth: Authenticode, dir: ImageDir, vm: VmConfig, acpi: AcpiHashes, f: Fed,
    dir': ImageDir, vm': VmConfig, acpi': AcpiHashes, f': Fed)
    requires MeasureImage(sha, auth, dir, vm, acpi).Ok?
    requires MeasureImage(sha, auth, dir, vm, acpi) == MeasureImage(sha, auth, dir', vm', acpi')
    requires Feeds(auth, dir, vm, f) && Feeds(auth, dir', vm', f')
    ensures AllWellFormed(dir.bios, f.sections) && AllWellFormed(dir'.bios, f'.sections)
    ensures || (&& TableOps(dir.bios, f.sections, f.order) == TableOps(dir'.bios, f'.sections, f'.order)
                && f.tdHob == f'.tdHob && acpi == acpi' && f.kernelHash == f'.kernelHash
                && f.cmdline == f'.cmdline && dir.initrd == dir'.initrd)
            || LogsCollide(sha, dir, vm, acpi, f, dir', vm', acpi', f')
            || InputsCollide(sha, dir, f, dir', f')
  {
    hide MeasureImage, SectionTable, PageOrder, TdHobOfSections, KernelHash, Stream, OrElse, MeasureLog;
    hide Rtmr0Log, Rtmr1Log, Rtmr2Log, ExtendsCollide, TableOps, AllWellFormed, CmdlineBytes;
    var g := Measured(sha, auth, dir, vm, acpi);
    var g' := Measured(sha, auth, dir', vm', acpi');
    assert f == g && f' == g';
    Rtmr0Binds(sha, f.tdHob, OrElse(vm.ovmfVariant, dir.ovmfVariant), acpi,
               f'.tdHob, OrElse(vm'.ovmfVariant, dir'.ovmfVariant), acpi');
    Rtmr1Binds(sha, f.kernelHash, f'.kernelHash);
    Rtmr2Binds(sha, f.cmdline, dir.initrd, f'.cmdline, dir'.initrd);
    MrtdBinds(sha, dir.bios, f.sections, f.order, dir'.bios, f'.sections, f'.order);
  }
}
