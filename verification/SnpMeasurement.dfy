/** The expected SEV-SNP launch digest of a set of inputs, computed page by page. */
module SnpMeasurement {
  import opened Common
  import opened Text
  import opened SevSnp
  import opened SnpInput
  import opened SnpPages
  import Utf8

  const BSP_EIP: Word32 := 0xffff_fff0
  const VMSA_TYPE := 0x02

  // ----- the hash table page -----

  function Digest32(hex: string): (r: Result<ByteString>)
    ensures r.Ok? ==> |r.value| == 32
  {
    match DecodeHex(hex)
    case None => Err
    case Some(b) => if |b| == 32 then Ok(b) else Err
  }

  /** No initrd measures as an empty one. */
  function InitrdDigest(sha256: Sha256, initrdHash: string): (r: Result<ByteString>)
    ensures r.Ok? ==> |r.value| == 32
  {
    if initrdHash == "" then Ok(sha256([])) else Digest32(initrdHash)
  }

  /** The trimmed command line with its terminating zero. */
  function CmdlineBytes(cmdline: string): ByteString {
    Utf8.Encode(Trim(cmdline)) + [0]
  }

  function TableOffset(input: Input): nat {
    input.hashesTableGpa % 4096
  }

  /** The table is padded to 176 bytes, which must still fit behind the offset. */
  function TablePageFor(offset: nat, cmdlineHash: ByteString, initrd: Result<ByteString>, kernel: Result<ByteString>)
    : (r: Result<ByteString>)
    requires |cmdlineHash| == 32
    requires (initrd.Ok? ==> |initrd.value| == 32) && (kernel.Ok? ==> |kernel.value| == 32)
    ensures r.Ok? ==> |r.value| == 4096
  {
    if initrd.Err? || kernel.Err? || offset + 176 > 4096 then Err
    else Ok(TablePage(offset, HashTable(cmdlineHash, initrd.value, kernel.value)))
  }

  function HashesPage(sha256: Sha256, input: Input): (r: Result<ByteString>)
    ensures r.Ok? ==> |r.value| == 4096
  {
    if input.hashesTableGpa == 0 then Err
    else
      TablePageFor(TableOffset(input), sha256(CmdlineBytes(input.baseCmdline)),
                   InitrdDigest(sha256, input.initrdHash), Digest32(input.kernelHash))
  }

  // ----- the updates of a launch -----

  predicate NoVmsa(us: seq<PageUpdate>) {
    forall i :: 0 <= i < |us| ==> us[i].pageType != VMSA_TYPE
  }

  function SectionUpdates(sha384: Sha384, page: Result<ByteString>, s: OvmfSection): (r: Result<seq<PageUpdate>>)
    ensures r.Ok? ==> AllWellFormed(r.value) && NoVmsa(r.value)
  {
    if s.sectionType == SNP_SEC_MEMORY || s.sectionType == SVSM_CAA then Ok(ZeroPages(s.gpa, PageCount(s.size)))
    else if s.sectionType == SNP_SECRETS then Ok([PageUpdate(0x05, s.gpa, Zeros(48))])
    else if s.sectionType == CPUID then Ok([PageUpdate(0x06, s.gpa, Zeros(48))])
    else if s.sectionType == SNP_KERNEL_HASHES && page.Ok? then Ok([PageUpdate(0x01, s.gpa, sha384(page.value))])
    else Err
  }

  /** The sections' updates in file order; one bad section spoils them all. */
  function SectionsUpdates(sha384: Sha384, page: Result<ByteString>, sections: seq<OvmfSection>)
    : (r: Result<seq<PageUpdate>>)
    ensures r.Ok? ==> AllWellFormed(r.value) && NoVmsa(r.value)
  {
    if sections == [] then Ok([])
    else
      var front := SectionsUpdates(sha384, page, sections[..|sections| - 1]);
      var back := SectionUpdates(sha384, page, sections[|sections| - 1]);
      if front.Err? || back.Err? then Err else Ok(front.value + back.value)
  }

  function VmsaUpdates(sha384: Sha384, bsp: ByteString, ap: ByteString, n: nat): (us: seq<PageUpdate>)
    ensures |us| == n && AllWellFormed(us)
    ensures forall i :: 0 <= i < n ==> us[i] == PageUpdate(VMSA_TYPE, VMSA_GPA, sha384(if i == 0 then bsp else ap))
  {
    if n == 0 then []
    else VmsaUpdates(sha384, bsp, ap, n - 1) + [PageUpdate(VMSA_TYPE, VMSA_GPA, sha384(if n == 1 then bsp else ap))]
  }

  /** The processor signature of an input whose type is known. */
  function SigOf(input: Input): Result<Word32> {
    if input.vcpuType.None? then Err else VcpuSig(input.vcpuType.value)
  }

  function BspPage(input: Input): ByteString
    requires SigOf(input).Ok?
  {
    VmsaPage(BSP_EIP, SigOf(input).value, input.guestFeatures)
  }

  function ApPage(input: Input): ByteString
    requires SigOf(input).Ok?
  {
    VmsaPage(input.resetEip, SigOf(input).value, input.guestFeatures)
  }

  lemma AllWellFormedAppend(us: seq<PageUpdate>, vs: seq<PageUpdate>)
    requires AllWellFormed(us) && AllWellFormed(vs)
    ensures AllWellFormed(us + vs)
  {
  }

  /** Every page update of the launch, in order. */
  function Updates(sha384: Sha384, sha256: Sha256, input: Input): (r: Result<seq<PageUpdate>>)
    ensures r.Ok? ==> AllWellFormed(r.value)
  {
    hide *;
    var pages := SectionsUpdates(sha384, HashesPage(sha256, input), input.sections);
    if SigOf(input).Err? || !HasKernelHashes(input.sections) || pages.Err? then Err
    else
      var vmsas := VmsaUpdates(sha384, BspPage(input), ApPage(input), input.vcpus);
      AllWellFormedAppend(pages.value, vmsas);
      Ok(pages.value + vmsas)
  }

  /** The digest of the firmware itself, which every other page extends. */
  function Seed(input: Input): (r: Result<ByteString>)
    ensures r.Ok? ==> |r.value| == 48
  {
    match DecodeHex(input.ovmfHash)
    case None => Err
    case Some(b) => if |b| == 48 then Ok(b) else Err
  }

  function Measurement(sha384: Sha384, sha256: Sha256, input: Input): Result<ByteString> {
    hide *;
    if Seed(input).Err? || Updates(sha384, sha256, input).Err? then Err
    else Ok(Launch(sha384, Seed(input).value, Updates(sha384, sha256, input).value))
  }

  // ----- recomputing it -----

  /** `compute_expected_measurement`. */
  method ComputeExpectedMeasurement(sha384: Sha384, sha256: Sha256, input: Input) returns (r: Result<ByteString>)
    ensures r == Measurement(sha384, sha256, input)
  {
    hide VcpuSig, HashesPage, SectionUpdates, SectionsUpdates, VmsaPage, Launch, HasKernelHashes, AllWellFormed;
    hide DecodeHex;
    if SigOf(input).Err? || Seed(input).Err? {
      return Err;
    }
    var gctx := new Gctx(sha384, Seed(input).value);
    hide Seed;
    ghost var page := HashesPage(sha256, input);
    var ok := MeasureSections(gctx, sha256, input, page);
    if !ok {
      return Err;
    }
    ghost var pages := SectionsUpdates(sha384, page, input.sections).value;
    ghost var vmsas := VmsaUpdates(sha384, BspPage(input), ApPage(input), input.vcpus);
    LaunchSplit(sha384, Seed(input).value, pages, vmsas);
    MeasureVmsas(gctx, BspPage(input), ApPage(input), input.vcpus);
    return Ok(gctx.ld);
  }

  method MeasureSections(gctx: Gctx, sha256: Sha256, input: Input, ghost page: Result<ByteString>) returns (ok: bool)
    requires gctx.Valid() && page == HashesPage(sha256, input)
    modifies gctx
    ensures gctx.Valid()
    ensures var us := SectionsUpdates(gctx.sha, page, input.sections);
            && (ok <==> us.Ok? && HasKernelHashes(input.sections))
            && (ok ==> gctx.ld == Launch(gctx.sha, old(gctx.ld), us.value))
  {
    hide SectionsUpdates, SectionUpdates, HashesPage, Launch, AllWellFormed, NoVmsa;
    var sections := input.sections;
    var hasKernelHashes := false;
    NoSections(gctx.sha, page, gctx.ld);
    for i := 0 to |sections|
      invariant gctx.Valid()
      invariant SectionsUpdates(gctx.sha, page, sections[..i]).Ok?
      invariant gctx.ld == Launch(gctx.sha, old(gctx.ld), SectionsUpdates(gctx.sha, page, sections[..i]).value)
      invariant hasKernelHashes <==> exists j :: 0 <= j < i && sections[j].sectionType == SNP_KERNEL_HASHES
    {
      NextSection(gctx.sha, page, sections, i);
      var good := MeasureSection(gctx, sha256, input, page, sections[i]);
      if !good {
        SpoiledSections(gctx.sha, page, sections, i + 1);
        return false;
      }
      LaunchSplit(gctx.sha, old(gctx.ld), SectionsUpdates(gctx.sha, page, sections[..i]).value,
                  SectionUpdates(gctx.sha, page, sections[i]).value);
      hasKernelHashes := hasKernelHashes || sections[i].sectionType == SNP_KERNEL_HASHES;
    }
    assert sections[..|sections|] == sections;
    return hasKernelHashes;
  }

  method MeasureSection(
    gctx: Gctx, sha256: Sha256, input: Input, ghost page: Result<ByteString>, s: OvmfSection) returns (ok: bool)
    requires gctx.Valid() && page == HashesPage(sha256, input)
    modifies gctx
    ensures gctx.Valid()
    ensures var us := SectionUpdates(gctx.sha, page, s);
            && (ok <==> us.Ok?)
            && (ok ==> gctx.ld == Launch(gctx.sha, old(gctx.ld), us.value))
  {
    hide HashesPage, Launch, ZeroPages, NormalPages, AllWellFormed, NoVmsa, PageCount;
    if s.sectionType == SNP_SEC_MEMORY || s.sectionType == SVSM_CAA {
      gctx.UpdateZeroPages(s.gpa, s.size);
    } else if s.sectionType == SNP_SECRETS {
      gctx.UpdateSecretsPage(s.gpa);
    } else if s.sectionType == CPUID {
      gctx.UpdateCpuidPage(s.gpa);
    } else if s.sectionType == SNP_KERNEL_HASHES {
      var hashes := HashesPage(sha256, input);
      if hashes.Err? {
        return false;
      }
      OneNormalPage(gctx.sha, s.gpa, hashes.value);
      gctx.UpdateNormalPages(s.gpa, hashes.value);
    } else {
      return false;
    }
    return true;
  }

  method MeasureVmsas(gctx: Gctx, bsp: ByteString, ap: ByteString, vcpus: nat)
    requires gctx.Valid()
    modifies gctx
    ensures gctx.Valid()
    ensures gctx.ld == Launch(gctx.sha, old(gctx.ld), VmsaUpdates(gctx.sha, bsp, ap, vcpus))
  {
    hide Launch;
    LaunchNothing(gctx.sha, gctx.ld);
    for i := 0 to vcpus
      invariant gctx.Valid()
      invariant gctx.ld == Launch(gctx.sha, old(gctx.ld), VmsaUpdates(gctx.sha, bsp, ap, i))
    {
      var page := if i == 0 then bsp else ap;
      LaunchSplit(gctx.sha, old(gctx.ld), VmsaUpdates(gctx.sha, bsp, ap, i),
                  [PageUpdate(VMSA_TYPE, VMSA_GPA, gctx.sha(page))]);
      gctx.UpdateVmsaPage(page);
    }
  }

  lemma OneNormalPage(sha: Sha384, gpa: Word64, page: ByteString)
    requires |page| == 4096
    ensures PageCount(|page|) == 1 && NormalPages(sha, gpa, page, 1) == [PageUpdate(0x01, gpa, sha(page))]
  {
    assert Chunk(page, 0) == page;
    assert NormalPages(sha, gpa, page, 0) == [];
  }

  lemma NoSections(sha384: Sha384, page: Result<ByteString>, seed: ByteString)
    requires |seed| == 48
    ensures SectionsUpdates(sha384, page, []) == Ok([]) && Launch(sha384, seed, []) == seed
  {
  }

  lemma NextSection(sha384: Sha384, page: Result<ByteString>, sections: seq<OvmfSection>, i: nat)
    requires i < |sections|
    ensures var front := SectionsUpdates(sha384, page, sections[..i]);
            var back := SectionUpdates(sha384, page, sections[i]);
            SectionsUpdates(sha384, page, sections[..i + 1])
              == if front.Err? || back.Err? then Err else Ok(front.value + back.value)
  {
    hide SectionUpdates;
    assert sections[..i + 1][..i] == sections[..i];
  }

  lemma {:induction false} SpoiledSections(
    sha384: Sha384, page: Result<ByteString>, sections: seq<OvmfSection>, i: nat)
    requires i <= |sections| && SectionsUpdates(sha384, page, sections[..i]).Err?
    ensures SectionsUpdates(sha384, page, sections).Err?
    decreases |sections| - i
  {
    hide SectionsUpdates;
    if i < |sections| {
      NextSection(sha384, page, sections, i);
      SpoiledSections(sha384, page, sections, i + 1);
    } else {
      assert sections[..i] == sections;
    }
  }
}
