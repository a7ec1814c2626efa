/** The SEV-SNP launch inputs and their validation. */
module SnpInput {
  import opened Common
  import opened Text
  import opened SevSnp

  const MAX_VCPUS := 512
  const MAX_OVMF_SECTIONS := 64
  const MAX_OVMF_METADATA_PAGES := 0x1_0000

  const SNP_SEC_MEMORY := 1
  const SNP_SECRETS := 2
  const CPUID := 3
  const SVSM_CAA := 4
  const SNP_KERNEL_HASHES := 0x10

  datatype OvmfSection = OvmfSection(gpa: Word64, size: Word64, sectionType: Word32)

  /** Digests are hexadecimal strings here, as in the document the VMM writes. */
  datatype Input = Input(
    baseCmdline: string,
    ovmfHash: string,
    kernelHash: string,
    initrdHash: string,
    hashesTableGpa: Word64,
    resetEip: Word32,
    vcpus: Word32,
    vcpuType: Option<string>,
    guestFeatures: Word64,
    sections: seq<OvmfSection>)

  // ----- vCPU types -----

  function CpuSig(family: nat, model: nat, stepping: nat): Word32
    requires family < 270 && model < 256 && stepping < 16
  {
    var low, high := if family > 15 then 15 else family, if family > 15 then family - 15 else 0;
    high * 0x10_0000 + model / 16 * 0x1_0000 + low * 0x100 + model % 16 * 0x10 + stepping
  }

  function VcpuSig(vcpuType: string): Result<Word32> {
    var t := Lower(Trim(vcpuType));
    if t in ["epyc", "epyc-v1", "epyc-v2", "epyc-ibpb", "epyc-v3", "epyc-v4"] then Ok(CpuSig(23, 1, 2))
    else if t in ["epyc-rome", "epyc-rome-v1", "epyc-rome-v2", "epyc-rome-v3"] then Ok(CpuSig(23, 49, 0))
    else if t in ["epyc-milan", "epyc-milan-v1", "epyc-milan-v2"] then Ok(CpuSig(25, 1, 1))
    else if t in ["epyc-genoa", "epyc-genoa-v1"] then Ok(CpuSig(25, 17, 0))
    else Err
  }

  // ----- validation -----

  predicate KnownType(t: nat) {
    t == SNP_SEC_MEMORY || t == SNP_SECRETS || t == CPUID || t == SVSM_CAA || t == SNP_KERNEL_HASHES
  }

  function MetadataPages(sections: seq<OvmfSection>): nat {
    if sections == [] then 0
    else MetadataPages(sections[..|sections| - 1]) + PageCount(sections[|sections| - 1].size)
  }

  predicate ValidSections(sections: seq<OvmfSection>) {
    && (forall s :: s in sections ==> s.size > 0 && KnownType(s.sectionType))
    && MetadataPages(sections) <= MAX_OVMF_METADATA_PAGES
  }

  predicate HasKernelHashes(sections: seq<OvmfSection>) {
    exists s :: s in sections && s.sectionType == SNP_KERNEL_HASHES
  }

  predicate KnownVcpuType(vcpuType: Option<string>) {
    vcpuType.Some? && Trim(vcpuType.value) != "" && VcpuSig(vcpuType.value).Ok?
  }

  /** `SNPActive`, bit 0, and no other feature bit. */
  predicate OnlySnpActive(features: Word64) {
    features % 2 == 1 && features - features % 2 == 0
  }

  predicate Valid(input: Input) {
    && OnlySnpActive(input.guestFeatures)
    && RootfsHash(input.baseCmdline).Ok?
    && DecodeRequiredHex(input.kernelHash, 32).Ok?
    && DecodeOptionalHex(input.initrdHash, 32).Ok?
    && 0 < input.vcpus <= MAX_VCPUS
    && KnownVcpuType(input.vcpuType)
    && input.sections != []
    && DecodeRequiredHex(input.ovmfHash, 48).Ok?
    && |input.sections| <= MAX_OVMF_SECTIONS
    && input.hashesTableGpa != 0
    && input.resetEip != 0
    && ValidSections(input.sections)
    && HasKernelHashes(input.sections)
  }

  /** `validate_measurement_input`. */
  method ValidateInput(input: Input) returns (ok: bool)
    ensures ok <==> Valid(input)
  {
    hide RootfsHash, DecodeRequiredHex, DecodeOptionalHex, KnownVcpuType, HasKernelHashes, ValidSections;
    if input.guestFeatures % 2 == 0 || input.guestFeatures - input.guestFeatures % 2 != 0 {
      return false;
    }
    var rootfs := RootfsHashFromCmdline(input.baseCmdline);
    if rootfs.Err? || DecodeRequiredHex(input.kernelHash, 32).Err? || DecodeOptionalHex(input.initrdHash, 32).Err? {
      return false;
    }
    if input.vcpus == 0 || input.vcpus > MAX_VCPUS || !KnownVcpuType(input.vcpuType) {
      return false;
    }
    if input.sections == [] || DecodeRequiredHex(input.ovmfHash, 48).Err? || |input.sections| > MAX_OVMF_SECTIONS {
      return false;
    }
    if input.hashesTableGpa == 0 || input.resetEip == 0 {
      return false;
    }
    ok := ValidateSections(input.sections);
  }

  method ValidateSections(sections: seq<OvmfSection>) returns (ok: bool)
    ensures ok <==> ValidSections(sections) && HasKernelHashes(sections)
  {
    var hasKernelHashes, measuredPages := false, 0;
    for i := 0 to |sections|
      invariant measuredPages == MetadataPages(sections[..i]) <= MAX_OVMF_METADATA_PAGES
      invariant forall j :: 0 <= j < i ==> sections[j].size > 0 && KnownType(sections[j].sectionType)
      invariant hasKernelHashes <==> exists j :: 0 <= j < i && sections[j].sectionType == SNP_KERNEL_HASHES
    {
      assert sections[..i + 1][..i] == sections[..i];
      if sections[i].size == 0 {
        return false;
      }
      measuredPages := measuredPages + PageCount(sections[i].size);
      MetadataPagesGrow(sections, i + 1);
      if measuredPages > MAX_OVMF_METADATA_PAGES {
        return false;
      }
      if !KnownType(sections[i].sectionType) {
        return false;
      }
      hasKernelHashes := hasKernelHashes || sections[i].sectionType == SNP_KERNEL_HASHES;
    }
    assert sections[..|sections|] == sections;
    return hasKernelHashes;
  }

  lemma {:induction false} MetadataPagesGrow(sections: seq<OvmfSection>, i: nat)
    requires i <= |sections|
    ensures MetadataPages(sections[..i]) <= MetadataPages(sections)
    decreases |sections|
  {
    if i < |sections| {
      MetadataPagesGrow(sections[..|sections| - 1], i);
      assert sections[..|sections| - 1][..i] == sections[..i];
    } else {
      assert sections[..i] == sections;
    }
  }
}
