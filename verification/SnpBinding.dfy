/** What the SEV-SNP launch digest of a valid input is worth: it exists, its cost is bounded,
    the image projection keeps it, and equal digests mean equal launches. */
module SnpBinding {
  import opened Common
  import opened Text
  import opened SevSnp
  import opened SnpInput
  import opened SnpPages
  import opened SnpMeasurement
  import Utf8

  // ----- cost and success -----

  lemma SectionBudget(sha384: Sha384, page: Result<ByteString>, s: OvmfSection)
    requires s.size > 0 && SectionUpdates(sha384, page, s).Ok?
    ensures |SectionUpdates(sha384, page, s).value| <= PageCount(s.size)
  {
    hide ZeroPages, AllWellFormed, NoVmsa;
  }

  lemma {:induction false} SectionsBudget(sha384: Sha384, page: Result<ByteString>, sections: seq<OvmfSection>)
    requires forall s :: s in sections ==> s.size > 0
    requires SectionsUpdates(sha384, page, sections).Ok?
    ensures |SectionsUpdates(sha384, page, sections).value| <= MetadataPages(sections)
  {
    hide SectionUpdates, PageCount, AllWellFormed, NoVmsa;
    if sections != [] {
      var init, last := sections[..|sections| - 1], sections[|sections| - 1];
      assert last in sections;
      SectionsBudget(sha384, page, init);
      SectionBudget(sha384, page, last);
    }
  }

  lemma {:induction false} KnownSectionsMeasure(sha384: Sha384, page: Result<ByteString>, sections: seq<OvmfSection>)
    requires page.Ok? && forall s :: s in sections ==> KnownType(s.sectionType)
    ensures SectionsUpdates(sha384, page, sections).Ok?
  {
    hide AllWellFormed, NoVmsa, ZeroPages;
    if sections != [] {
      var init, last := sections[..|sections| - 1], sections[|sections| - 1];
      assert last in sections;
      KnownSectionsMeasure(sha384, page, init);
    }
  }

  lemma NoPageNoMeasurement(sha384: Sha384, page: Result<ByteString>, sections: seq<OvmfSection>)
    requires page.Err? && HasKernelHashes(sections)
    ensures SectionsUpdates(sha384, page, sections).Err?
  {
    var s :| s in sections && s.sectionType == SNP_KERNEL_HASHES;
    var i :| 0 <= i < |sections| && sections[i] == s;
    hide AllWellFormed, NoVmsa, ZeroPages, SectionsUpdates;
    NextSection(sha384, page, sections, i);
    SpoiledSections(sha384, page, sections, i + 1);
  }

  lemma DecodedHex(value: string, len: nat)
    requires DecodeRequiredHex(value, len).Ok?
    ensures DecodeHex(value) == Some(DecodeRequiredHex(value, len).value)
    ensures |DecodeRequiredHex(value, len).value| == len
  {
    hide DecodeHex;
  }

  lemma TableExists(sha256: Sha256, input: Input)
    requires Valid(input)
    ensures HashesPage(sha256, input).Ok? <==> TableOffset(input) + 176 <= 4096
  {
    hide KnownVcpuType, ValidSections, HasKernelHashes, RootfsHash, TablePage, HashTable, CmdlineBytes;
    DecodedHex(input.kernelHash, 32);
    if input.initrdHash != "" {
      DecodedHex(input.initrdHash, 32);
    }
    hide DecodeHex;
  }

  /** A valid input is measured unless the hash table would run over its page, with at most one
      update per metadata page and per processor. */
  lemma ValidInputMeasures(sha384: Sha384, sha256: Sha256, input: Input)
    requires Valid(input)
    ensures Measurement(sha384, sha256, input).Ok? <==> TableOffset(input) + 176 <= 4096
    ensures Updates(sha384, sha256, input).Ok?
            ==> |Updates(sha384, sha256, input).value| <= MAX_OVMF_METADATA_PAGES + MAX_VCPUS
  {
    hide *;
    TableExists(sha256, input);
    ValidParts(input);
    SectionsMeasure(sha384, HashesPage(sha256, input), input.sections);
    UpdatesAre(sha384, sha256, input);
    MeasurementIs(sha384, sha256, input);
  }

  lemma ValidParts(input: Input)
    requires Valid(input)
    ensures Seed(input).Ok? && SigOf(input).Ok? && input.vcpus <= MAX_VCPUS
    ensures ValidSections(input.sections) && HasKernelHashes(input.sections)
  {
    DecodedHex(input.ovmfHash, 48);
    hide RootfsHash, DecodeRequiredHex, DecodeOptionalHex, DecodeHex, VcpuSig, ValidSections, HasKernelHashes, Trim;
  }

  lemma SectionsMeasure(sha384: Sha384, page: Result<ByteString>, sections: seq<OvmfSection>)
    requires ValidSections(sections) && HasKernelHashes(sections)
    ensures SectionsUpdates(sha384, page, sections).Ok? <==> page.Ok?
    ensures page.Ok? ==> |SectionsUpdates(sha384, page, sections).value| <= MAX_OVMF_METADATA_PAGES
  {
    hide SectionsUpdates, SectionUpdates, AllWellFormed, NoVmsa, HasKernelHashes, KnownType, MetadataPages;
    if page.Ok? {
      KnownSectionsMeasure(sha384, page, sections);
      SectionsBudget(sha384, page, sections);
    } else {
      NoPageNoMeasurement(sha384, page, sections);
    }
  }

  lemma UpdatesAre(sha384: Sha384, sha256: Sha256, input: Input)
    requires SigOf(input).Ok? && HasKernelHashes(input.sections)
    ensures var pages := SectionsUpdates(sha384, HashesPage(sha256, input), input.sections);
            var us := Updates(sha384, sha256, input);
            (us.Ok? <==> pages.Ok?) && (us.Ok? ==> |us.value| == |pages.value| + input.vcpus)
  {
    hide SigOf, HasKernelHashes, SectionsUpdates, HashesPage, VmsaUpdates, AllWellFormed, NoVmsa, BspPage, ApPage;
  }

  lemma MeasurementIs(sha384: Sha384, sha256: Sha256, input: Input)
    requires Seed(input).Ok?
    ensures Measurement(sha384, sha256, input).Ok? <==> Updates(sha384, sha256, input).Ok?
  {
    hide Seed, Updates, Launch, AllWellFormed;
  }

  // ----- the image projection -----

  /** The image-invariant part of an input, as `measurement.snp.cbor` carries it. */
  datatype Image = Image(
    baseCmdline: string,
    ovmfHash: ByteString,
    kernelHash: ByteString,
    initrdHash: ByteString,
    hashesTableGpa: Word64,
    resetEip: Word32,
    sections: seq<OvmfSection>)

  function EffectiveInitrd(sha256: Sha256, initrdHash: string): Result<ByteString> {
    if initrdHash == "" then Ok(sha256([])) else DecodeRequiredHex(initrdHash, 32)
  }

  /** `sev_os_image_measurement`. */
  function Project(sha256: Sha256, input: Input): Result<Image> {
    hide *;
    var ovmf, kernel := DecodeRequiredHex(input.ovmfHash, 48), DecodeRequiredHex(input.kernelHash, 32);
    var initrd := EffectiveInitrd(sha256, input.initrdHash);
    if RootfsHash(input.baseCmdline).Err? || ovmf.Err? || kernel.Err? || initrd.Err? then Err
    else
      Ok(Image(Trim(input.baseCmdline), ovmf.value, kernel.value, initrd.value,
               input.hashesTableGpa, input.resetEip, input.sections))
  }

  /** `measurement_input_from_snp_document`: the image material with one deployment's processors. */
  function Rebuild(image: Image, vcpus: Word32, vcpuType: Option<string>, guestFeatures: Word64): Input {
    Input(image.baseCmdline, EncodeHex(image.ovmfHash), EncodeHex(image.kernelHash), EncodeHex(image.initrdHash),
          image.hashesTableGpa, image.resetEip, vcpus, vcpuType, guestFeatures, image.sections)
  }

  lemma HexAgain(b: ByteString)
    requires b != []
    ensures EncodeHex(b) != "" && DecodeHex(EncodeHex(b)) == Some(b)
    ensures DecodeRequiredHex(EncodeHex(b), |b|) == Ok(b) && DecodeOptionalHex(EncodeHex(b), |b|) == Ok(b)
  {
    HexRoundTrip(b);
    hide DecodeHex;
  }

  lemma InitrdKept(sha256: Sha256, initrdHash: string)
    requires EffectiveInitrd(sha256, initrdHash).Ok?
    ensures var hex := EncodeHex(EffectiveInitrd(sha256, initrdHash).value);
            && InitrdDigest(sha256, hex) == InitrdDigest(sha256, initrdHash)
            && DecodeOptionalHex(hex, 32).Ok? && DecodeOptionalHex(initrdHash, 32).Ok?
  {
    if initrdHash != "" {
      DecodedHex(initrdHash, 32);
    }
    HexAgain(EffectiveInitrd(sha256, initrdHash).value);
    hide DecodeHex, EncodeHex;
  }

  lemma DigestKept(value: string, len: nat)
    requires len > 0 && DecodeRequiredHex(value, len).Ok?
    ensures var hex := EncodeHex(DecodeRequiredHex(value, len).value);
            && DecodeHex(hex) == DecodeHex(value) && DecodeRequiredHex(hex, len).Ok?
  {
    DecodedHex(value, len);
    hide DecodeHex, EncodeHex;
    HexAgain(DecodeRequiredHex(value, len).value);
  }

  lemma HashesPageKept(sha256: Sha256, input: Input, back: Input)
    requires back.hashesTableGpa == input.hashesTableGpa && back.baseCmdline == Trim(input.baseCmdline)
    requires InitrdDigest(sha256, back.initrdHash) == InitrdDigest(sha256, input.initrdHash)
    requires DecodeHex(back.kernelHash) == DecodeHex(input.kernelHash)
    ensures HashesPage(sha256, back) == HashesPage(sha256, input)
  {
    hide InitrdDigest, TablePageFor, Utf8.Encode, Trim, DecodeHex;
    TrimTwice(input.baseCmdline);
  }

  lemma UpdatesKept(sha384: Sha384, sha256: Sha256, input: Input, back: Input)
    requires HashesPage(sha256, back) == HashesPage(sha256, input) && back.sections == input.sections
    requires back.vcpus == input.vcpus && back.vcpuType == input.vcpuType
    requires back.guestFeatures == input.guestFeatures && back.resetEip == input.resetEip
    ensures Updates(sha384, sha256, back) == Updates(sha384, sha256, input)
  {
    hide HashesPage, SectionsUpdates, VcpuSig, VmsaPage, VmsaUpdates, HasKernelHashes, AllWellFormed, NoVmsa;
  }

  /** Projecting and rebuilding keeps both the validator's verdict and the expected digest. */
  lemma ProjectionKeepsLaunch(sha384: Sha384, sha256: Sha256, input: Input)
    requires Project(sha256, input).Ok?
    ensures var image := Project(sha256, input).value;
            var back := Rebuild(image, input.vcpus, input.vcpuType, input.guestFeatures);
            && (Valid(back) <==> Valid(input))
            && Measurement(sha384, sha256, back) == Measurement(sha384, sha256, input)
  {
    hide RootfsHash, DecodeRequiredHex, DecodeOptionalHex, DecodeHex, EncodeHex, InitrdDigest, EffectiveInitrd, Trim;
    hide HashesPage, Updates, Launch, KnownVcpuType, ValidSections, HasKernelHashes;
    var image := Project(sha256, input).value;
    var back := Rebuild(image, input.vcpus, input.vcpuType, input.guestFeatures);
    DigestKept(input.ovmfHash, 48);
    DigestKept(input.kernelHash, 32);
    InitrdKept(sha256, input.initrdHash);
    RootfsHashOfTrimmed(input.baseCmdline);
    HashesPageKept(sha256, input, back);
    UpdatesKept(sha384, sha256, input, back);
  }

  /** Every input the validator accepts can be projected. */
  lemma ValidInputProjects(sha256: Sha256, input: Input)
    requires Valid(input)
    ensures Project(sha256, input).Ok?
  {
    hide RootfsHash, DecodeHex, KnownVcpuType, ValidSections, HasKernelHashes;
  }

  // ----- what equal digests mean -----

  predicate OnlyVmsa(us: seq<PageUpdate>) {
    forall i :: 0 <= i < |us| ==> us[i].pageType == VMSA_TYPE
  }

  /** The last `n` updates. */
  function Tail<T>(s: seq<T>, n: nat): (r: seq<T>)
    requires n <= |s|
    ensures |r| == n
  {
    s[|s| - n..]
  }

  /** Where the VMSA pages begin can be read off the page types, from the end of the sequence. */
  lemma SamePartition(us: seq<PageUpdate>, vs: seq<PageUpdate>, us': seq<PageUpdate>, vs': seq<PageUpdate>)
    requires us != [] && |us + vs| <= |us' + vs'| && us + vs == Tail(us' + vs', |us + vs|)
    requires NoVmsa(us) && NoVmsa(us') && OnlyVmsa(vs) && OnlyVmsa(vs')
    ensures vs == vs' && |us| <= |us'| && us == Tail(us', |us|)
  {
    var all, all' := us + vs, us' + vs';
    var d := |all'| - |all|;
    assert forall i :: 0 <= i < |all| ==> all[i] == all'[d + i];
    assert all[|us| - 1] == us[|us| - 1] == all'[d + |us| - 1];
    assert vs != [] ==> all[|us|] == vs[0] == all'[d + |us|];
    assert forall i :: 0 <= i < |us'| ==> all'[i] == us'[i];
    assert forall i :: |us'| <= i < |all'| ==> all'[i] == vs'[i - |us'|];
    assert |vs| == |vs'|;
    assert vs == all[|us|..] && vs' == all'[|us'|..] && us == all[..|us|] && us' == all'[..|us'|];
  }

  predicate NormalPagesAre(us: seq<PageUpdate>, digest: ByteString) {
    forall i :: 0 <= i < |us| && us[i].pageType == 0x01 ==> us[i].contents == digest
  }

  predicate HasNormalPage(us: seq<PageUpdate>) {
    exists i :: 0 <= i < |us| && us[i].pageType == 0x01
  }

  lemma SectionNormalPages(sha384: Sha384, page: Result<ByteString>, s: OvmfSection)
    requires page.Ok? && SectionUpdates(sha384, page, s).Ok?
    ensures NormalPagesAre(SectionUpdates(sha384, page, s).value, sha384(page.value))
    ensures HasNormalPage(SectionUpdates(sha384, page, s).value) <==> s.sectionType == SNP_KERNEL_HASHES
  {
    hide ZeroPages, AllWellFormed, NoVmsa;
    if s.sectionType == SNP_KERNEL_HASHES {
      assert SectionUpdates(sha384, page, s).value[0].pageType == 0x01;
    }
  }

  lemma NormalPagesAppend(us: seq<PageUpdate>, vs: seq<PageUpdate>, digest: ByteString)
    requires NormalPagesAre(us, digest) && NormalPagesAre(vs, digest)
    ensures NormalPagesAre(us + vs, digest)
    ensures HasNormalPage(us) || HasNormalPage(vs) ==> HasNormalPage(us + vs)
  {
    if HasNormalPage(us) {
      var i :| 0 <= i < |us| && us[i].pageType == 0x01;
      assert (us + vs)[i].pageType == 0x01;
    } else if HasNormalPage(vs) {
      var i :| 0 <= i < |vs| && vs[i].pageType == 0x01;
      assert (us + vs)[|us| + i].pageType == 0x01;
    }
  }

  /** The only page with contents is the kernel hash table. */
  lemma {:induction false} SectionsNormalPages(sha384: Sha384, page: Result<ByteString>, sections: seq<OvmfSection>)
    requires page.Ok? && SectionsUpdates(sha384, page, sections).Ok?
    ensures NormalPagesAre(SectionsUpdates(sha384, page, sections).value, sha384(page.value))
    ensures HasKernelHashes(sections) ==> HasNormalPage(SectionsUpdates(sha384, page, sections).value)
  {
    hide SectionUpdates, AllWellFormed, NoVmsa, NormalPagesAre, HasNormalPage;
    if sections == [] {
      NothingIsNormal(sha384(page.value));
    } else {
      var init, last := sections[..|sections| - 1], sections[|sections| - 1];
      SectionsNormalPages(sha384, page, init);
      SectionNormalPages(sha384, page, last);
      NormalPagesAppend(SectionsUpdates(sha384, page, init).value, SectionUpdates(sha384, page, last).value,
                        sha384(page.value));
      assert forall s :: s in sections ==> s in init || s == last;
    }
  }

  lemma NothingIsNormal(digest: ByteString)
    ensures NormalPagesAre([], digest)
  {
  }

  lemma SameNormalPage(us: seq<PageUpdate>, us': seq<PageUpdate>, d: ByteString, d': ByteString)
    requires |us| <= |us'| && us == Tail(us', |us|)
    requires NormalPagesAre(us, d) && NormalPagesAre(us', d') && HasNormalPage(us)
    ensures d == d'
  {
    var i :| 0 <= i < |us| && us[i].pageType == 0x01;
    assert us[i] == us'[|us'| - |us| + i];
  }

  // ----- the pages a launch visits -----

  /** A page of the launch: its type and its guest address. */
  datatype Visit = Visit(pageType: Byte, gpa: Word64)

  function VisitsOf(us: seq<PageUpdate>): (vs: seq<Visit>)
    ensures |vs| == |us| && forall i :: 0 <= i < |us| ==> vs[i] == Visit(us[i].pageType, us[i].gpa)
  {
    seq(|us|, i requires 0 <= i < |us| => Visit(us[i].pageType, us[i].gpa))
  }

  /** The pages of [gpa, gpa + size), each once and in order, as ZERO pages for memory; one SECRETS,
      CPUID or NORMAL page for the others. */
  function SectionVisits(s: OvmfSection): seq<Visit> {
    if s.sectionType == 0x01 || s.sectionType == 0x04 then
      seq((s.size + 4095) / 4096, i requires i >= 0 => Visit(0x03, (s.gpa + 4096 * i) % 0x1_0000_0000_0000_0000))
    else [Visit(if s.sectionType == 0x02 then 0x05 else if s.sectionType == 0x03 then 0x06 else 0x01, s.gpa)]
  }

  function SectionsVisits(sections: seq<OvmfSection>): seq<Visit> {
    if sections == [] then []
    else SectionsVisits(sections[..|sections| - 1]) + SectionVisits(sections[|sections| - 1])
  }

  lemma SectionIsVisited(sha384: Sha384, page: Result<ByteString>, s: OvmfSection)
    requires SectionUpdates(sha384, page, s).Ok?
    ensures VisitsOf(SectionUpdates(sha384, page, s).value) == SectionVisits(s)
  {
    hide ZeroPages, AllWellFormed, NoVmsa;
    if s.sectionType == SNP_SEC_MEMORY || s.sectionType == SVSM_CAA {
      var n := PageCount(s.size);
      forall i | 0 <= i < n
        ensures VisitsOf(ZeroPages(s.gpa, n))[i] == SectionVisits(s)[i]
      {
        ZeroPageAt(s.gpa, n, i);
      }
    }
  }

  lemma VisitsAppend(us: seq<PageUpdate>, vs: seq<PageUpdate>)
    ensures VisitsOf(us + vs) == VisitsOf(us) + VisitsOf(vs)
  {
  }

  /** The section updates visit exactly the pages of the sections, in file order. */
  lemma {:induction false} SectionsAreVisited(sha384: Sha384, page: Result<ByteString>, sections: seq<OvmfSection>)
    requires SectionsUpdates(sha384, page, sections).Ok?
    ensures VisitsOf(SectionsUpdates(sha384, page, sections).value) == SectionsVisits(sections)
  {
    hide SectionUpdates, AllWellFormed, NoVmsa, SectionVisits;
    if sections != [] {
      var init, last := sections[..|sections| - 1], sections[|sections| - 1];
      SectionsAreVisited(sha384, page, init);
      SectionIsVisited(sha384, page, last);
      VisitsAppend(SectionsUpdates(sha384, page, init).value, SectionUpdates(sha384, page, last).value);
    }
  }

  /** The launch ends with one VMSA page per processor, all at the same address: the boot processor's,
      then one for each other. */
  lemma VmsaVisits(sha384: Sha384, sha256: Sha256, input: Input)
    requires Updates(sha384, sha256, input).Ok? && SigOf(input).Ok?
    ensures var us, n := Updates(sha384, sha256, input).value, input.vcpus;
            && n <= |us| && VisitsOf(us[..|us| - n]) == SectionsVisits(input.sections)
            && forall i :: |us| - n <= i < |us| ==>
                 us[i] == PageUpdate(0x02, 0xFFFF_FFFF_F000,
                                     sha384(if i == |us| - n then VmsaPage(0xFFFF_FFF0, SigOf(input).value, input.guestFeatures)
                                            else VmsaPage(input.resetEip, SigOf(input).value, input.guestFeatures)))
  {
    hide SectionsUpdates, VcpuSig, HashesPage, HasKernelHashes, AllWellFormed, VmsaPage, NoVmsa, SectionsVisits;
    var pages := SectionsUpdates(sha384, HashesPage(sha256, input), input.sections).value;
    var vmsas := VmsaUpdates(sha384, BspPage(input), ApPage(input), input.vcpus);
    SectionsAreVisited(sha384, HashesPage(sha256, input), input.sections);
    var us := Updates(sha384, sha256, input).value;
    hide VmsaUpdates;
    assert us == pages + vmsas && us[..|us| - input.vcpus] == pages;
    assert forall i :: |pages| <= i < |us| ==> us[i] == vmsas[i - |pages|];
  }

  /** The two launches run the same kernel, initrd and command line (so the same rootfs) on the same
      number and, if there are any, kind of processors. */
  ghost predicate SameGuest(sha256: Sha256, a: Input, b: Input) {
    && a.vcpus == b.vcpus
    && (a.vcpus > 0 ==> SigOf(a) == SigOf(b) && a.guestFeatures == b.guestFeatures)
    && (a.vcpus > 1 ==> a.resetEip == b.resetEip)
    && SameTable(sha256, a, b)
    && Trim(a.baseCmdline) == Trim(b.baseCmdline) && RootfsHash(a.baseCmdline) == RootfsHash(b.baseCmdline)
  }

  ghost predicate SameTable(sha256: Sha256, a: Input, b: Input) {
    && TableOffset(a) == TableOffset(b)
    && Digest32(a.kernelHash) == Digest32(b.kernelHash)
    && InitrdDigest(sha256, a.initrdHash) == InitrdDigest(sha256, b.initrdHash)
  }

  /** The places where the two computations hash different bytes to one digest. */
  ghost predicate PagesCollide(sha384: Sha384, sha256: Sha256, a: Input, b: Input)
    requires HashesPage(sha256, a).Ok? && HashesPage(sha256, b).Ok? && SigOf(a).Ok? && SigOf(b).Ok?
  {
    || Collision(sha384, HashesPage(sha256, a).value, HashesPage(sha256, b).value)
    || Collision(sha384, BspPage(a), BspPage(b))
    || Collision(sha384, ApPage(a), ApPage(b))
    || Collision(sha256, CmdlineBytes(a.baseCmdline), CmdlineBytes(b.baseCmdline))
  }

  lemma CmdlineCommits(a: string, b: string)
    requires CmdlineBytes(a) == CmdlineBytes(b)
    ensures Trim(a) == Trim(b) && RootfsHash(a) == RootfsHash(b)
  {
    hide Utf8.Encode, Trim, RootfsHash;
    SameTail(Utf8.Encode(Trim(a)), [0], Utf8.Encode(Trim(b)), [0]);
    Utf8.Injective(Trim(a), Trim(b));
    RootfsHashOfTrimmed(a);
    RootfsHashOfTrimmed(b);
  }

  lemma TableCommits(sha256: Sha256, a: Input, b: Input)
    requires HashesPage(sha256, a).Ok? && HashesPage(sha256, a) == HashesPage(sha256, b)
    ensures SameTable(sha256, a, b)
    ensures sha256(CmdlineBytes(a.baseCmdline)) == sha256(CmdlineBytes(b.baseCmdline))
  {
    hide CmdlineBytes, Digest32, InitrdDigest, TableOffset, TablePage, HashTable;
    TablePageInjective(
      TableOffset(a), sha256(CmdlineBytes(a.baseCmdline)), InitrdDigest(sha256, a.initrdHash).value,
      Digest32(a.kernelHash).value,
      TableOffset(b), sha256(CmdlineBytes(b.baseCmdline)), InitrdDigest(sha256, b.initrdHash).value,
      Digest32(b.kernelHash).value);
  }

  lemma ProcessorsCommit(sha384: Sha384, a: Input, b: Input)
    requires SigOf(a).Ok? && SigOf(b).Ok?
    requires !Collision(sha384, BspPage(a), BspPage(b)) && !Collision(sha384, ApPage(a), ApPage(b))
    requires VmsaUpdates(sha384, BspPage(a), ApPage(a), a.vcpus) == VmsaUpdates(sha384, BspPage(b), ApPage(b), b.vcpus)
    ensures a.vcpus == b.vcpus
    ensures a.vcpus > 0 ==> SigOf(a) == SigOf(b) && a.guestFeatures == b.guestFeatures
    ensures a.vcpus > 1 ==> a.resetEip == b.resetEip
  {
    hide VcpuSig, VmsaPage, AllWellFormed;
    var us := VmsaUpdates(sha384, BspPage(a), ApPage(a), a.vcpus);
    var us' := VmsaUpdates(sha384, BspPage(b), ApPage(b), b.vcpus);
    hide VmsaUpdates;
    assert |us| == a.vcpus && |us'| == b.vcpus;
    if a.vcpus > 0 {
      assert us[0].contents == sha384(BspPage(a)) && us'[0].contents == sha384(BspPage(b));
      VmsaInjective(BSP_EIP, SigOf(a).value, a.guestFeatures, BSP_EIP, SigOf(b).value, b.guestFeatures);
    }
    if a.vcpus > 1 {
      assert us[1].contents == sha384(ApPage(a)) && us'[1].contents == sha384(ApPage(b));
      VmsaInjective(a.resetEip, SigOf(a).value, a.guestFeatures, b.resetEip, SigOf(b).value, b.guestFeatures);
    }
  }

  lemma SectionsCommit(sha384: Sha384, page: Result<ByteString>, page': Result<ByteString>, a: Input, b: Input)
    requires page.Ok? && page'.Ok? && !Collision(sha384, page.value, page'.value) && HasKernelHashes(a.sections)
    requires SectionsUpdates(sha384, page, a.sections).Ok? && SectionsUpdates(sha384, page', b.sections).Ok?
    requires var us := SectionsUpdates(sha384, page, a.sections).value;
             var us' := SectionsUpdates(sha384, page', b.sections).value;
             |us| <= |us'| && us == Tail(us', |us|)
    ensures page == page'
  {
    hide SectionsUpdates, AllWellFormed, NoVmsa, HasKernelHashes, NormalPagesAre, HasNormalPage, Tail;
    SectionsNormalPages(sha384, page, a.sections);
    SectionsNormalPages(sha384, page', b.sections);
    SameNormalPage(SectionsUpdates(sha384, page, a.sections).value, SectionsUpdates(sha384, page', b.sections).value,
                   sha384(page.value), sha384(page'.value));
  }

  lemma MeasuredHasPages(sha384: Sha384, sha256: Sha256, input: Input)
    requires Updates(sha384, sha256, input).Ok?
    ensures HashesPage(sha256, input).Ok? && SigOf(input).Ok? && HasKernelHashes(input.sections)
    ensures SectionsUpdates(sha384, HashesPage(sha256, input), input.sections).Ok?
  {
    hide SectionsUpdates, VmsaUpdates, VcpuSig, HashesPage, HasKernelHashes, AllWellFormed, VmsaPage;
    var page := HashesPage(sha256, input);
    if page.Err? {
      NoPageNoMeasurement(sha384, page, input.sections);
    }
  }

  lemma HasPages(us: seq<PageUpdate>)
    requires HasNormalPage(us)
    ensures us != []
  {
  }

  lemma UpdatesCommit(sha384: Sha384, sha256: Sha256, a: Input, b: Input)
    requires Updates(sha384, sha256, a).Ok? && Updates(sha384, sha256, b).Ok?
    requires HashesPage(sha256, a).Ok? && SigOf(a).Ok? && SigOf(b).Ok?
    requires SectionsUpdates(sha384, HashesPage(sha256, a), a.sections).Ok? && HasKernelHashes(a.sections)
    requires SectionsUpdates(sha384, HashesPage(sha256, b), b.sections).Ok?
    requires var us, us' := Updates(sha384, sha256, a).value, Updates(sha384, sha256, b).value;
             |us| <= |us'| && us == Tail(us', |us|)
    ensures var us := SectionsUpdates(sha384, HashesPage(sha256, a), a.sections).value;
            var us' := SectionsUpdates(sha384, HashesPage(sha256, b), b.sections).value;
            |us| <= |us'| && us == Tail(us', |us|)
    ensures VmsaUpdates(sha384, BspPage(a), ApPage(a), a.vcpus) == VmsaUpdates(sha384, BspPage(b), ApPage(b), b.vcpus)
  {
    hide SectionsUpdates, VmsaUpdates, VcpuSig, HashesPage, HasKernelHashes, AllWellFormed, VmsaPage, Tail, HasNormalPage;
    var page, page' := HashesPage(sha256, a), HashesPage(sha256, b);
    SectionsNormalPages(sha384, page, a.sections);
    HasPages(SectionsUpdates(sha384, page, a.sections).value);
    SamePartition(SectionsUpdates(sha384, page, a.sections).value, VmsaUpdates(sha384, BspPage(a), ApPage(a), a.vcpus),
                  SectionsUpdates(sha384, page', b.sections).value, VmsaUpdates(sha384, BspPage(b), ApPage(b), b.vcpus));
  }

  lemma GuestCommits(sha384: Sha384, sha256: Sha256, a: Input, b: Input)
    requires Updates(sha384, sha256, a).Ok? && Updates(sha384, sha256, b).Ok?
    requires HashesPage(sha256, a).Ok? && HashesPage(sha256, b).Ok? && SigOf(a).Ok? && SigOf(b).Ok?
    requires var us, us' := Updates(sha384, sha256, a).value, Updates(sha384, sha256, b).value;
             |us| <= |us'| && us == Tail(us', |us|)
    ensures (SameGuest(sha256, a, b) && EndsVisits(a.sections, b.sections)) || PagesCollide(sha384, sha256, a, b)
  {
    hide Updates, SectionsUpdates, VmsaUpdates, HashesPage, AllWellFormed, VcpuSig, VmsaPage, Tail;
    hide HasKernelHashes, SigOf, BspPage, ApPage, CmdlineBytes, SameTable, RootfsHash, Trim;
    MeasuredHasPages(sha384, sha256, a);
    MeasuredHasPages(sha384, sha256, b);
    if !PagesCollide(sha384, sha256, a, b) {
      UpdatesCommit(sha384, sha256, a, b);
      ProcessorsCommit(sha384, a, b);
      SectionsCommit(sha384, HashesPage(sha256, a), HashesPage(sha256, b), a, b);
      TableCommits(sha256, a, b);
      CmdlineCommits(a.baseCmdline, b.baseCmdline);
      VisitsCommit(sha384, HashesPage(sha256, a), HashesPage(sha256, b), a.sections, b.sections);
    }
  }

  /** The one launch visits, at the end of its sections, exactly the pages of the other's. */
  ghost predicate EndsVisits(a: seq<OvmfSection>, b: seq<OvmfSection>) {
    |SectionsVisits(a)| <= |SectionsVisits(b)| && SectionsVisits(a) == Tail(SectionsVisits(b), |SectionsVisits(a)|)
  }

  lemma VisitsCommit(
    sha384: Sha384, page: Result<ByteString>, page': Result<ByteString>, a: seq<OvmfSection>, b: seq<OvmfSection>)
    requires SectionsUpdates(sha384, page, a).Ok? && SectionsUpdates(sha384, page', b).Ok?
    requires var us, us' := SectionsUpdates(sha384, page, a).value, SectionsUpdates(sha384, page', b).value;
             |us| <= |us'| && us == Tail(us', |us|)
    ensures EndsVisits(a, b)
  {
    hide SectionsUpdates, AllWellFormed, NoVmsa, SectionsVisits;
    SectionsAreVisited(sha384, page, a);
    SectionsAreVisited(sha384, page', b);
  }

  /** Equal digests, however many updates either launch has: the same guest, and the firmware digest
      of the shorter launch is what the longer one had reached by then; or two different inputs of
      one hash, named, with the same digest. */
  lemma MeasurementBinds(sha384: Sha384, sha256: Sha256, a: Input, b: Input)
    requires Measurement(sha384, sha256, a).Ok? && Measurement(sha384, sha256, a) == Measurement(sha384, sha256, b)
    requires |Updates(sha384, sha256, a).value| <= |Updates(sha384, sha256, b).value|
    ensures HashesPage(sha256, a).Ok? && HashesPage(sha256, b).Ok? && SigOf(a).Ok? && SigOf(b).Ok?
    ensures var us, us' := Updates(sha384, sha256, a).value, Updates(sha384, sha256, b).value;
            var reached := Launch(sha384, Seed(b).value, us'[..|us'| - |us|]);
            || (SameGuest(sha256, a, b) && Seed(a).value == reached && EndsVisits(a.sections, b.sections))
            || PagesCollide(sha384, sha256, a, b)
            || exists i :: 0 <= i < |us| && PageInfoCollision(sha384, Seed(a).value, us, reached, Tail(us', |us|), i)
  {
    hide Seed, Updates, Launch, SectionsUpdates, HashesPage, AllWellFormed, VcpuSig, PageInfoCollision, SameGuest, SigOf;
    hide PagesCollide;
    MeasuredHasPages(sha384, sha256, a);
    MeasuredHasPages(sha384, sha256, b);
    var us, us' := Updates(sha384, sha256, a).value, Updates(sha384, sha256, b).value;
    var pre, tail := us'[..|us'| - |us|], Tail(us', |us|);
    assert us' == pre + tail;
    TailWellFormed(us', |us|);
    LaunchSplit(sha384, Seed(b).value, pre, tail);
    var reached := Launch(sha384, Seed(b).value, pre);
    LaunchCommits(sha384, Seed(a).value, us, reached, tail);
    if us == tail {
      GuestCommits(sha384, sha256, a, b);
    }
  }

  lemma TailWellFormed(us: seq<PageUpdate>, n: nat)
    requires n <= |us| && AllWellFormed(us)
    ensures AllWellFormed(Tail(us, n))
  {
  }

  lemma VisitCounts(sha384: Sha384, sha256: Sha256, input: Input)
    requires Updates(sha384, sha256, input).Ok?
    ensures |Updates(sha384, sha256, input).value| == |SectionsVisits(input.sections)| + input.vcpus
  {
    hide Updates, SigOf, SectionsVisits, HashesPage, VmsaPage;
    MeasuredHasPages(sha384, sha256, input);
    VmsaVisits(sha384, sha256, input);
  }

  /** After equally many updates, equal digests also mean the same firmware and the same pages. */
  lemma EqualCountsBind(sha384: Sha384, sha256: Sha256, a: Input, b: Input)
    requires Measurement(sha384, sha256, a).Ok? && Measurement(sha384, sha256, a) == Measurement(sha384, sha256, b)
    requires |Updates(sha384, sha256, a).value| == |Updates(sha384, sha256, b).value|
    ensures HashesPage(sha256, a).Ok? && HashesPage(sha256, b).Ok? && SigOf(a).Ok? && SigOf(b).Ok?
    ensures var us, us' := Updates(sha384, sha256, a).value, Updates(sha384, sha256, b).value;
            || (SameGuest(sha256, a, b) && Seed(a) == Seed(b) && SectionsVisits(a.sections) == SectionsVisits(b.sections))
            || PagesCollide(sha384, sha256, a, b)
            || exists i :: 0 <= i < |us| && PageInfoCollision(sha384, Seed(a).value, us, Seed(b).value, us', i)
  {
    hide Seed, Updates, HashesPage, PageInfoCollision, SigOf, PagesCollide, Launch, SectionsVisits, SameTable, Trim;
    hide RootfsHash;
    MeasurementBinds(sha384, sha256, a, b);
    VisitCounts(sha384, sha256, a);
    VisitCounts(sha384, sha256, b);
    var us, us' := Updates(sha384, sha256, a).value, Updates(sha384, sha256, b).value;
    assert us'[..0] == [] && Tail(us', |us|) == us';
    LaunchNothing(sha384, Seed(b).value);
  }
}
