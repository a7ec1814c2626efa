/** The AMD SEV-SNP launch digest: a hash chain over page updates. */
module SevSnp {
  import opened Common
  import opened Sequences

  const VMSA_GPA: Word64 := 0x0000_FFFF_FFFF_F000

  /** One SNP_LAUNCH_UPDATE: page type, guest address, and the digest of the contents. */
  datatype PageUpdate = PageUpdate(pageType: Byte, gpa: Word64, contents: ByteString)

  predicate WellFormed(u: PageUpdate) {
    |u.contents| == 48
  }

  predicate AllWellFormed(us: seq<PageUpdate>) {
    forall u :: u in us ==> WellFormed(u)
  }

  /** PAGE_INFO, section 8.17.2 of the SEV-SNP Firmware ABI: 112 bytes. */
  function PageInfo(ld: ByteString, u: PageUpdate): (b: ByteString)
    ensures |ld| == 48 && WellFormed(u) ==> |b| == 112
  {
    ld + u.contents + Le(0x70, 2) + [u.pageType] + Zeros(5) + Le(u.gpa, 8)
  }

  /** The launch digest after the updates, starting from `seed`. */
  function Launch(sha: Sha384, seed: ByteString, us: seq<PageUpdate>): (ld: ByteString)
    requires |seed| == 48
    ensures |ld| == 48
  {
    if us == [] then seed else sha(PageInfo(Launch(sha, seed, us[..|us| - 1]), us[|us| - 1]))
  }

  lemma {:induction false} LaunchSplit(sha: Sha384, seed: ByteString, a: seq<PageUpdate>, b: seq<PageUpdate>)
    requires |seed| == 48
    ensures Launch(sha, seed, a + b) == Launch(sha, Launch(sha, seed, a), b)
  {
    hide PageInfo;
    if b == [] {
      assert a + b == a;
    } else {
      var init, last := b[..|b| - 1], b[|b| - 1];
      LaunchSplit(sha, seed, a, init);
      assert (a + b)[..|a + b| - 1] == a + init;
    }
  }

  lemma LaunchStep(sha: Sha384, seed: ByteString, us: seq<PageUpdate>, u: PageUpdate)
    requires |seed| == 48
    ensures Launch(sha, seed, us + [u]) == sha(PageInfo(Launch(sha, seed, us), u))
  {
    hide PageInfo;
    assert (us + [u])[..|us|] == us;
  }

  // ----- what each kind of section contributes -----

  function PageAt(gpa: Word64, i: nat): Word64 {
    (gpa + i * 4096) % U64
  }

  /** `n` pages of type ZERO. */
  function ZeroPages(gpa: Word64, n: nat): (us: seq<PageUpdate>)
    ensures |us| == n && AllWellFormed(us)
    ensures forall u :: u in us ==> u.pageType == 0x03
  {
    if n == 0 then [] else ZeroPages(gpa, n - 1) + [PageUpdate(0x03, PageAt(gpa, n - 1), Zeros(48))]
  }

  function PageCount(size: nat): nat {
    (size + 4095) / 4096
  }

  /** The `i`-th 4 KiB chunk of `data`; the last one may be short. */
  function Chunk(data: ByteString, i: nat): ByteString
    requires i < PageCount(|data|)
  {
    if (i + 1) * 4096 <= |data| then data[i * 4096..(i + 1) * 4096] else data[i * 4096..]
  }

  /** The first `n` chunks of `data` as NORMAL pages. */
  function NormalPages(sha: Sha384, gpa: Word64, data: ByteString, n: nat): (us: seq<PageUpdate>)
    requires n <= PageCount(|data|)
    ensures |us| == n && AllWellFormed(us)
    ensures forall u :: u in us ==> u.pageType == 0x01
  {
    if n == 0 then []
    else NormalPages(sha, gpa, data, n - 1) + [PageUpdate(0x01, PageAt(gpa, n - 1), sha(Chunk(data, n - 1)))]
  }

  /** Page `i` is recorded 4096 * `i` bytes on, modulo 2^64, with a digest of zeros. */
  lemma {:induction false} ZeroPageAt(gpa: Word64, n: nat, i: nat)
    requires i < n
    ensures ZeroPages(gpa, n)[i]
            == PageUpdate(0x03, (gpa + 4096 * i) % 0x1_0000_0000_0000_0000, seq(48, _ => 0))
    decreases n
  {
    if i < n - 1 {
      ZeroPageAt(gpa, n - 1, i);
    }
  }

  /** Page `i` of the data is recorded 4096 * `i` bytes on, with the digest of its own bytes. */
  lemma {:induction false} NormalPageAt(sha: Sha384, gpa: Word64, data: ByteString, n: nat, i: nat)
    requires i < n <= PageCount(|data|)
    ensures 4096 * i < |data|
    ensures var end := if 4096 * i + 4096 < |data| then 4096 * i + 4096 else |data|;
            NormalPages(sha, gpa, data, n)[i]
            == PageUpdate(0x01, (gpa + 4096 * i) % 0x1_0000_0000_0000_0000, sha(data[4096 * i..end]))
    decreases n
  {
    if i < n - 1 {
      NormalPageAt(sha, gpa, data, n - 1, i);
    } else {
      var end := if 4096 * i + 4096 < |data| then 4096 * i + 4096 else |data|;
      assert Chunk(data, i) == data[4096 * i..end];
    }
  }

  /** `Gctx`: the digest, updated page by page. */
  class Gctx {
    const sha: Sha384
    var ld: ByteString

    predicate Valid()
      reads this
    {
      |ld| == 48
    }

    constructor (sha: Sha384, seed: ByteString)
      requires |seed| == 48
      ensures Valid() && ld == seed && this.sha == sha
    {
      this.sha := sha;
      ld := seed;
    }

    method Update(pageType: Byte, gpa: Word64, contents: ByteString)
      requires Valid() && |contents| == 48
      modifies this
      ensures Valid() && ld == Launch(sha, old(ld), [PageUpdate(pageType, gpa, contents)])
    {
      ghost var u := PageUpdate(pageType, gpa, contents);
      LaunchStep(sha, ld, [], u);
      assert [] + [u] == [u];
      var buf := Zeros(0x70);
      buf := Splice(buf, 0, ld);
      buf := Splice(buf, 48, contents);
      buf := Splice(buf, 96, Le(0x70, 2));
      buf := Splice(buf, 98, [pageType]);
      buf := Splice(buf, 104, Le(gpa, 8));
      PageInfoBySplices(ld, u);
      ld := sha(buf);
    }

    method UpdateZeroPages(gpa: Word64, len: nat)
      requires Valid()
      modifies this
      ensures Valid() && ld == Launch(sha, old(ld), ZeroPages(gpa, PageCount(len)))
    {
      hide Launch, PageAt;
      LaunchNothing(sha, ld);
      var i := 0;
      while i * 4096 < len
        invariant i <= PageCount(len)
        invariant Valid() && ld == Launch(sha, old(ld), ZeroPages(gpa, i))
        decreases len - i * 4096
      {
        LaunchSplit(sha, old(ld), ZeroPages(gpa, i), [PageUpdate(0x03, PageAt(gpa, i), Zeros(48))]);
        Update(0x03, PageAt(gpa, i), Zeros(48));
        i := i + 1;
      }
      assert i == PageCount(len);
    }

    method UpdateNormalPages(startGpa: Word64, data: ByteString)
      requires Valid()
      modifies this
      ensures Valid() && ld == Launch(sha, old(ld), NormalPages(sha, startGpa, data, PageCount(|data|)))
    {
      hide Launch, PageAt, Chunk;
      LaunchNothing(sha, ld);
      for i := 0 to PageCount(|data|)
        invariant Valid() && ld == Launch(sha, old(ld), NormalPages(sha, startGpa, data, i))
      {
        var digest := sha(Chunk(data, i));
        LaunchSplit(sha, old(ld), NormalPages(sha, startGpa, data, i), [PageUpdate(0x01, PageAt(startGpa, i), digest)]);
        Update(0x01, PageAt(startGpa, i), digest);
      }
    }

    method UpdateSecretsPage(gpa: Word64)
      requires Valid()
      modifies this
      ensures Valid() && ld == Launch(sha, old(ld), [PageUpdate(0x05, gpa, Zeros(48))])
    {
      Update(0x05, gpa, Zeros(48));
    }

    method UpdateCpuidPage(gpa: Word64)
      requires Valid()
      modifies this
      ensures Valid() && ld == Launch(sha, old(ld), [PageUpdate(0x06, gpa, Zeros(48))])
    {
      Update(0x06, gpa, Zeros(48));
    }

    method UpdateVmsaPage(page: ByteString)
      requires Valid()
      modifies this
      ensures Valid() && ld == Launch(sha, old(ld), [PageUpdate(0x02, VMSA_GPA, sha(page))])
    {
      Update(0x02, VMSA_GPA, sha(page));
    }
  }

  lemma LaunchNothing(sha: Sha384, seed: ByteString)
    requires |seed| == 48
    ensures Launch(sha, seed, []) == seed
  {
  }

  lemma PageInfoBySplices(ld: ByteString, u: PageUpdate)
    requires |ld| == 48 && WellFormed(u)
    ensures var b := Splice(Splice(Splice(Splice(Splice(Zeros(0x70), 0, ld), 48, u.contents), 96, Le(0x70, 2)),
                                   98, [u.pageType]), 104, Le(u.gpa, 8));
            b == PageInfo(ld, u)
  {
    hide Le, Splice;
    var a := Splice(Splice(Splice(Zeros(0x70), 0, ld), 48, u.contents), 96, Le(0x70, 2));
    assert a[0..48] == ld && a[48..96] == u.contents && a[96..98] == Le(0x70, 2) && a[98..112] == Zeros(14);
    var b := Splice(Splice(a, 98, [u.pageType]), 104, Le(u.gpa, 8));
    assert b[0..48] == ld && b[48..96] == u.contents && b[96..98] == Le(0x70, 2);
    assert b[98..99] == [u.pageType] && b[99..104] == Zeros(5) && b[104..112] == Le(u.gpa, 8);
    assert b == b[0..48] + b[48..96] + b[96..98] + b[98..99] + b[99..104] + b[104..112];
  }

  // ----- what the digest commits to -----

  /** The fields of PAGE_INFO at their offsets: the two digests, the length 0x70, the page type, the
      permissions, all clear, and the guest address. */
  lemma PageInfoFields(ld: ByteString, u: PageUpdate)
    requires |ld| == 48 && WellFormed(u)
    ensures var b := PageInfo(ld, u);
            && b[0..48] == ld && b[48..96] == u.contents && FromLe(b[96..98]) == 0x70
            && b[98] == u.pageType && b[99..104] == [0, 0, 0, 0, 0] && FromLe(b[104..112]) == u.gpa
  {
    hide Le, FromLe;
    var b := PageInfo(ld, u);
    assert b[0..48] == ld && b[48..96] == u.contents && b[96..98] == Le(0x70, 2);
    assert b[104..112] == Le(u.gpa, 8);
    WordSizes();
    LeRoundTrip(0x70, 2);
    LeRoundTrip(u.gpa, 8);
  }

  /** PAGE_INFO determines the digest it extends and the update it records. */
  lemma PageInfoInjective(ld: ByteString, u: PageUpdate, ld': ByteString, u': PageUpdate)
    requires |ld| == 48 && |ld'| == 48 && WellFormed(u) && WellFormed(u')
    requires PageInfo(ld, u) == PageInfo(ld', u')
    ensures ld == ld' && u == u'
  {
    hide Le, Pow256;
    var b, c := PageInfo(ld, u), PageInfo(ld', u');
    assert b[..48] == ld && c[..48] == ld';
    assert b[48..96] == u.contents && c[48..96] == u'.contents;
    assert b[98] == u.pageType && c[98] == u'.pageType;
    assert b[104..112] == Le(u.gpa, 8) && c[104..112] == Le(u'.gpa, 8);
    WordSizes();
    LeInjective(u.gpa, u'.gpa, 8);
  }

  /** At step `i` the two runs hash different PAGE_INFO blocks to one digest. */
  ghost predicate PageInfoCollision(
    sha: Sha384, seed: ByteString, us: seq<PageUpdate>, seed': ByteString, us': seq<PageUpdate>, i: nat)
    requires |seed| == 48 && |seed'| == 48 && i < |us| && i < |us'|
  {
    Collision(sha, PageInfo(Launch(sha, seed, us[..i]), us[i]), PageInfo(Launch(sha, seed', us'[..i]), us'[i]))
  }

  /** Equal digests after equally many updates: the same seed and the same updates, or a
      collision between the two PAGE_INFO blocks of some step. */
  lemma {:induction false} LaunchCommits(
    sha: Sha384, seed: ByteString, us: seq<PageUpdate>, seed': ByteString, us': seq<PageUpdate>)
    requires |seed| == 48 && |seed'| == 48 && AllWellFormed(us) && AllWellFormed(us') && |us| == |us'|
    requires Launch(sha, seed, us) == Launch(sha, seed', us')
    ensures (seed == seed' && us == us') || exists i :: 0 <= i < |us| && PageInfoCollision(sha, seed, us, seed', us', i)
  {
    hide PageInfo;
    if us != [] {
      var n := |us| - 1;
      var init, init', u, u' := us[..n], us'[..n], us[n], us'[n];
      var ld, ld' := Launch(sha, seed, init), Launch(sha, seed', init');
      if PageInfo(ld, u) != PageInfo(ld', u') {
        assert PageInfoCollision(sha, seed, us, seed', us', n);
      } else {
        PageInfoInjective(ld, u, ld', u');
        hide Launch;
        LaunchCommits(sha, seed, init, seed', init');
        if seed != seed' || init != init' {
          var i :| 0 <= i < |init| && PageInfoCollision(sha, seed, init, seed', init', i);
          assert init[..i] == us[..i] && init'[..i] == us'[..i];
          assert PageInfoCollision(sha, seed, us, seed', us', i);
        } else {
          InitLast(us);
          InitLast(us');
        }
      }
    }
  }
}
