/** The Linux setup header QEMU rewrites, patched by the verifier and normalized by the image build. */
module Kernel {
  import opened Common
  import opened Patching

  const HIGH_MEMORY_MIN := 0xB000_0000
  const COMPAT_2G := 0x8000_0000
  const ACPI_DATA_SIZE: Word32 := 0x2_8000
  const DEFAULT_CEILING: Word32 := 0x37FF_FFFF

  /** Memory sizes for which the precomputed kernel digest is used. */
  predicate UsesHighMemoryDigest(memorySize: nat) {
    memorySize == COMPAT_2G || memorySize >= HIGH_MEMORY_MIN
  }

  // ----- what QEMU writes -----

  function Protocol(k: ByteString): nat
    requires |k| >= 0x238
  {
    FromLe(k[0x206..0x208])
  }

  predicate LoadedHigh(k: ByteString)
    requires |k| >= 0x238
  {
    k[0x211] % 2 == 1
  }

  /** `b | 0x80`. */
  function SetHighBit(b: Byte): Byte {
    if b >= 128 then b else b + 128
  }

  predicate RealModeLow(k: ByteString)
    requires |k| >= 0x238
  {
    Protocol(k) < 0x200 || !LoadedHigh(k)
  }

  function RealAddr(k: ByteString): Word32
    requires |k| >= 0x238
  {
    if RealModeLow(k) then 0x9_0000 else 0x1_0000
  }

  function CmdlineAddr(k: ByteString): Word32
    requires |k| >= 0x238
  {
    if RealModeLow(k) then 0x9_a000 else 0x2_0000
  }

  /** The highest initrd address the kernel declares it can use. */
  function Ceiling(k: ByteString): Word32
    requires |k| >= 0x238
  {
    if Protocol(k) >= 0x20c then
      (if FromLe(k[0x236..0x238]) / 2 % 2 == 1 then 0xFFFF_FFFF else DEFAULT_CEILING)
    else if Protocol(k) >= 0x203 then
      FromLeBound(k[0x22c..0x230]);
      WordSizes();
      (if FromLe(k[0x22c..0x230]) == 0 then DEFAULT_CEILING else FromLe(k[0x22c..0x230]))
    else DEFAULT_CEILING
  }

  /** How much guest memory sits below 4 GiB. */
  function Below4g(memorySize: nat): Word32 {
    var lowmem := if memorySize < HIGH_MEMORY_MIN then HIGH_MEMORY_MIN else 0x8000_0000;
    if memorySize >= lowmem then lowmem else memorySize
  }

  /** The initrd must end at or below this, or there is no room for ACPI data at all. */
  function InitrdLimit(k: ByteString, memorySize: nat, acpiSize: Word32): Result<Word32>
    requires |k| >= 0x238
  {
    if Below4g(memorySize) < acpiSize then Err
    else
      var available := Below4g(memorySize) - acpiSize;
      if Ceiling(k) >= available then Ok(if available == 0 then 0 else available - 1) else Ok(Ceiling(k))
  }

  function PageFloor(x: nat): nat {
    x - x % 0x1000
  }

  /** The loader and command line fields. */
  function LoaderWrites(k: ByteString): (ws: seq<Write>)
    requires |k| >= 0x238
    ensures Fits(ws, 0x238)
  {
    var gap := CmdlineAddr(k) - RealAddr(k);
    (if Protocol(k) >= 0x200 then [Write(0x210, [0xb0])] else [])
    + (if Protocol(k) >= 0x201 then [Write(0x211, [SetHighBit(k[0x211])]), Write(0x224, Le(gap - 0x200, 4))] else [])
    + (if Protocol(k) >= 0x202 then [Write(0x228, Le(CmdlineAddr(k), 4))]
       else [Write(0x20, Le(0xa33f, 2)), Write(0x22, Le(gap % U16, 2))])
  }

  function InitrdWrites(k: ByteString, initrdSize: Word32, memorySize: nat, acpiSize: Word32): (r: Result<seq<Write>>)
    requires |k| >= 0x238
    ensures r.Ok? ==> Fits(r.value, 0x238)
  {
    PlaceInitrd(Protocol(k), InitrdLimit(k, memorySize, acpiSize), initrdSize)
  }

  function PlaceInitrd(protocol: nat, limit: Result<Word32>, initrdSize: Word32): (r: Result<seq<Write>>)
    ensures r.Ok? ==> Fits(r.value, 0x238)
  {
    if initrdSize == 0 then Ok([])
    else if protocol < 0x200 || limit.Err? || initrdSize >= limit.value then Err
    else Ok([Write(0x218, Le(PageFloor(limit.value - initrdSize), 4)), Write(0x21c, Le(initrdSize, 4))])
  }

  function PatchWrites(k: ByteString, initrdSize: Word32, memorySize: nat, acpiSize: Word32): (r: Result<seq<Write>>)
    requires |k| >= 0x238
    ensures r.Ok? ==> Fits(r.value, 0x238)
  {
    var initrd :- InitrdWrites(k, initrdSize, memorySize, acpiSize);
    Ok(LoaderWrites(k) + initrd)
  }

  function Patch(k: ByteString, initrdSize: Word32, memorySize: nat, acpiSize: Word32): Result<ByteString> {
    if |k| < 0x1000 then Err
    else
      var ws :- PatchWrites(k, initrdSize, memorySize, acpiSize);
      Ok(Apply(k, ws))
  }

  /** `patch_kernel`, overwriting a copy of the image in place. */
  method PatchKernel(kernel: ByteString, initrdSize: Word32, memorySize: Word64, acpiSize: Word32)
    returns (r: Result<ByteString>)
    ensures r == Patch(kernel, initrdSize, memorySize, acpiSize)
  {
    if |kernel| < 0x1000 {
      return Err;
    }
    var kd := new Byte[|kernel|](i requires 0 <= i < |kernel| => kernel[i]);
    assert kd[..] == kernel;
    PatchLoaderFields(kd, kernel);
    if initrdSize > 0 {
      r := PatchInitrdFields(kd, kernel, initrdSize, memorySize, acpiSize);
    } else {
      assert LoaderWrites(kernel) + [] == LoaderWrites(kernel);
      r := Ok(kd[..]);
    }
  }

  method PatchLoaderFields(kd: array<Byte>, ghost kernel: ByteString)
    requires kd[..] == kernel && |kernel| >= 0x1000
    modifies kd
    ensures kd[..] == Apply(kernel, LoaderWrites(kernel))
  {
    hide Le, FromLe, Apply;
    var protocol := FromLe(kd[0x206..0x208]);
    assert kd[0x206..0x208] == kernel[0x206..0x208];
    var low := protocol < 0x200 || kd[0x211] % 2 == 0;
    var realAddr, cmdlineAddr := if low then 0x9_0000 else 0x1_0000, if low then 0x9_a000 else 0x2_0000;
    var flags := SetHighBit(kd[0x211]);
    ghost var ws: seq<Write> := [];
    assert kd[..] == Apply(kernel, ws) by {
      ApplyNothing(kernel);
    }
    if protocol >= 0x200 {
      Put(kd, kernel, ws, 0x210, [0xb0]);
      ws := ws + [Write(0x210, [0xb0])];
    }
    if protocol >= 0x201 {
      Put(kd, kernel, ws, 0x211, [flags]);
      ws := ws + [Write(0x211, [flags])];
      Put(kd, kernel, ws, 0x224, Le(cmdlineAddr - realAddr - 0x200, 4));
      ws := ws + [Write(0x224, Le(cmdlineAddr - realAddr - 0x200, 4))];
    }
    if protocol >= 0x202 {
      Put(kd, kernel, ws, 0x228, Le(cmdlineAddr, 4));
      ws := ws + [Write(0x228, Le(cmdlineAddr, 4))];
    } else {
      Put(kd, kernel, ws, 0x20, Le(0xa33f, 2));
      ws := ws + [Write(0x20, Le(0xa33f, 2))];
      Put(kd, kernel, ws, 0x22, Le((cmdlineAddr - realAddr) % U16, 2));
      ws := ws + [Write(0x22, Le((cmdlineAddr - realAddr) % U16, 2))];
    }
    assert ws == LoaderWrites(kernel);
  }

  lemma LoaderClear(k: ByteString)
    requires |k| >= 0x238
    ensures Clear(LoaderWrites(k), 0x206, 0x208) && Clear(LoaderWrites(k), 0x22c, 0x230)
            && Clear(LoaderWrites(k), 0x236, 0x238)
  {
    hide Le, CmdlineAddr, RealAddr, SetHighBit, Protocol;
  }

  /** The protocol version and the initrd ceiling, read from the half-patched image. */
  method ReadCeiling(kd: array<Byte>, ghost kernel: ByteString) returns (protocol: nat, ceiling: Word32)
    requires |kernel| >= 0x1000 && kd.Length == |kernel|
    requires kd[..] == Apply(kernel, LoaderWrites(kernel))
    ensures protocol == Protocol(kernel) && ceiling == Ceiling(kernel)
  {
    LoaderClear(kernel);
    ghost var ws := LoaderWrites(kernel);
    Untouched(kernel, ws, 0x206, 0x208);
    Untouched(kernel, ws, 0x22c, 0x230);
    Untouched(kernel, ws, 0x236, 0x238);
    hide FromLe, Apply, LoaderWrites, Clear;
    assert kd[0x206..0x208] == kd[..][0x206..0x208];
    assert kd[0x22c..0x230] == kd[..][0x22c..0x230];
    assert kd[0x236..0x238] == kd[..][0x236..0x238];
    protocol := FromLe(kd[0x206..0x208]);
    ceiling := 0x37FF_FFFF;
    if protocol >= 0x20c {
      if FromLe(kd[0x236..0x238]) / 2 % 2 == 1 {
        ceiling := 0xFFFF_FFFF;
      }
    } else if protocol >= 0x203 {
      FromLeBound(kd[0x22c..0x230]);
      WordSizes();
      if FromLe(kd[0x22c..0x230]) != 0 {
        ceiling := FromLe(kd[0x22c..0x230]);
      }
    }
  }

  method PatchInitrdFields(
    kd: array<Byte>, ghost kernel: ByteString, initrdSize: Word32, memorySize: Word64, acpiSize: Word32)
    returns (r: Result<ByteString>)
    requires initrdSize > 0 && |kernel| >= 0x1000 && kd.Length == |kernel|
    requires kd[..] == Apply(kernel, LoaderWrites(kernel))
    modifies kd
    ensures r == Patch(kernel, initrdSize, memorySize, acpiSize)
  {
    hide Le, Apply, LoaderWrites, Ceiling, Protocol;
    var protocol, initrdMax := ReadCeiling(kd, kernel);
    if protocol < 0x200 {
      return Err;
    }
    var lowmem := if memorySize < HIGH_MEMORY_MIN then HIGH_MEMORY_MIN else 0x8000_0000;
    var below4g := if memorySize >= lowmem then lowmem else memorySize;
    if below4g < acpiSize {
      return Err;
    }
    var available := below4g - acpiSize;
    if initrdMax >= available {
      initrdMax := if available == 0 then 0 else available - 1;
    }
    assert InitrdLimit(kernel, memorySize, acpiSize) == Ok(initrdMax);
    hide InitrdLimit;
    if initrdSize >= initrdMax {
      return Err;
    }
    var initrdAddr := PageFloor(initrdMax - initrdSize);
    hide PageFloor;
    ghost var ws, a, b := LoaderWrites(kernel), Write(0x218, Le(initrdAddr, 4)), Write(0x21c, Le(initrdSize, 4));
    Put(kd, kernel, ws, 0x218, Le(initrdAddr, 4));
    Put(kd, kernel, ws + [a], 0x21c, Le(initrdSize, 4));
    assert ws + [a] + [b] == ws + [a, b];
    return Ok(kd[..]);
  }

  // ----- what a patched header says -----

  /** The boot protocol version of an image, and whether it is loaded high and takes high addresses. */
  function Version(k: ByteString): nat
    requires |k| >= 0x1000
  {
    k[0x206] as int + 256 * k[0x207] as int
  }

  lemma VersionIs(k: ByteString)
    requires |k| >= 0x1000
    ensures Version(k) == Protocol(k)
  {
    var b := k[0x206..0x208];
    assert b[1..] == [k[0x207]] && b[1..][1..] == [];
    assert FromLe(b[1..]) == k[0x207] as int;
  }

  /** Where QEMU puts the real-mode code and the command line. */
  predicate High(k: ByteString)
    requires |k| >= 0x1000
  {
    Version(k) >= 0x200 && k[0x211] % 2 == 1
  }

  lemma LoaderDisjoint(k: ByteString)
    requires |k| >= 0x238
    ensures PairwiseDisjoint(LoaderWrites(k)) && Clear(LoaderWrites(k), 0x218, 0x220)
  {
    hide Le, Protocol, CmdlineAddr, RealAddr, SetHighBit;
    var p := Protocol(k);
    if p >= 0x202 {
    } else if p >= 0x201 {
    } else if p >= 0x200 {
    }
  }

  lemma PatchDisjoint(k: ByteString, initrdSize: Word32, mem: nat, acpiSize: Word32)
    requires |k| >= 0x238 && PatchWrites(k, initrdSize, mem, acpiSize).Ok?
    ensures PairwiseDisjoint(PatchWrites(k, initrdSize, mem, acpiSize).value)
  {
    hide Le, Protocol, InitrdLimit, PageFloor, LoaderWrites;
    LoaderDisjoint(k);
    var b := InitrdWrites(k, initrdSize, mem, acpiSize).value;
    assert PairwiseDisjoint(b) && forall w :: w in b ==> 0x218 <= w.at && w.at + |w.bytes| <= 0x220;
    hide InitrdWrites, PairwiseDisjoint;
    DisjointAppend(LoaderWrites(k), b);
  }

  /** A loader field is in the patched image, */
  lemma LoaderFieldStands(k: ByteString, initrdSize: Word32, mem: nat, acpiSize: Word32, p: ByteString, w: Write)
    requires Patch(k, initrdSize, mem, acpiSize) == Ok(p) && |k| >= 0x1000 && w in LoaderWrites(k)
    ensures |p| == |k| && w.at + |w.bytes| <= 0x238 && p[w.at..w.at + |w.bytes|] == w.bytes
  {
    hide LoaderWrites, InitrdWrites, Apply, PairwiseDisjoint;
    PatchDisjoint(k, initrdSize, mem, acpiSize);
    var ws := PatchWrites(k, initrdSize, mem, acpiSize).value;
    assert w in ws;
    FieldStands(k, ws, w);
  }

  /** and reads back as the number written there. */
  lemma LoaderFieldReads(
    k: ByteString, initrdSize: Word32, mem: nat, acpiSize: Word32, p: ByteString, at: nat, v: nat, n: nat)
    requires Patch(k, initrdSize, mem, acpiSize) == Ok(p) && |k| >= 0x1000
    requires Write(at, Le(v, n)) in LoaderWrites(k) && v < Pow256(n)
    ensures |p| == |k| && at + n <= |p| && FromLe(p[at..at + n]) == v
  {
    hide LoaderWrites, Patch, Le, FromLe;
    LoaderFieldStands(k, initrdSize, mem, acpiSize, p, Write(at, Le(v, n)));
    LeRoundTrip(v, n);
  }

  lemma TypeWrite(k: ByteString)
    requires |k| >= 0x238 && Protocol(k) >= 0x200
    ensures Write(0x210, [0xb0]) in LoaderWrites(k)
  {
    hide Le, Protocol, CmdlineAddr, RealAddr, SetHighBit;
    assert LoaderWrites(k)[0] == Write(0x210, [0xb0]);
  }

  lemma HeapWrites(k: ByteString)
    requires |k| >= 0x238 && Protocol(k) >= 0x201
    ensures Write(0x211, [SetHighBit(k[0x211])]) in LoaderWrites(k)
    ensures CmdlineAddr(k) - RealAddr(k) >= 0x200
    ensures Write(0x224, Le(CmdlineAddr(k) - RealAddr(k) - 0x200, 4)) in LoaderWrites(k)
  {
    hide Le, Protocol, SetHighBit;
    var ws := LoaderWrites(k);
    assert ws[1] == Write(0x211, [SetHighBit(k[0x211])]);
    assert ws[2] == Write(0x224, Le(CmdlineAddr(k) - RealAddr(k) - 0x200, 4));
  }

  lemma CmdlineWrite(k: ByteString)
    requires |k| >= 0x238 && Protocol(k) >= 0x202
    ensures Write(0x228, Le(CmdlineAddr(k), 4)) in LoaderWrites(k)
  {
    hide Le, Protocol, SetHighBit, CmdlineAddr, RealAddr;
    assert LoaderWrites(k)[3] == Write(0x228, Le(CmdlineAddr(k), 4));
  }

  lemma OldCmdlineWrites(k: ByteString)
    requires |k| >= 0x238 && Protocol(k) < 0x202
    ensures Write(0x20, Le(0xa33f, 2)) in LoaderWrites(k)
    ensures Write(0x22, Le((CmdlineAddr(k) - RealAddr(k)) % U16, 2)) in LoaderWrites(k)
  {
    hide Le, Protocol, SetHighBit, CmdlineAddr, RealAddr;
    var ws := LoaderWrites(k);
    assert ws[|ws| - 2] == Write(0x20, Le(0xa33f, 2));
    assert ws[|ws| - 1] == Write(0x22, Le((CmdlineAddr(k) - RealAddr(k)) % U16, 2));
  }

  lemma Addresses(k: ByteString)
    requires |k| >= 0x1000
    ensures CmdlineAddr(k) == (if High(k) then 0x2_0000 else 0x9_a000)
    ensures RealAddr(k) == (if High(k) then 0x1_0000 else 0x9_0000)
  {
    VersionIs(k);
    hide FromLe;
  }

  /** The loader fields of a patched kernel, by boot protocol version: loader type 0xb0 from 2.00 on; */
  lemma LoaderTypeIs(k: ByteString, initrdSize: Word32, mem: nat, acpiSize: Word32, p: ByteString)
    requires Patch(k, initrdSize, mem, acpiSize) == Ok(p) && |k| >= 0x1000 && Version(k) >= 0x200
    ensures |p| == |k| && p[0x210] == 0xb0
  {
    hide Patch, LoaderWrites, Protocol, Version;
    VersionIs(k);
    TypeWrite(k);
    LoaderFieldStands(k, initrdSize, mem, acpiSize, p, Write(0x210, [0xb0]));
    assert p[0x210] == p[0x210..0x211][0];
  }

  /** from 2.01 on the can-use-heap flag, bit 7, and the heap end, 0x200 below the command line; */
  lemma HeapFieldsAre(k: ByteString, initrdSize: Word32, mem: nat, acpiSize: Word32, p: ByteString)
    requires Patch(k, initrdSize, mem, acpiSize) == Ok(p) && |k| >= 0x1000 && Version(k) >= 0x201
    ensures |p| == |k| && p[0x211] == if k[0x211] < 0x80 then k[0x211] + 0x80 else k[0x211]
    ensures FromLe(p[0x224..0x228]) == if High(k) then 0xfe00 else 0x9e00
  {
    hide Patch, Le, FromLe, CmdlineAddr, RealAddr, Protocol, High, Version, Pow256;
    VersionIs(k);
    Addresses(k);
    WordSizes();
    var gap := CmdlineAddr(k) - RealAddr(k);
    hide LoaderWrites;
    HeapWrites(k);
    LoaderFieldStands(k, initrdSize, mem, acpiSize, p, Write(0x211, [SetHighBit(k[0x211])]));
    assert p[0x211] == p[0x211..0x212][0];
    LoaderFieldReads(k, initrdSize, mem, acpiSize, p, 0x224, gap - 0x200, 4);
  }

  /** the command line's address from 2.02 on, */
  lemma CmdlineFieldIs(k: ByteString, initrdSize: Word32, mem: nat, acpiSize: Word32, p: ByteString)
    requires Patch(k, initrdSize, mem, acpiSize) == Ok(p) && |k| >= 0x1000 && Version(k) >= 0x202
    ensures |p| == |k| && FromLe(p[0x228..0x22c]) == if High(k) then 0x2_0000 else 0x9_a000
  {
    hide Patch, Le, FromLe, CmdlineAddr, RealAddr, Protocol, High, Version, Pow256, SetHighBit;
    VersionIs(k);
    Addresses(k);
    WordSizes();
    hide LoaderWrites;
    CmdlineWrite(k);
    LoaderFieldReads(k, initrdSize, mem, acpiSize, p, 0x228, CmdlineAddr(k), 4);
  }

  /** and before that its magic and offset. */
  lemma OldCmdlineFieldsAre(k: ByteString, initrdSize: Word32, mem: nat, acpiSize: Word32, p: ByteString)
    requires Patch(k, initrdSize, mem, acpiSize) == Ok(p) && |k| >= 0x1000 && Version(k) < 0x202
    ensures |p| == |k| && FromLe(p[0x20..0x22]) == 0xa33f
    ensures FromLe(p[0x22..0x24]) == if High(k) then 0 else 0xa000
  {
    hide Patch, Le, FromLe, CmdlineAddr, RealAddr, Protocol, High, Version, Pow256, SetHighBit;
    VersionIs(k);
    Addresses(k);
    WordSizes();
    var gap := CmdlineAddr(k) - RealAddr(k);
    hide LoaderWrites;
    OldCmdlineWrites(k);
    LoaderFieldReads(k, initrdSize, mem, acpiSize, p, 0x20, 0xa33f, 2);
    LoaderFieldReads(k, initrdSize, mem, acpiSize, p, 0x22, gap % U16, 2);
  }

  /** The kernel's ceiling by boot protocol version: the field at 0x22c from 2.03 on; from 2.12 on 4 GiB
      for kernels that load above it, by bit 1 of the field at 0x236; 0x37ffffff otherwise. */
  lemma CeilingIs(k: ByteString)
    requires |k| >= 0x1000
    ensures Version(k) < 0x203 ==> Ceiling(k) == 0x37ff_ffff
    ensures 0x203 <= Version(k) < 0x20c ==>
              Ceiling(k) == if FromLe(k[0x22c..0x230]) == 0 then 0x37ff_ffff else FromLe(k[0x22c..0x230])
    ensures Version(k) >= 0x20c ==> Ceiling(k) == if k[0x236] / 2 % 2 == 1 then 0xffff_ffff else 0x37ff_ffff
  {
    hide Version, FromLe;
    VersionIs(k);
    BitOne(k[0x236..0x238]);
  }

  lemma BitOne(b: ByteString)
    requires |b| == 2
    ensures FromLe(b) / 2 % 2 == b[0] / 2 % 2
  {
    assert FromLe(b) == b[0] as int + 256 * FromLe(b[1..]);
    Halve(b[0], FromLe(b[1..]));
  }

  lemma Halve(x: nat, y: nat)
    ensures (x + 256 * y) / 2 % 2 == x / 2 % 2
  {
    assert (x + 256 * y) / 2 == x / 2 + 128 * y;
  }

  /** Guest memory below 4 GiB: all of it up to 2.75 GiB, and 2 GiB from there on. */
  lemma Below4gIs(memorySize: nat)
    ensures Below4g(memorySize) == if memorySize < 0xB000_0000 then memorySize else 0x8000_0000
  {
  }

  /** An initrd is refused exactly for a protocol before 2.00, for memory that does not hold the ACPI
      area, and when it does not end below the ceiling and the ACPI area. */
  lemma RefusedExactly(k: ByteString, initrdSize: Word32, mem: nat, acpiSize: Word32)
    ensures Patch(k, initrdSize, mem, acpiSize).Err? <==>
            || |k| < 0x1000
            || (initrdSize > 0 && (|| Version(k) < 0x200 || Below4g(mem) < acpiSize
                                   || !Placed(k, mem, acpiSize, initrdSize + 1)))
  {
    hide LoaderWrites, Apply, Ceiling, Below4g, FromLe;
    if |k| >= 0x1000 {
      VersionIs(k);
    }
  }

  // ----- memory independence -----

  /** The precomputed digest is used exactly when 2 GiB of memory sit below 4 GiB. */
  lemma HighMemoryIsTwoGiBLow(memorySize: nat)
    ensures Below4g(memorySize) == COMPAT_2G <==> UsesHighMemoryDigest(memorySize)
  {
  }

  /** One digest serves every memory size the predicate accepts. */
  lemma MemoryIndependence(k: ByteString, initrdSize: Word32, mem: nat, mem': nat, acpiSize: Word32)
    requires UsesHighMemoryDigest(mem) && UsesHighMemoryDigest(mem')
    ensures Patch(k, initrdSize, mem, acpiSize) == Patch(k, initrdSize, mem', acpiSize)
  {
    hide LoaderWrites, Apply, Ceiling;
    HighMemoryIsTwoGiBLow(mem);
    HighMemoryIsTwoGiBLow(mem');
  }

  /** A kernel that takes its initrd ceiling from the memory below 4 GiB. */
  predicate FollowsMemory(k: ByteString) {
    |k| >= 0x1000 && Protocol(k) >= 0x20c && FromLe(k[0x236..0x238]) / 2 % 2 == 1
  }

  lemma InitrdAddrField(k: ByteString, initrdSize: Word32, mem: nat, acpiSize: Word32)
    requires initrdSize > 0 && Patch(k, initrdSize, mem, acpiSize).Ok?
    ensures var p := Patch(k, initrdSize, mem, acpiSize).value;
            |p| == |k| && InitrdLimit(k, mem, acpiSize).Ok?
            && initrdSize < InitrdLimit(k, mem, acpiSize).value
            && FromLe(p[0x218..0x21c]) == PageFloor(InitrdLimit(k, mem, acpiSize).value - initrdSize)
            && FromLe(p[0x21c..0x220]) == initrdSize
  {
    hide LoaderWrites, Apply, Ceiling, Le, FromLe, Pow256, Splice, Protocol;
    var ws := LoaderWrites(k);
    var addr := PageFloor(InitrdLimit(k, mem, acpiSize).value - initrdSize);
    var a, b := Write(0x218, Le(addr, 4)), Write(0x21c, Le(initrdSize, 4));
    assert ws + [a, b] == ws + [a] + [b];
    ApplyAppend(k, ws + [a], b);
    ApplyAppend(k, ws, a);
    WordSizes();
    LeRoundTrip(addr, 4);
    LeRoundTrip(initrdSize, 4);
    var q := Apply(k, ws + [a]);
    var p := Splice(q, 0x21c, b.bytes);
    assert p[0x218..0x21c] == q[0x218..0x21c];
  }

  /** The size that puts the end of the larger gap on a page boundary. */
  function TellingSize(mem: nat): (size: Word32)
    ensures size > 0
  {
    var available := if mem < COMPAT_2G then COMPAT_2G - ACPI_DATA_SIZE else Below4g(mem) - ACPI_DATA_SIZE;
    (available - 1) % 0x1000 + 0x1000
  }

  /** The predicate is as wide as it can be: at every other memory size some initrd makes the
      patched kernel differ from the precomputed one. */
  lemma PredicateIsTight(k: ByteString, mem: nat)
    requires FollowsMemory(k) && !UsesHighMemoryDigest(mem)
    ensures Patch(k, TellingSize(mem), mem, ACPI_DATA_SIZE) != Patch(k, TellingSize(mem), COMPAT_2G, ACPI_DATA_SIZE)
  {
    hide Patch, InitrdLimit, TellingSize, PageFloor, FromLe, FollowsMemory, UsesHighMemoryDigest;
    var size := TellingSize(mem);
    TwoGiBFits(k, mem);
    if Patch(k, size, mem, ACPI_DATA_SIZE).Ok? {
      InitrdAddrField(k, size, mem, ACPI_DATA_SIZE);
      InitrdAddrField(k, size, COMPAT_2G, ACPI_DATA_SIZE);
      LimitsDiffer(k, mem);
    }
  }

  lemma TwoGiBFits(k: ByteString, mem: nat)
    requires FollowsMemory(k) && !UsesHighMemoryDigest(mem)
    ensures Patch(k, TellingSize(mem), COMPAT_2G, ACPI_DATA_SIZE).Ok?
  {
    hide LoaderWrites, Apply, FromLe;
  }

  lemma LimitsDiffer(k: ByteString, mem: nat)
    requires FollowsMemory(k) && !UsesHighMemoryDigest(mem)
    requires InitrdLimit(k, mem, ACPI_DATA_SIZE).Ok? && TellingSize(mem) < InitrdLimit(k, mem, ACPI_DATA_SIZE).value
    ensures InitrdLimit(k, COMPAT_2G, ACPI_DATA_SIZE).Ok?
    ensures TellingSize(mem) < InitrdLimit(k, COMPAT_2G, ACPI_DATA_SIZE).value
    ensures PageFloor(InitrdLimit(k, mem, ACPI_DATA_SIZE).value - TellingSize(mem))
            != PageFloor(InitrdLimit(k, COMPAT_2G, ACPI_DATA_SIZE).value - TellingSize(mem))
  {
    hide FromLe;
    assert Ceiling(k) == 0xFFFF_FFFF;
    hide Ceiling;
    FloorsDiffer(mem);
  }

  lemma FloorsDiffer(mem: nat)
    requires mem < HIGH_MEMORY_MIN && mem != COMPAT_2G
    requires mem > ACPI_DATA_SIZE && TellingSize(mem) < mem - ACPI_DATA_SIZE - 1
    ensures PageFloor(mem - ACPI_DATA_SIZE - 1 - TellingSize(mem))
            != PageFloor(COMPAT_2G - ACPI_DATA_SIZE - 1 - TellingSize(mem))
  {
    var size := TellingSize(mem);
    if mem < COMPAT_2G {
      assert (COMPAT_2G - ACPI_DATA_SIZE - 1 - size) % 0x1000 == 0;
    } else {
      assert (mem - ACPI_DATA_SIZE - 1 - size) % 0x1000 == 0;
    }
  }

  // ----- placement -----

  /** A non-empty initrd is placed on the highest page that keeps it at or below the kernel's
      ceiling and wholly below the ACPI area; the size field holds its size. */
  lemma InitrdPlacement(k: ByteString, initrdSize: Word32, mem: nat, acpiSize: Word32, p: ByteString)
    requires initrdSize > 0 && Patch(k, initrdSize, mem, acpiSize) == Ok(p)
    ensures |p| == |k| >= 0x1000 && FromLe(p[0x21c..0x220]) == initrdSize && FromLe(p[0x218..0x21c]) % 0x1000 == 0
    ensures Placed(k, mem, acpiSize, FromLe(p[0x218..0x21c]) + initrdSize)
    ensures !Placed(k, mem, acpiSize, FromLe(p[0x218..0x21c]) + 0x1000 + initrdSize)
  {
    hide FromLe, Placed, InitrdLimit, PageFloor, PatchWrites;
    assert |k| >= 0x1000;
    hide Patch;
    InitrdAddrField(k, initrdSize, mem, acpiSize);
    var limit, addr := InitrdLimit(k, mem, acpiSize).value, FromLe(p[0x218..0x21c]);
    PageFloorFacts(limit - initrdSize);
    LimitMeaning(k, mem, acpiSize, limit, addr + initrdSize);
    LimitMeaning(k, mem, acpiSize, limit, addr + 0x1000 + initrdSize);
  }

  /** An initrd ending at `end` respects the kernel's ceiling and the ACPI area. */
  predicate Placed(k: ByteString, mem: nat, acpiSize: Word32, end: nat)
    requires |k| >= 0x238
  {
    end <= Ceiling(k) && end < Below4g(mem) - acpiSize
  }

  lemma PageFloorFacts(x: nat)
    ensures PageFloor(x) % 0x1000 == 0 && PageFloor(x) <= x < PageFloor(x) + 0x1000
  {
  }

  lemma LimitMeaning(k: ByteString, mem: nat, acpiSize: Word32, limit: nat, end: nat)
    requires |k| >= 0x238 && InitrdLimit(k, mem, acpiSize) == Ok(limit) && limit > 0
    ensures end <= limit <==> Placed(k, mem, acpiSize, end)
  {
    hide Ceiling, Below4g;
  }

  /** A byte range that meets none of the header fields QEMU owns. */
  predicate OutsideFields(from: nat, to: nat) {
    to <= 0x20 || (0x24 <= from && to <= 0x210) || (0x212 <= from && to <= 0x218)
    || (0x220 <= from && to <= 0x224) || 0x22c <= from
  }

  predicate InFields(w: Write) {
    (0x20 <= w.at && w.at + |w.bytes| <= 0x24) || (0x210 <= w.at && w.at + |w.bytes| <= 0x212)
    || (0x218 <= w.at && w.at + |w.bytes| <= 0x220) || (0x224 <= w.at && w.at + |w.bytes| <= 0x22c)
  }

  lemma LoaderInFields(k: ByteString)
    requires |k| >= 0x238
    ensures forall w :: w in LoaderWrites(k) ==>
              InFields(w) && (Covers(w, 0x211) ==> w.bytes[0x211 - w.at] == SetHighBit(k[0x211]))
  {
    hide Protocol, CmdlineAddr, RealAddr, Le, SetHighBit;
  }

  lemma PatchInFields(k: ByteString, initrdSize: Word32, mem: nat, acpiSize: Word32, ws: seq<Write>)
    requires |k| >= 0x238 && PatchWrites(k, initrdSize, mem, acpiSize) == Ok(ws)
    ensures forall w :: w in ws ==>
              InFields(w) && (Covers(w, 0x211) ==> w.bytes[0x211 - w.at] == SetHighBit(k[0x211]))
  {
    LoaderInFields(k);
    hide LoaderWrites, Protocol, InitrdLimit, Le, PageFloor, SetHighBit;
    var iw := InitrdWrites(k, initrdSize, mem, acpiSize).value;
    assert forall w :: w in iw ==> InFields(w) && !Covers(w, 0x211);
  }

  lemma FieldsClear(ws: seq<Write>, from: nat, to: nat)
    requires (forall w :: w in ws ==> InFields(w)) && OutsideFields(from, to)
    ensures Clear(ws, from, to)
  {
  }

  /** Nothing outside the header fields QEMU owns is changed. */
  lemma RestUnchanged(k: ByteString, initrdSize: Word32, mem: nat, acpiSize: Word32, i: nat)
    requires Patch(k, initrdSize, mem, acpiSize).Ok? && i < |k|
    requires OutsideFields(i, i + 1)
    ensures Patch(k, initrdSize, mem, acpiSize).value[i] == k[i]
  {
    var ws := PatchWrites(k, initrdSize, mem, acpiSize).value;
    PatchInFields(k, initrdSize, mem, acpiSize, ws);
    hide PatchWrites, Apply;
    FieldsClear(ws, i, i + 1);
    Untouched(k, ws, i, i + 1);
    assert Apply(k, ws)[i] == Apply(k, ws)[i..i + 1][0];
  }

  // ----- idempotence -----

  /** What the patch reads from an image. */
  predicate SameInputs(k: ByteString, p: ByteString) {
    |p| == |k| >= 0x1000 && p[0x206..0x208] == k[0x206..0x208] && p[0x22c..0x230] == k[0x22c..0x230]
    && p[0x236..0x238] == k[0x236..0x238] && (p[0x211] == k[0x211] || p[0x211] == SetHighBit(k[0x211]))
  }

  lemma SameInputsSameWrites(k: ByteString, p: ByteString, initrdSize: Word32, mem: nat, acpiSize: Word32)
    requires SameInputs(k, p)
    ensures PatchWrites(p, initrdSize, mem, acpiSize) == PatchWrites(k, initrdSize, mem, acpiSize)
  {
    SameInputsSameLoader(k, p);
    SameInputsSameInitrd(k, p, initrdSize, mem, acpiSize);
    hide LoaderWrites, InitrdWrites, SameInputs;
  }

  lemma SameInputsSameInitrd(k: ByteString, p: ByteString, initrdSize: Word32, mem: nat, acpiSize: Word32)
    requires SameInputs(k, p)
    ensures InitrdWrites(p, initrdSize, mem, acpiSize) == InitrdWrites(k, initrdSize, mem, acpiSize)
  {
    SameInputsSameReads(k, p);
    hide SameInputs, Ceiling, Protocol, InitrdLimit, PlaceInitrd;
    SameCeilingSameLimit(k, p, mem, acpiSize);
  }

  lemma SameCeilingSameLimit(k: ByteString, p: ByteString, mem: nat, acpiSize: Word32)
    requires |k| >= 0x238 && |p| >= 0x238 && Ceiling(p) == Ceiling(k)
    ensures InitrdLimit(p, mem, acpiSize) == InitrdLimit(k, mem, acpiSize)
  {
    hide Ceiling, Below4g;
  }

  lemma SameInputsSameLoader(k: ByteString, p: ByteString)
    requires SameInputs(k, p)
    ensures LoaderWrites(p) == LoaderWrites(k)
  {
    SameInputsSameReads(k, p);
    hide CmdlineAddr, RealAddr, Protocol, SetHighBit, Le, SameInputs;
  }

  lemma SameInputsSameReads(k: ByteString, p: ByteString)
    requires SameInputs(k, p)
    ensures Ceiling(p) == Ceiling(k) && CmdlineAddr(p) == CmdlineAddr(k) && RealAddr(p) == RealAddr(k)
    ensures Protocol(p) == Protocol(k) && SetHighBit(p[0x211]) == SetHighBit(k[0x211])
  {
    hide FromLe;
  }

  lemma PatchedInputs(k: ByteString, initrdSize: Word32, mem: nat, acpiSize: Word32)
    requires Patch(k, initrdSize, mem, acpiSize).Ok?
    ensures SameInputs(k, Patch(k, initrdSize, mem, acpiSize).value)
  {
    var ws := PatchWrites(k, initrdSize, mem, acpiSize).value;
    PatchInFields(k, initrdSize, mem, acpiSize, ws);
    FieldsClear(ws, 0x206, 0x208);
    FieldsClear(ws, 0x22c, 0x230);
    FieldsClear(ws, 0x236, 0x238);
    hide PatchWrites, Apply, Clear, Covers, InFields;
    Untouched(k, ws, 0x206, 0x208);
    Untouched(k, ws, 0x22c, 0x230);
    Untouched(k, ws, 0x236, 0x238);
    WrittenOnly(ws, 0x211, SetHighBit(k[0x211]));
    ApplyAt(k, ws, 0x211);
  }

  /** Patching a patched kernel changes nothing. */
  lemma PatchIsIdempotent(k: ByteString, initrdSize: Word32, mem: nat, acpiSize: Word32)
    requires Patch(k, initrdSize, mem, acpiSize).Ok?
    ensures var p := Patch(k, initrdSize, mem, acpiSize); Patch(p.value, initrdSize, mem, acpiSize) == p
  {
    PatchedInputs(k, initrdSize, mem, acpiSize);
    var p := Patch(k, initrdSize, mem, acpiSize).value;
    hide Apply, PatchWrites, SameInputs;
    SameInputsSameWrites(k, p, initrdSize, mem, acpiSize);
    ApplyTwice(k, PatchWrites(k, initrdSize, mem, acpiSize).value);
  }
}
