/** The image build's setup-header normalizer (a Python script), and its agreement with
    the verifier's kernel patch. */
module SetupHeader {
  import opened Common
  import opened Patching
  import opened Kernel

  /** "HdrS" */
  const HEADER_MAGIC: ByteString := [0x48, 0x64, 0x72, 0x53]
  const HEADER_END := 0x258
  const LOW_MEMORY_SPLIT := 0x8000_0000

  /** The kernels the script handles: a bzImage, boot protocol 2.02 or later, loaded high. */
  predicate Supported(image: ByteString) {
    |image| >= HEADER_END && image[0x202..0x206] == HEADER_MAGIC && Protocol(image) >= 0x202 && LoadedHigh(image)
  }

  function LoaderFields(image: ByteString): (ws: seq<Write>)
    requires |image| >= HEADER_END
    ensures Fits(ws, 0x238)
  {
    hide Le;
    [ Write(0x210, [0xb0]),
      Write(0x211, [SetHighBit(image[0x211])]),
      Write(0x224, Le(0x2_0000 - 0x1_0000 - 0x200, 4)),
      Write(0x228, Le(0x2_0000, 4)) ]
  }

  function InitrdMax(image: ByteString): nat
    requires |image| >= HEADER_END
  {
    var ceiling :=
      if Protocol(image) >= 0x20c then
        (if FromLe(image[0x236..0x238]) / 2 % 2 == 1 then 0xFFFF_FFFF else 0x37FF_FFFF)
      else if Protocol(image) >= 0x203 then
        (if FromLe(image[0x22c..0x230]) == 0 then 0x37FF_FFFF else FromLe(image[0x22c..0x230]))
      else 0x37FF_FFFF;
    var available := LOW_MEMORY_SPLIT - ACPI_DATA_SIZE;
    if ceiling >= available then available - 1 else ceiling
  }

  function InitrdFields(max: nat, initrdSize: nat): (ws: seq<Write>)
    requires initrdSize < max
    ensures Fits(ws, 0x238)
  {
    hide Le, PageFloor;
    [ Write(0x218, Le(PageFloor(max - initrdSize), 4)), Write(0x21c, Le(initrdSize, 4)) ]
  }

  /** `target_fields`. */
  function TargetFields(image: ByteString, initrdSize: nat): (r: Result<seq<Write>>)
    ensures r.Ok? ==> |image| >= HEADER_END && Fits(r.value, 0x238) && Fits(r.value, |image|)
  {
    hide LoaderFields, InitrdFields, InitrdMax, Protocol, LoadedHigh;
    if !Supported(image) then Err
    else if initrdSize == 0 then Ok(LoaderFields(image))
    else if initrdSize >= InitrdMax(image) then Err
    else Ok(LoaderFields(image) + InitrdFields(InitrdMax(image), initrdSize))
  }

  function Normalized(image: ByteString, initrdSize: nat): Result<ByteString> {
    var fields :- TargetFields(image, initrdSize);
    Ok(Apply(image, fields))
  }

  /** The fields whose bytes differ when they are reached, after the writes before them. */
  function Changed(image: ByteString, fields: seq<Write>): seq<Write>
    requires Fits(fields, |image|)
  {
    if fields == [] then []
    else
      var init, w := fields[..|fields| - 1], fields[|fields| - 1];
      Changed(image, init) + (if Apply(image, init)[w.at..w.at + |w.bytes|] != w.bytes then [w] else [])
  }

  /** `normalize`: refuses before writing anything, or writes every field that differs. */
  method Normalize(image: array<Byte>, initrdSize: nat) returns (r: Result<seq<Write>>)
    modifies image
    ensures r.Err? <==> TargetFields(old(image[..]), initrdSize).Err?
    ensures r.Err? ==> image[..] == old(image[..])
    ensures r.Ok? ==> Ok(image[..]) == Normalized(old(image[..]), initrdSize)
                      && r.value == Changed(old(image[..]), TargetFields(old(image[..]), initrdSize).value)
  {
    hide Apply, TargetFields, Changed, Fits;
    var fields :- TargetFields(image[..], initrdSize);
    var changed: seq<Write> := [];
    ghost var before := image[..];
    NothingYet(before, fields);
    for i := 0 to |fields|
      invariant Fits(fields[..i], |before|)
      invariant image[..] == Apply(before, fields[..i])
      invariant changed == Changed(before, fields[..i])
    {
      assert fields[..i + 1] == fields[..i] + [fields[i]];
      FitsFront(fields, |before|, i + 1);
      FieldNext(before, fields[..i], fields[i]);
      changed := WriteField(image, before, fields[..i], fields[i], changed);
    }
    assert fields[..|fields|] == fields;
    return Ok(changed);
  }

  /** One field: written, and reported, if its bytes differ. */
  method WriteField(image: array<Byte>, ghost before: ByteString, ghost done: seq<Write>, w: Write, changed: seq<Write>)
    returns (changed': seq<Write>)
    requires Fits(done, |before|) && image[..] == Apply(before, done) && w.at + |w.bytes| <= |before|
    modifies image
    ensures image[..] == Splice(Apply(before, done), w.at, w.bytes)
    ensures changed' == changed + if Apply(before, done)[w.at..w.at + |w.bytes|] != w.bytes then [w] else []
  {
    hide Apply;
    ghost var bytes := image[..];
    assert image[w.at..w.at + |w.bytes|] == bytes[w.at..w.at + |w.bytes|];
    changed' := changed;
    if image[w.at..w.at + |w.bytes|] != w.bytes {
      changed' := changed + [w];
      WriteBytes(image, w.at, w.bytes);
    } else {
      SpliceSame(bytes, w.at, w.bytes);
    }
  }

  lemma NothingYet(before: ByteString, fields: seq<Write>)
    ensures Fits(fields[..0], |before|) && Apply(before, fields[..0]) == before && Changed(before, fields[..0]) == []
  {
  }

  lemma FieldNext(before: ByteString, done: seq<Write>, w: Write)
    requires Fits(done + [w], |before|)
    ensures Fits(done, |before|) && w.at + |w.bytes| <= |before|
    ensures Apply(before, done + [w]) == Splice(Apply(before, done), w.at, w.bytes)
    ensures Changed(before, done + [w])
            == Changed(before, done) + if Apply(before, done)[w.at..w.at + |w.bytes|] != w.bytes then [w] else []
  {
    hide Apply, Splice, Changed;
    FitsAt(done + [w], |before|, |done|);
    ApplyAppend(before, done, w);
    ChangedAppend(before, done, w);
  }

  lemma FitsAt(fields: seq<Write>, n: nat, i: nat)
    requires i < |fields| && Fits(fields, n)
    ensures fields[i].at + |fields[i].bytes| <= n
  {
  }

  lemma FitsFront(fields: seq<Write>, n: nat, i: nat)
    requires i <= |fields| && Fits(fields, n)
    ensures Fits(fields[..i], n)
  {
  }

  lemma ChangedAppend(before: ByteString, done: seq<Write>, w: Write)
    requires Fits(done, |before|) && Fits(done + [w], |before|) && w.at + |w.bytes| <= |before|
    ensures Changed(before, done + [w])
            == Changed(before, done) + if Apply(before, done)[w.at..w.at + |w.bytes|] != w.bytes then [w] else []
  {
    hide Apply;
    assert (done + [w])[..|done|] == done;
  }

  // ----- agreement with the verifier -----

  lemma SameLimit(image: ByteString, mem: nat)
    requires |image| >= HEADER_END && UsesHighMemoryDigest(mem)
    ensures InitrdLimit(image, mem, ACPI_DATA_SIZE) == Ok(InitrdMax(image))
  {
    hide FromLe;
    HighMemoryIsTwoGiBLow(mem);
  }

  /** For a supported kernel, both implementations write the same fields or both refuse. */
  lemma SameWrites(image: ByteString, initrdSize: Word32, mem: nat)
    requires Supported(image) && UsesHighMemoryDigest(mem)
    ensures TargetFields(image, initrdSize) == PatchWrites(image, initrdSize, mem, ACPI_DATA_SIZE)
  {
    SameLoader(image);
    SameInitrd(image, initrdSize, mem);
    hide InitrdMax, InitrdWrites, LoaderFields, LoaderWrites, Le, PageFloor, Supported;
    assert LoaderFields(image) + [] == LoaderFields(image);
  }

  lemma SameLoader(image: ByteString)
    requires Supported(image)
    ensures LoaderFields(image) == LoaderWrites(image)
  {
    assert CmdlineAddr(image) == 0x2_0000 && RealAddr(image) == 0x1_0000;
    hide Le, SetHighBit, CmdlineAddr, RealAddr;
  }

  lemma SameInitrd(image: ByteString, initrdSize: Word32, mem: nat)
    requires Supported(image) && UsesHighMemoryDigest(mem)
    ensures var limit := InitrdMax(image);
            InitrdWrites(image, initrdSize, mem, ACPI_DATA_SIZE)
            == if initrdSize == 0 then Ok([])
               else if initrdSize >= limit then Err
               else Ok([Write(0x218, Le(PageFloor(limit - initrdSize), 4)), Write(0x21c, Le(initrdSize, 4))])
  {
    SameLimit(image, mem);
    hide InitrdLimit, InitrdMax, FromLe, Le, PageFloor;
  }

  /** Whenever the script accepts, its output is the verifier's patched kernel at 2 GiB and from
      0xB0000000 up, exactly if the image has the 0x1000 bytes the verifier insists on. */
  lemma NormalizedIsPatched(image: ByteString, initrdSize: nat, mem: nat)
    requires Normalized(image, initrdSize).Ok? && UsesHighMemoryDigest(mem)
    ensures initrdSize < U32
    ensures Normalized(image, initrdSize) == Patch(image, initrdSize, mem, ACPI_DATA_SIZE) <==> |image| >= 0x1000
  {
    hide FromLe, Le, Apply;
    SameWrites(image, initrdSize, mem);
  }

  /** A header with nothing behind it: 0x258 bytes, boot protocol 2.15, loaded high. */
  function BareHeader(): (image: ByteString)
    ensures |image| == HEADER_END
  {
    Splice(Splice(Splice(Zeros(0x258), 0x202, HEADER_MAGIC), 0x206, [0x0f, 0x02]), 0x211, [0x01])
  }

  /** The script accepts it, and the verifier's patch refuses it. */
  lemma BareHeaderIsRefused(mem: nat, acpiSize: Word32)
    ensures Normalized(BareHeader(), 0).Ok? && Patch(BareHeader(), 0, mem, acpiSize).Err?
  {
    var a := Splice(Zeros(0x258), 0x202, HEADER_MAGIC);
    var b := Splice(a, 0x206, [0x0f, 0x02]);
    var image := Splice(b, 0x211, [0x01]);
    hide Splice;
    assert image[0x211] == image[0x211..0x212][0] == 1;
    assert image[0x202..0x206] == b[0x202..0x206] == a[0x202..0x206] == HEADER_MAGIC;
    assert image[0x206..0x208] == b[0x206..0x208] == [0x0f, 0x02];
    assert [0x0f, 0x02][1..] == [0x02] && [0x02][1..] == [];
    assert FromLe([0x02]) == 2;
    assert Protocol(image) == 0x20f;
    hide Apply, LoaderFields;
  }

  /** And on supported kernels of that length the script accepts whatever the verifier does. */
  lemma PatchedIsNormalized(image: ByteString, initrdSize: Word32, mem: nat)
    requires Supported(image) && |image| >= 0x1000 && UsesHighMemoryDigest(mem)
    ensures Normalized(image, initrdSize) == Patch(image, initrdSize, mem, ACPI_DATA_SIZE)
  {
    hide FromLe, Le, Apply;
    SameWrites(image, initrdSize, mem);
  }

  // ----- `--check` after a run -----

  lemma TargetInFields(image: ByteString, initrdSize: nat)
    requires TargetFields(image, initrdSize).Ok?
    ensures forall w :: w in TargetFields(image, initrdSize).value ==>
              InFields(w) && (Covers(w, 0x211) ==> w.bytes[0x211 - w.at] == SetHighBit(image[0x211]))
  {
    hide InitrdMax, Le, PageFloor, SetHighBit, Supported;
  }

  lemma NormalizedKeepsInputs(image: ByteString, initrdSize: nat)
    requires Normalized(image, initrdSize).Ok?
    ensures var p := Normalized(image, initrdSize).value;
            |p| == |image| && p[0x202..0x208] == image[0x202..0x208] && p[0x22c..0x230] == image[0x22c..0x230]
            && p[0x236..0x238] == image[0x236..0x238]
            && (p[0x211] == image[0x211] || p[0x211] == SetHighBit(image[0x211]))
  {
    var ws := TargetFields(image, initrdSize).value;
    TargetInFields(image, initrdSize);
    FieldsClear(ws, 0x202, 0x208);
    FieldsClear(ws, 0x22c, 0x230);
    FieldsClear(ws, 0x236, 0x238);
    hide TargetFields, Apply, Clear, Covers, InFields;
    Untouched(image, ws, 0x202, 0x208);
    Untouched(image, ws, 0x22c, 0x230);
    Untouched(image, ws, 0x236, 0x238);
    WrittenOnly(ws, 0x211, SetHighBit(image[0x211]));
    ApplyAt(image, ws, 0x211);
  }

  lemma SameFieldsAgain(image: ByteString, initrdSize: nat)
    requires Normalized(image, initrdSize).Ok?
    ensures TargetFields(Normalized(image, initrdSize).value, initrdSize) == TargetFields(image, initrdSize)
  {
    NormalizedKeepsInputs(image, initrdSize);
    var p := Normalized(image, initrdSize).value;
    hide Normalized, FromLe, Le, PageFloor;
    assert p[0x206..0x208] == p[0x202..0x208][4..] && image[0x206..0x208] == image[0x202..0x208][4..];
    assert p[0x202..0x206] == p[0x202..0x208][..4] && image[0x202..0x206] == image[0x202..0x208][..4];
    SameReads(image, p);
    hide InitrdMax, Supported;
    assert LoaderFields(p) == LoaderFields(image);
  }

  lemma SameReads(image: ByteString, p: ByteString)
    requires |p| == |image| && |image| >= HEADER_END && p[0x202..0x206] == image[0x202..0x206]
    requires p[0x206..0x208] == image[0x206..0x208] && p[0x22c..0x230] == image[0x22c..0x230]
    requires p[0x236..0x238] == image[0x236..0x238]
    requires p[0x211] == image[0x211] || p[0x211] == SetHighBit(image[0x211])
    ensures InitrdMax(p) == InitrdMax(image) && (Supported(p) <==> Supported(image))
    ensures SetHighBit(p[0x211]) == SetHighBit(image[0x211])
  {
    hide FromLe;
  }

  /** On an image where every field already holds its bytes there is nothing to change. */
  lemma {:induction false} NothingLeft(image: ByteString, fields: seq<Write>)
    requires Fits(fields, |image|)
    requires forall w :: w in fields ==> image[w.at..w.at + |w.bytes|] == w.bytes
    ensures Apply(image, fields) == image && Changed(image, fields) == []
  {
    hide Splice;
    if fields != [] {
      var w := fields[|fields| - 1];
      NothingLeft(image, fields[..|fields| - 1]);
      SpliceSame(image, w.at, w.bytes);
    }
  }

  /** A normalized image passes `--check`: a second run reports no change and makes none. */
  lemma CheckPasses(image: ByteString, initrdSize: nat)
    requires Normalized(image, initrdSize).Ok?
    ensures var p := Normalized(image, initrdSize).value;
            Normalized(p, initrdSize) == Ok(p)
            && Changed(p, TargetFields(p, initrdSize).value) == []
  {
    var fields := TargetFields(image, initrdSize).value;
    var p := Apply(image, fields);
    SameFieldsAgain(image, initrdSize);
    ApplyTwice(image, fields);
    FieldsApart(image, initrdSize);
    hide Apply, TargetFields, PairwiseDisjoint;
    forall w | w in fields
      ensures p[w.at..w.at + |w.bytes|] == w.bytes
    {
      FieldStands(image, fields, w);
    }
    NothingLeft(p, fields);
  }

  lemma FieldsApart(image: ByteString, initrdSize: nat)
    requires TargetFields(image, initrdSize).Ok?
    ensures PairwiseDisjoint(TargetFields(image, initrdSize).value)
  {
    hide Le, PageFloor, InitrdMax, SetHighBit, Supported;
  }
}
