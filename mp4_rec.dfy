/** mp4Rec.py: the MP4-only carver. It looks for an `ftyp` box of size 0x18 and ends a
    file with the first later block that starts with an `ftyp` box of size 0x18 or 0x1C. */
module Mp4Rec {
  import opened Bytes
  import opened BlockDevice
  import opened CarvingSpec
  import opened ScriptSpec
  import opened ScriptScanner

  /** Box size 0x18 followed by the box type `ftyp`. */
  const FtypBox18: seq<byte> := [0x00, 0x00, 0x00, 0x18, 0x66, 0x74, 0x79, 0x70]
  /** Box size 0x1C followed by the box type `ftyp`. */
  const FtypBox1C: seq<byte> := [0x00, 0x00, 0x00, 0x1C, 0x66, 0x74, 0x79, 0x70]

  const Mp4Script: Script := Script(FtypBox18, BlockStartsWith([FtypBox18, FtypBox1C]), None, "mp4")

  /** The script's scan over the device `data`; `dateOk` is the outcome of its
      creation-date test. */
  method Run(data: seq<byte>, dateOk: bool) returns (files: seq<RecFile>, hangs: bool)
    ensures files == Saved(ScriptRunOn(data, Mp4Script, dateOk).files)
    ensures hangs == ScriptRunOn(data, Mp4Script, dateOk).hangs
  {
    files, hangs := RunScript(data, Mp4Script, dateOk);
  }

  /** A closed MP4 file keeps the whole block that ended it: the first block after the
      header's block that starts with one of the two `ftyp` boxes. */
  predicate EndsWithFtypBlock(d: seq<byte>, f: ScriptFile)
  {
    f.end.ClosedBy? ==>
      && ClosedAtBlockStart(d, [FtypBox18, FtypBox1C], f)
      && f.end.block < |d|
      && (StartsWith(d[f.end.block..], FtypBox18) || StartsWith(d[f.end.block..], FtypBox1C))
  }

  lemma Mp4FilesEndWithFtypBlock(d: seq<byte>, dateOk: bool)
    ensures var files := ScriptRunOn(d, Mp4Script, dateOk).files;
      forall k :: 0 <= k < |files| ==> EndsWithFtypBlock(d, files[k])
  {
    var files := ScriptRunOn(d, Mp4Script, dateOk).files;
    ScriptRunShape(d, Mp4Script, dateOk);
    forall k | 0 <= k < |files| ensures EndsWithFtypBlock(d, files[k]) {
      FilesFitAt(d, Mp4Script, files, k);
      if files[k].end.ClosedBy? {
        ClosedByBlockStart(d, Mp4Script, [FtypBox18, FtypBox1C], files[k]);
        ClosedAtFtypBlock(d, files[k]);
      }
    }
  }

  lemma ClosedAtFtypBlock(d: seq<byte>, f: ScriptFile)
    requires ClosedAtBlockStart(d, [FtypBox18, FtypBox1C], f)
    ensures EndsWithFtypBlock(d, f)
  {
    var b := f.end.block;
    var block := ReadAt(d, b, BLOCK_SIZE);
    assert StartsWith(block, FtypBox18) || StartsWith(block, FtypBox1C);
    assert block == d[b..][..|block|];
  }

  function Mp4DemoByte(i: int): byte
  {
    if 100 <= i < 108 then FtypBox18[i - 100]
    else if 512 <= i < 520 then FtypBox18[i - 512]
    else 0x20
  }

  /** 1536 bytes of filler 0x20 with an `ftyp` box of size 0x18 at 100 and another at 512. */
  function Mp4Demo(): seq<byte> { seq(1536, i => Mp4DemoByte(i)) }

  lemma Mp4DemoFirstBox()
    ensures Find(ReadAt(Mp4Demo(), 0, BLOCK_SIZE), FtypBox18) == 100
  {
    var b0 := ReadAt(Mp4Demo(), 0, BLOCK_SIZE);
    forall j | 0 <= j < 100 ensures !MatchAt(b0, FtypBox18, j) {
      assert b0[j + 0] == Mp4DemoByte(j) == 0x20 != FtypBox18[0];
    }
    forall k | 0 <= k < 8 ensures b0[100 + k] == FtypBox18[k] {
      assert b0[100 + k] == Mp4DemoByte(100 + k);
    }
    FindIsFirstMatch(b0, FtypBox18, 100);
  }

  lemma Mp4DemoInnerLoop()
    ensures ExtractStart(Mp4Demo(), [FtypBox18, FtypBox1C], 512) == Extraction(Mp4Demo()[512..1024], 1024, true, 512, 512)
  {
    var b1 := ReadAt(Mp4Demo(), 512, BLOCK_SIZE);
    forall k | 0 <= k < 8 ensures b1[k] == FtypBox18[k] {
      assert b1[k] == Mp4DemoByte(512 + k);
    }
    assert StartsWith(b1, FtypBox18);
  }

  lemma Mp4DemoTailHasNoBox()
    ensures Find(ReadAt(Mp4Demo(), 1024, BLOCK_SIZE), FtypBox18) == -1
  {
    var b2 := ReadAt(Mp4Demo(), 1024, BLOCK_SIZE);
    forall j | 0 <= j < |b2| ensures b2[j] != FtypBox18[0] {
      assert b2[j] == Mp4DemoByte(1024 + j);
    }
    FindAbsentFirstByte(b2, FtypBox18);
  }

  /** The second MP4 starts the block that ends the first: it is written into the first
      file, and no file of its own is ever carved for it. */
  lemma Mp4DemoSwallowsNextVideo()
    ensures MatchAt(Mp4Demo(), FtypBox18, 512)
    ensures ScriptRunOn(Mp4Demo(), Mp4Script, true)
      == ScriptRun([ScriptFile(0, 1, 0, 100, Mp4Demo()[100..1024], ClosedBy(512, 512))], ScanState(1, 0, 1), false)
  {
    var d := Mp4Demo();
    forall k | 0 <= k < 8 ensures d[512 + k] == FtypBox18[k] {
      assert d[512 + k] == Mp4DemoByte(512 + k);
    }
    Mp4DemoFirstBox();
    Mp4DemoInnerLoop();
    Mp4DemoTailHasNoBox();
    var b0 := ReadAt(d, 0, BLOCK_SIZE);
    assert b0 == d[0..512];
    assert b0[100..] == d[100..512];
    SliceConcat(d, 100, 512, 1024);
    var file := ScriptFile(0, 1, 0, 100, d[100..1024], ClosedBy(512, 512));
    assert StepAt(d, Mp4Script, true, 0, Initial) == ScriptStep(Some(file), 1024, ScanState(1, 0, 1), false);
    assert StepAt(d, Mp4Script, true, 1024, ScanState(1, 0, 1)) == ScriptStep(None, 1536, ScanState(1, 0, 1), false);
  }
}
