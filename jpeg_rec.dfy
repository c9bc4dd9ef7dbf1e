/** jpegRec.py: the JPEG-only carver. A file runs from the SOI signature to the end of
    the first later block that starts with the EOI marker `FF D9`; that block is kept whole. */
module JpegRec {
  import opened Bytes
  import opened BlockDevice
  import opened Signatures
  import opened CarvingSpec
  import opened ScriptSpec
  import opened ScriptScanner

  const JpegScript: Script := Script(JpegHeader, BlockStartsWith([JpegFooter]), None, "jpg")

  /** The script's scan over the device `data`; `dateOk` is the outcome of its
      creation-date test. */
  method Run(data: seq<byte>, dateOk: bool) returns (files: seq<RecFile>, hangs: bool)
    ensures files == Saved(ScriptRunOn(data, JpegScript, dateOk).files)
    ensures hangs == ScriptRunOn(data, JpegScript, dateOk).hangs
  {
    files, hangs := RunScript(data, JpegScript, dateOk);
  }

  /** Every closed JPEG file ends with a whole block that begins with `FF D9`, and that
      block is the first one after the signature's block to begin so. */
  lemma JpegFilesEndWithEoiBlock(d: seq<byte>, dateOk: bool)
    ensures var files := ScriptRunOn(d, JpegScript, dateOk).files;
      forall k :: 0 <= k < |files| ==> EndsWithEoiBlock(d, files[k])
  {
    var files := ScriptRunOn(d, JpegScript, dateOk).files;
    ScriptRunShape(d, JpegScript, dateOk);
    forall k | 0 <= k < |files| ensures EndsWithEoiBlock(d, files[k]) {
      FilesFitAt(d, JpegScript, files, k);
      if files[k].end.ClosedBy? {
        ClosedByBlockStart(d, JpegScript, [JpegFooter], files[k]);
        ClosedAtEoiBlock(d, files[k]);
      }
    }
  }

  predicate EndsWithEoiBlock(d: seq<byte>, f: ScriptFile)
  {
    f.end.ClosedBy? ==>
      && ClosedAtBlockStart(d, [JpegFooter], f)
      && f.end.block + 2 <= |d| && d[f.end.block] == 0xFF && d[f.end.block + 1] == 0xD9
  }

  lemma ClosedAtEoiBlock(d: seq<byte>, f: ScriptFile)
    requires ClosedAtBlockStart(d, [JpegFooter], f)
    ensures EndsWithEoiBlock(d, f)
  {
    var b := f.end.block;
    var block := ReadAt(d, b, BLOCK_SIZE);
    assert StartsWith(block, JpegFooter);
    assert block[0] == d[b] && block[1] == d[b + 1];
  }

  function JpegDemoByte(i: int): byte
  {
    if 100 <= i < 103 then JpegHeader[i - 100]
    else if 700 <= i < 702 then JpegFooter[i - 700]
    else if 1024 <= i < 1026 then JpegFooter[i - 1024]
    else 0
  }

  /** 1536 bytes: SOI at 100, an EOI marker at 700 inside the next block, and one at the
      start of the block at 1024. */
  function JpegDemo(): seq<byte> { seq(1536, i => JpegDemoByte(i)) }

  lemma JpegDemoSoi()
    ensures Find(ReadAt(JpegDemo(), 0, BLOCK_SIZE), JpegHeader) == 100
  {
    var b0 := ReadAt(JpegDemo(), 0, BLOCK_SIZE);
    forall j | 0 <= j < 100 ensures !MatchAt(b0, JpegHeader, j) {
      assert b0[j + 0] == JpegDemoByte(j) == 0 != JpegHeader[0];
    }
    forall k | 0 <= k < 3 ensures b0[100 + k] == JpegHeader[k] {
      assert b0[100 + k] == JpegDemoByte(100 + k);
    }
    FindIsFirstMatch(b0, JpegHeader, 100);
  }

  lemma JpegDemoMidBlockEoi()
    ensures MatchAt(JpegDemo(), JpegFooter, 700)
  {
    var d := JpegDemo();
    forall k | 0 <= k < 2 ensures d[700 + k] == JpegFooter[k] {
      assert d[700 + k] == JpegDemoByte(700 + k);
    }
  }

  lemma JpegDemoInnerLoop()
    ensures ExtractStart(JpegDemo(), [JpegFooter], 512) == Extraction(JpegDemo()[512..1536], 1536, true, 1024, 1024)
  {
    var d := JpegDemo();
    var b1, b2 := ReadAt(d, 512, BLOCK_SIZE), ReadAt(d, 1024, BLOCK_SIZE);
    assert b1[0] == JpegDemoByte(512) == 0;
    assert !StartsWithAny(b1, [JpegFooter]);
    assert b2[..2] == [JpegDemoByte(1024), JpegDemoByte(1025)] == JpegFooter;
    assert ExtractStart(d, [JpegFooter], 1024) == Extraction(b2, 1536, true, 1024, 1024);
    assert b1 + b2 == d[512..1024] + d[1024..1536] == d[512..1536];
  }

  /** The EOI marker inside a block does not end the file: it runs on to the block that
      starts with `FF D9` and keeps that block whole, up to byte 1536. */
  lemma JpegDemoIgnoresMidBlockEoi()
    ensures MatchAt(JpegDemo(), JpegFooter, 700)
    ensures ScriptRunOn(JpegDemo(), JpegScript, true)
      == ScriptRun([ScriptFile(0, 1, 0, 100, JpegDemo()[100..1536], ClosedBy(1024, 1024))], ScanState(1, 0, 1), false)
  {
    var d := JpegDemo();
    JpegDemoMidBlockEoi();
    JpegDemoSoi();
    JpegDemoInnerLoop();
    var b0 := ReadAt(d, 0, BLOCK_SIZE);
    assert b0 == d[0..512];
    assert b0[100..] == d[100..512];
    SliceConcat(d, 100, 512, 1536);
    var file := ScriptFile(0, 1, 0, 100, d[100..1536], ClosedBy(1024, 1024));
    assert StepAt(d, JpegScript, true, 0, Initial) == ScriptStep(Some(file), 1536, ScanState(1, 0, 1), false);
  }

  function UnendedByte(i: int): byte
  {
    if 0 <= i < 3 then JpegHeader[i] else 0
  }

  /** 600 bytes: SOI at 0 and no block after it that starts with `FF D9`. */
  function Unended(): seq<byte> { seq(600, i => UnendedByte(i)) }

  /** Without an EOI block the inner loop reaches the end of the device with the file
      holding every remaining byte, and the script spins there forever. */
  lemma UnendedJpegSpins()
    ensures ScriptRunOn(Unended(), JpegScript, true)
      == ScriptRun([ScriptFile(0, 1, 0, 0, Unended(), RanOut)], ScanState(1, 0, 1), true)
  {
    var d := Unended();
    var b0, b1 := ReadAt(d, 0, BLOCK_SIZE), ReadAt(d, 512, BLOCK_SIZE);
    forall k | 0 <= k < 3 ensures b0[k] == JpegHeader[k] {
      assert b0[k] == UnendedByte(k);
    }
    FindIsFirstMatch(b0, JpegHeader, 0);
    assert b1[0] == UnendedByte(512) == 0;
    assert !StartsWithAny(b1, [JpegFooter]);
    assert ExtractStart(d, [JpegFooter], 600) == Extraction([], 600, false, 600, 600);
    assert ExtractStart(d, [JpegFooter], 512) == Extraction(b1, 600, false, 600, 600);
    assert b0[0..] + b1 == d;
    var file := ScriptFile(0, 1, 0, 0, d, RanOut);
    assert StepAt(d, JpegScript, true, 0, Initial) == ScriptStep(Some(file), 600, ScanState(1, 0, 1), true);
  }
}
