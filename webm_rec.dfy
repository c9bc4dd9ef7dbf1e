/** webmRec.py: the WebM-only carver. A file runs from an EBML header to the end of the
    first later block that starts with another EBML header; that block is kept whole. */
module WebmRec {
  import opened Bytes
  import opened BlockDevice
  import opened Signatures
  import opened CarvingSpec
  import opened ScriptSpec
  import opened ScriptScanner

  const WebmScript: Script := Script(MkvHeader, BlockStartsWith([MkvHeader]), None, "webm")

  /** The script's scan over the device `data`; `dateOk` is the outcome of its
      creation-date test. */
  method Run(data: seq<byte>, dateOk: bool) returns (files: seq<RecFile>, hangs: bool)
    ensures files == Saved(ScriptRunOn(data, WebmScript, dateOk).files)
    ensures hangs == ScriptRunOn(data, WebmScript, dateOk).hangs
  {
    files, hangs := RunScript(data, WebmScript, dateOk);
  }

  /** A closed WebM file ends with a whole block that starts with an EBML header, the
      header that begins the next video: the first block after the header's block to do so. */
  predicate EndsWithNextHeader(d: seq<byte>, f: ScriptFile)
  {
    f.end.ClosedBy? ==>
      && ClosedAtBlockStart(d, [MkvHeader], f)
      && MatchAt(d, MkvHeader, f.end.block)
  }

  lemma WebmFilesEndWithNextHeader(d: seq<byte>, dateOk: bool)
    ensures var files := ScriptRunOn(d, WebmScript, dateOk).files;
      forall k :: 0 <= k < |files| ==> EndsWithNextHeader(d, files[k])
  {
    var files := ScriptRunOn(d, WebmScript, dateOk).files;
    ScriptRunShape(d, WebmScript, dateOk);
    forall k | 0 <= k < |files| ensures EndsWithNextHeader(d, files[k]) {
      FilesFitAt(d, WebmScript, files, k);
      if files[k].end.ClosedBy? {
        ClosedByBlockStart(d, WebmScript, [MkvHeader], files[k]);
        ClosedAtNextHeader(d, files[k]);
      }
    }
  }

  lemma ClosedAtNextHeader(d: seq<byte>, f: ScriptFile)
    requires ClosedAtBlockStart(d, [MkvHeader], f)
    ensures EndsWithNextHeader(d, f)
  {
    var b := f.end.block;
    var block := ReadAt(d, b, BLOCK_SIZE);
    assert StartsWith(block, MkvHeader);
    StartsWithIsMatchAtZero(block, MkvHeader);
    forall i | 0 <= i < 4 ensures d[b + i] == MkvHeader[i] {
      assert d[b + i] == block[i];
    }
  }

  function WebmDemoByte(i: int): byte
  {
    if 10 <= i < 14 then MkvHeader[i - 10]
    else if 512 <= i < 516 then MkvHeader[i - 512]
    else 0
  }

  /** 1536 bytes: an EBML header at 10 and another at 512. */
  function WebmDemo(): seq<byte> { seq(1536, i => WebmDemoByte(i)) }

  lemma WebmDemoFirstHeader()
    ensures Find(ReadAt(WebmDemo(), 0, BLOCK_SIZE), MkvHeader) == 10
  {
    var b0 := ReadAt(WebmDemo(), 0, BLOCK_SIZE);
    forall j | 0 <= j < 10 ensures !MatchAt(b0, MkvHeader, j) {
      assert b0[j + 0] == WebmDemoByte(j) == 0 != MkvHeader[0];
    }
    forall k | 0 <= k < 4 ensures b0[10 + k] == MkvHeader[k] {
      assert b0[10 + k] == WebmDemoByte(10 + k);
    }
    FindIsFirstMatch(b0, MkvHeader, 10);
  }

  lemma WebmDemoInnerLoop()
    ensures ExtractStart(WebmDemo(), [MkvHeader], 512) == Extraction(WebmDemo()[512..1024], 1024, true, 512, 512)
  {
    var b1 := ReadAt(WebmDemo(), 512, BLOCK_SIZE);
    forall k | 0 <= k < 4 ensures b1[k] == MkvHeader[k] {
      assert b1[k] == WebmDemoByte(512 + k);
    }
    assert StartsWith(b1, MkvHeader);
  }

  lemma WebmDemoTailHasNoHeader()
    ensures Find(ReadAt(WebmDemo(), 1024, BLOCK_SIZE), MkvHeader) == -1
  {
    var b2 := ReadAt(WebmDemo(), 1024, BLOCK_SIZE);
    forall j | 0 <= j < |b2| ensures b2[j] != MkvHeader[0] {
      assert b2[j] == WebmDemoByte(1024 + j);
    }
    FindAbsentFirstByte(b2, MkvHeader);
  }

  /** Back-to-back videos: the first file runs from 10 through the block holding the
      second header, which is never carved as a file of its own. */
  lemma WebmDemoSwallowsNextVideo()
    ensures MatchAt(WebmDemo(), MkvHeader, 512)
    ensures ScriptRunOn(WebmDemo(), WebmScript, true)
      == ScriptRun([ScriptFile(0, 1, 0, 10, WebmDemo()[10..1024], ClosedBy(512, 512))], ScanState(1, 0, 1), false)
  {
    var d := WebmDemo();
    forall k | 0 <= k < 4 ensures d[512 + k] == MkvHeader[k] {
      assert d[512 + k] == WebmDemoByte(512 + k);
    }
    WebmDemoFirstHeader();
    WebmDemoInnerLoop();
    WebmDemoTailHasNoHeader();
    var b0 := ReadAt(d, 0, BLOCK_SIZE);
    assert b0 == d[0..512];
    assert b0[10..] == d[10..512];
    SliceConcat(d, 10, 512, 1024);
    var file := ScriptFile(0, 1, 0, 10, d[10..1024], ClosedBy(512, 512));
    assert StepAt(d, WebmScript, true, 0, Initial) == ScriptStep(Some(file), 1024, ScanState(1, 0, 1), false);
    assert StepAt(d, WebmScript, true, 1024, ScanState(1, 0, 1)) == ScriptStep(None, 1536, ScanState(1, 0, 1), false);
  }
}
