/** pngRec.py: the PNG-only carver. It keeps a PNG only when its IHDR width exceeds 300
    and the drive's creation date lies in the configured window, and ends each file four
    bytes into the first `IEND` found in a later block. */
module PngRec {
  import opened Bytes
  import opened BlockDevice
  import opened Signatures
  import opened CarvingSpec
  import opened ScriptSpec
  import opened ScriptScanner
  import opened Naming

  /** `IEND` with `byte[:iend + 4]`: the chunk type is kept, its CRC is not. */
  const PngScript: Script := Script(PngHeader, FooterIn(PngFooter, 4), Some(300), "png")

  /** The script's scan over the device `data`; `dateOk` is the outcome of its
      creation-date test, which is the same for every header of a run. */
  method Run(data: seq<byte>, dateOk: bool) returns (files: seq<RecFile>, hangs: bool)
    ensures files == Saved(ScriptRunOn(data, PngScript, dateOk).files)
    ensures hangs == ScriptRunOn(data, PngScript, dateOk).hangs
  {
    files, hangs := RunScript(data, PngScript, dateOk);
  }

  /** With the whole field in the block, the width is the big-endian value of the four
      bytes 16 to 19 after the signature. */
  lemma WidthOfWholeField(block: seq<byte>, found: nat)
    requires found + 20 <= |block|
    ensures Width(block, found) == block[found + 16] as int * 16777216 + block[found + 17] as int * 65536
                                 + block[found + 18] as int * 256 + block[found + 19] as int
  {
    var field := Slice(block[found..], 16, 20);
    assert field == block[found + 16..found + 20];
    BigEndianFour(field);
  }

  /** A field cut off by the end of the block decodes only the bytes present, so the width
      is below 256 to the power of their number; with none of them present it is 0 and the
      header is never kept. */
  lemma WidthOfCutField(block: seq<byte>, found: nat)
    requires found <= |block| < found + 20
    ensures var present := if |block| - found <= 16 then 0 else |block| - found - 16;
      present < 4 && Width(block, found) < Pow256(present)
    ensures |block| - found <= 16 ==> !Accepts(PngScript, block, found, true)
  {
    BigEndianBound(Slice(block[found..], 16, 20));
  }

  /** A closed PNG file runs from its signature to the end of the `IEND` chunk type in the
      first block after the signature's block that holds `IEND`: its last four bytes are
      the footer match that closed it, and no block read before that one held `IEND`. */
  predicate EndsWithIend(d: seq<byte>, f: ScriptFile)
  {
    f.end.ClosedBy? ==>
      && ClosedAtFooter(d, PngFooter, 4, f)
      && f.end.at + 4 <= |d|
      && f.bytes == d[f.offset..f.end.at + 4]
      && f.bytes[|f.bytes| - 4..] == PngFooter
  }

  lemma PngFilesEndWithIend(d: seq<byte>, dateOk: bool)
    ensures var files := ScriptRunOn(d, PngScript, dateOk).files;
      forall k :: 0 <= k < |files| ==> EndsWithIend(d, files[k])
  {
    var files := ScriptRunOn(d, PngScript, dateOk).files;
    ScriptRunShape(d, PngScript, dateOk);
    forall k | 0 <= k < |files| ensures EndsWithIend(d, files[k]) {
      FilesFitAt(d, PngScript, files, k);
      if files[k].end.ClosedBy? {
        ClosedByFooter(d, PngScript, PngFooter, 4, files[k]);
        ClosedAtIend(d, files[k]);
      }
    }
  }

  lemma ClosedAtIend(d: seq<byte>, f: ScriptFile)
    requires ClosedAtFooter(d, PngFooter, 4, f)
    ensures EndsWithIend(d, f)
  {
    var b, m := f.end.block, f.end.at;
    var block := ReadAt(d, b, BLOCK_SIZE);
    assert MatchAt(block, PngFooter, m - b);
    assert f.offset + |f.bytes| == m + 4;
    assert f.bytes[|f.bytes| - 4..] == d[m..m + 4];
  }

  function PngDemoByte(i: int): byte
  {
    if 0 <= i < 8 then PngHeader[i]
    else if 512 <= i < 520 then PngHeader[i - 512]
    else if i == 19 then 100
    else if i == 530 then 2
    else if 1100 <= i < 1104 then PngFooter[i - 1100]
    else 0
  }

  /** 1536 bytes: a PNG 100 pixels wide at 0, one 512 pixels wide at 512, `IEND` at 1100. */
  function PngDemo(): seq<byte> { seq(1536, i => PngDemoByte(i)) }

  lemma PngDemoSignatureAt(start: nat)
    requires start == 0 || start == 512
    ensures Find(ReadAt(PngDemo(), start, BLOCK_SIZE), PngHeader) == 0
  {
    var b := ReadAt(PngDemo(), start, BLOCK_SIZE);
    forall k | 0 <= k < 8 ensures b[k] == PngHeader[k] {
      assert b[k] == PngDemoByte(start + k);
    }
    FindIsFirstMatch(b, PngHeader, 0);
  }

  lemma PngDemoIend()
    ensures Find(ReadAt(PngDemo(), 1024, BLOCK_SIZE), PngFooter) == 76
  {
    var b := ReadAt(PngDemo(), 1024, BLOCK_SIZE);
    forall j | 0 <= j < 76 ensures !MatchAt(b, PngFooter, j) {
      assert b[j + 0] == PngDemoByte(1024 + j) == 0 != PngFooter[0];
    }
    forall k | 0 <= k < 4 ensures b[76 + k] == PngFooter[k] {
      assert b[76 + k] == PngDemoByte(1100 + k);
    }
    FindIsFirstMatch(b, PngFooter, 76);
  }

  /** The narrow PNG at 0 is counted but not kept, so the wide one is written as `2.png`
      in `rec`: from its signature through `IEND`, 592 bytes (pngRec.py:34-65). */
  lemma PngDemoSkipsNarrowNumber()
    ensures var file := ScriptFile(0, 2, 512, 512, PngDemo()[512..1104], ClosedBy(1024, 1100));
      && ScriptRunOn(PngDemo(), PngScript, true) == ScriptRun([file], ScanState(2, 0, 1), false)
      && Name(PngScript, file) == "2.png" && |file.bytes| == 592
  {
    var d := PngDemo();
    var b0, b1, b2 := ReadAt(d, 0, BLOCK_SIZE), ReadAt(d, 512, BLOCK_SIZE), ReadAt(d, 1024, BLOCK_SIZE);
    PngDemoSignatureAt(0);
    PngDemoSignatureAt(512);
    PngDemoIend();
    WidthOfWholeField(b0, 0);
    WidthOfWholeField(b1, 0);
    assert b0[16] == 0 && b0[17] == 0 && b0[18] == 0 && b0[19] == 100;
    assert b1[16] == 0 && b1[17] == 0 && b1[18] == 2 && b1[19] == 0;
    assert StepAt(d, PngScript, true, 0, Initial) == ScriptStep(None, 512, ScanState(1, 0, 0), false);
    var x := Extraction(b2[..80], 1536, true, 1024, 1100);
    assert ExtractFooter(d, PngFooter, 4, 1024) == x;
    assert b1[0..] + b2[..80] == d[512..1104];
    var file := ScriptFile(0, 2, 512, 512, d[512..1104], ClosedBy(1024, 1100));
    assert StepAt(d, PngScript, true, 512, ScanState(1, 0, 0)) == ScriptStep(Some(file), 1536, ScanState(2, 0, 1), false);
    assert ScriptFrom(d, PngScript, true, 1536, ScanState(2, 0, 1)) == ScriptRun([], ScanState(2, 0, 1), false);
    assert ScriptFrom(d, PngScript, true, 512, ScanState(1, 0, 0)) == ScriptRun([file], ScanState(2, 0, 1), false);
    assert DecimalString(2) == "2";
  }
}
