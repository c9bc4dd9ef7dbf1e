/** Concrete devices that pin down what one pass of `recover_files` carves. */
module CarvingExamples {
  import opened Bytes
  import opened BlockDevice
  import opened Signatures
  import opened CarvingSpec

  function JpegDemoByte(i: int): byte
  {
    if i == 100 || i == 102 || i == 1600 then 0xFF
    else if i == 101 then 0xD8
    else if i == 1601 then 0xD9
    else 0
  }

  /** 2048 bytes: a JPEG header `FF D8 FF` at 100, an EOI marker `FF D9` at 1600, zeros elsewhere. */
  function JpegDemo(): seq<byte> { seq(2048, i => JpegDemoByte(i)) }

  lemma JpegDemoHeaderBlock()
    ensures Find(ReadAt(JpegDemo(), 0, BLOCK_SIZE), JpegHeader) == 100
  {
    var b := ReadAt(JpegDemo(), 0, BLOCK_SIZE);
    forall j | 0 <= j < 100 ensures !MatchAt(b, JpegHeader, j) {
      assert b[j + 0] == 0 != JpegHeader[0];
    }
    assert b[100] == 0xFF && b[101] == 0xD8 && b[102] == 0xFF;
    FindIsFirstMatch(b, JpegHeader, 100);
  }

  lemma JpegDemoZeroBlock(start: nat)
    requires start == 512 || start == 1024
    ensures Find(ReadAt(JpegDemo(), start, BLOCK_SIZE), JpegFooter) == -1
  {
    var b := ReadAt(JpegDemo(), start, BLOCK_SIZE);
    forall j | 0 <= j < |b| ensures b[j] != JpegFooter[0] {
      assert b[j] == JpegDemoByte(start + j) == 0;
    }
    FindAbsentFirstByte(b, JpegFooter);
  }

  lemma JpegDemoFooterBlock()
    ensures Find(ReadAt(JpegDemo(), 1536, BLOCK_SIZE), JpegFooter) == 64
  {
    var b := ReadAt(JpegDemo(), 1536, BLOCK_SIZE);
    forall j | 0 <= j < 64 ensures !MatchAt(b, JpegFooter, j) {
      assert b[j + 0] == JpegDemoByte(1536 + j) == 0 != JpegFooter[0];
    }
    assert b[64] == 0xFF && b[65] == 0xD9;
    FindIsFirstMatch(b, JpegFooter, 64);
  }

  /** The JPEG pass over `JpegDemo` carves one file of 1502 bytes: from the header through
      the two EOI bytes, spanning four blocks (selectRec.py:134-146). */
  lemma JpegDemoCarvesOneFile()
    ensures Pass(JpegDemo(), Jpg, AsWritten) == [Carved(100, JpegDemo()[100..1602], ClosedBy(1536, 1600), 2048)]
    ensures |JpegDemo()[100..1602]| == 1502
  {
    var d := JpegDemo();
    var b0 := ReadAt(d, 0, BLOCK_SIZE);
    JpegDemoHeaderBlock();
    JpegDemoFooterLoop();
    assert Extract(d, Jpg, AsWritten, 512) == Extraction(d[512..1602], 2048, true, 1536, 1600);
    assert b0[100..] + d[512..1602] == d[100..1602];
    var file := Carved(100, d[100..1602], ClosedBy(1536, 1600), 2048);
    assert ScanStep(d, Jpg, AsWritten, 0) == Step(Some(file), 2048);
    assert PassFrom(d, Jpg, AsWritten, 2048) == [];
    assert PassFrom(d, Jpg, AsWritten, 0) == [file] + [];
  }

  /** The footer loop started at the second block runs over two blocks without `FF D9`
      and stops in the fourth, two bytes after the footer found at 1598. */
  lemma JpegDemoFooterLoop()
    ensures ExtractFooter(JpegDemo(), JpegFooter, 2, 512) == Extraction(JpegDemo()[512..1602], 2048, true, 1536, 1600)
  {
    var d := JpegDemo();
    var b1, b2, b3 := ReadAt(d, 512, BLOCK_SIZE), ReadAt(d, 1024, BLOCK_SIZE), ReadAt(d, 1536, BLOCK_SIZE);
    JpegDemoZeroBlock(512);
    JpegDemoZeroBlock(1024);
    JpegDemoFooterBlock();
    var tail := Extraction(b3[..66], 2048, true, 1536, 1600);
    assert ExtractFooter(d, JpegFooter, 2, 1536) == tail;
    assert ExtractFooter(d, JpegFooter, 2, 1024) == Prepend(b2, tail);
    assert ExtractFooter(d, JpegFooter, 2, 512) == Prepend(b1, Prepend(b2, tail));
    assert b1 + (b2 + b3[..66]) == d[512..1602];
  }

  function MkvDemoByte(i: int): byte
  {
    if i == 500 || i == 512 then 0x1A
    else if i == 501 || i == 513 then 0x45
    else if i == 502 || i == 514 then 0xDF
    else if i == 503 || i == 515 then 0xA3
    else 0
  }

  /** 516 bytes: an EBML header at 500 and another at 512, the start of a short final block. */
  function MkvDemo(): seq<byte> { seq(516, i => MkvDemoByte(i)) }

  lemma MkvDemoFirstBlock()
    ensures Find(ReadAt(MkvDemo(), 0, BLOCK_SIZE), MkvHeader) == 500
  {
    var b := ReadAt(MkvDemo(), 0, BLOCK_SIZE);
    forall j | 0 <= j < 500 ensures !MatchAt(b, MkvHeader, j) {
      assert b[j + 0] == 0 != MkvHeader[0];
    }
    assert b[500] == 0x1A && b[501] == 0x45 && b[502] == 0xDF && b[503] == 0xA3;
    FindIsFirstMatch(b, MkvHeader, 500);
  }

  lemma MkvDemoShortBlock()
    ensures ReadAt(MkvDemo(), 512, BLOCK_SIZE) == MkvHeader
    ensures Find(ReadAt(MkvDemo(), 512, BLOCK_SIZE), MkvHeader) == 0
  {
    var d := MkvDemo();
    var b := ReadAt(d, 512, BLOCK_SIZE);
    assert b == d[512..516];
    forall k | 0 <= k < 4 ensures b[k] == MkvHeader[k] {
      assert b[k] == d[512 + k] == MkvDemoByte(512 + k);
    }
    assert b == MkvHeader;
    FindIsFirstMatch(b, MkvHeader, 0);
  }

  lemma MkvDemoRereadBlock()
    ensures Find(ReadAt(MkvDemo(), 4, BLOCK_SIZE), MkvHeader) == 496
  {
    var b := ReadAt(MkvDemo(), 4, BLOCK_SIZE);
    forall j | 0 <= j < 496 ensures !MatchAt(b, MkvHeader, j) {
      assert b[j + 0] == MkvDemoByte(4 + j) == 0 != MkvHeader[0];
    }
    assert b[496] == 0x1A && b[497] == 0x45 && b[498] == 0xDF && b[499] == 0xA3;
    FindIsFirstMatch(b, MkvHeader, 496);
  }

  /** As written, the rewind after the short final block lands at offset 4 instead of 512:
      the pass carves the header at 500 twice and never starts a file at the header at 512
      (selectRec.py:151-155). */
  lemma MkvDemoAsWrittenRepeatsHeader()
    ensures Pass(MkvDemo(), Mkv, AsWritten)
         == [Carved(500, MkvDemo()[500..512], ClosedBy(512, 512), 4),
             Carved(500, MkvDemo()[500..516], RanOut, 516)]
    ensures !OffsetsIncrease(Pass(MkvDemo(), Mkv, AsWritten))
  {
    var d := MkvDemo();
    var b0, b4 := ReadAt(d, 0, BLOCK_SIZE), ReadAt(d, 4, BLOCK_SIZE);
    MkvDemoFirstBlock();
    MkvDemoShortBlock();
    MkvDemoRereadBlock();
    assert Extract(d, Mkv, AsWritten, 512) == Extraction([], 4, true, 512, 512);
    var first := Carved(500, d[500..512], ClosedBy(512, 512), 4);
    assert b0[500..] + [] == d[500..512];
    assert ScanStep(d, Mkv, AsWritten, 0) == Step(Some(first), 4);
    assert Extract(d, Mkv, AsWritten, 516) == Extraction([], 516, false, 516, 516);
    var second := Carved(500, d[500..516], RanOut, 516);
    assert b4[496..] + [] == d[500..516];
    assert ScanStep(d, Mkv, AsWritten, 4) == Step(Some(second), 516);
    assert PassFrom(d, Mkv, AsWritten, 516) == [];
    assert PassFrom(d, Mkv, AsWritten, 4) == [second] + [];
    assert PassFrom(d, Mkv, AsWritten, 0) == [first] + [second];
    assert Pass(d, Mkv, AsWritten)[0].offset == Pass(d, Mkv, AsWritten)[1].offset;
  }

  /** With the rewind landing on the next header, the same device yields one file per
      header, at 500 and at 512. */
  lemma MkvDemoIntendedCarvesEachHeader()
    ensures Pass(MkvDemo(), Mkv, Intended)
         == [Carved(500, MkvDemo()[500..512], ClosedBy(512, 512), 512),
             Carved(512, MkvDemo()[512..516], RanOut, 516)]
  {
    var d := MkvDemo();
    var b0, b512 := ReadAt(d, 0, BLOCK_SIZE), ReadAt(d, 512, BLOCK_SIZE);
    MkvDemoFirstBlock();
    MkvDemoShortBlock();
    assert Extract(d, Mkv, Intended, 512) == Extraction([], 512, true, 512, 512);
    var first := Carved(500, d[500..512], ClosedBy(512, 512), 512);
    assert b0[500..] + [] == d[500..512];
    assert ScanStep(d, Mkv, Intended, 0) == Step(Some(first), 512);
    assert Extract(d, Mkv, Intended, 516) == Extraction([], 516, false, 516, 516);
    var second := Carved(512, d[512..516], RanOut, 516);
    assert b512[0..] + [] == d[512..516];
    assert ScanStep(d, Mkv, Intended, 512) == Step(Some(second), 516);
    assert PassFrom(d, Mkv, Intended, 516) == [];
    assert PassFrom(d, Mkv, Intended, 512) == [second] + [];
    assert PassFrom(d, Mkv, Intended, 0) == [first] + [second];
  }
}
