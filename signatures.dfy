/** The signature table of the consolidated engine (`get_file_signatures`). */
module Signatures {
  import opened Bytes

  /** A format descriptor. A footer-defined format keeps `footerLength` bytes from the
      start of the footer match; a footer-less one is bounded by its next header. */
  datatype Signature =
    | WithFooter(header: seq<byte>, footer: seq<byte>, footerLength: nat, extension: string)
    | Heuristic(header: seq<byte>, extension: string)

  /** The invariant a descriptor must satisfy: a non-empty header, and a footer length
      that covers the footer itself. */
  predicate WellFormed(s: Signature)
  {
    |s.header| > 0 &&
    (s.WithFooter? ==> |s.footer| > 0 && s.footerLength >= |s.footer|)
  }

  /** PNG file signature, section 5.2 of the PNG specification. */
  const PngHeader: seq<byte> := [0x89, 0x50, 0x4E, 0x47, 0x0D, 0x0A, 0x1A, 0x0A]
  /** The IEND chunk type; 8 bytes keep the type and its 4-byte CRC. */
  const PngFooter: seq<byte> := [0x49, 0x45, 0x4E, 0x44]
  /** JPEG SOI marker plus the first byte of the next marker. */
  const JpegHeader: seq<byte> := [0xFF, 0xD8, 0xFF]
  /** JPEG EOI marker. */
  const JpegFooter: seq<byte> := [0xFF, 0xD9]
  /** A 24-byte `ftyp` box with major brand `mp42`. */
  const Mp4Header: seq<byte> := [0x00, 0x00, 0x00, 0x18, 0x66, 0x74, 0x79, 0x70, 0x6D, 0x70, 0x34, 0x32]
  /** The EBML header element ID. */
  const MkvHeader: seq<byte> := [0x1A, 0x45, 0xDF, 0xA3]

  const Png: Signature := WithFooter(PngHeader, PngFooter, 8, "png")
  const Jpg: Signature := WithFooter(JpegHeader, JpegFooter, 2, "jpg")
  const Mp4: Signature := Heuristic(Mp4Header, "mp4")
  const Mkv: Signature := Heuristic(MkvHeader, "mkv")

  /** `get_file_signatures(recovery_type)`: 1 is PNG, 2 is JPEG, 3 the two video formats,
      anything else every format in table order. */
  function SignaturesFor(recoveryType: int): (sigs: seq<Signature>)
    ensures recoveryType == 1 ==> sigs == [Png]
    ensures recoveryType == 2 ==> sigs == [Jpg]
    ensures recoveryType == 3 ==> sigs == [Mp4, Mkv]
    ensures recoveryType !in {1, 2, 3} ==> sigs == [Png, Jpg, Mp4, Mkv]
    ensures forall k :: 0 <= k < |sigs| ==> WellFormed(sigs[k])
    ensures forall j, k :: 0 <= j < k < |sigs| ==> sigs[j].extension != sigs[k].extension
  {
    if recoveryType == 1 then [Png]
    else if recoveryType == 2 then [Jpg]
    else if recoveryType == 3 then [Mp4, Mkv]
    else [Png, Jpg, Mp4, Mkv]
  }

  /** Selecting every format is the same as selecting each category in menu order. */
  lemma AllIsEveryCategory(recoveryType: int)
    requires recoveryType !in {1, 2, 3}
    ensures SignaturesFor(recoveryType) == SignaturesFor(1) + SignaturesFor(2) + SignaturesFor(3)
  {
  }
}
