/** What one pass of `recover_files` carves out of a device, as functions of the device
    contents. The engine's method is proved to produce exactly `Pass(d, sig, AsWritten)`. */
module CarvingSpec {
  import opened Bytes
  import opened BlockDevice
  import opened Signatures

  /** How the footer-less path repositions after seeing the next header at index `r` of a
      block of length `L` that started at `s`. `AsWritten` is the source's
      `seek(tell() - (BLOCK_SIZE - r))`, i.e. `s + L - 512 + r`; `Intended` is `s + r`,
      the first byte of that header whatever the block length. */
  datatype Rewind = AsWritten | Intended

  /** The inner extraction loop, started at device position `q` (just after the header's block). */
  datatype Extraction = Extraction(
    content: seq<byte>,  // bytes appended to the output file after the header block's tail
    next: nat,           // device position once the inner loop is left
    closed: bool,        // ended by a footer or a next header; false when the stream ran out
    last: nat,           // start of the block that closed the file
    mark: nat)           // device position of the footer or next header that closed it

  function Prepend(block: seq<byte>, x: Extraction): Extraction
  {
    x.(content := block + x.content)
  }

  /** None of the consecutive blocks read from `from` up to (not including) `to` contains `pat`. */
  predicate PatternFreeBlocks(d: seq<byte>, pat: seq<byte>, from: nat, to: nat)
    decreases to - from
  {
    from >= to || (Find(ReadAt(d, from, BLOCK_SIZE), pat) < 0 && PatternFreeBlocks(d, pat, from + BLOCK_SIZE, to))
  }

  /** An inner loop started at `q` stopped in the block read at `b`, a whole number of
      blocks later, at `m`, the first match of `pat` in that block; no block read before
      it held `pat`. */
  predicate StopsAt(d: seq<byte>, pat: seq<byte>, q: nat, b: nat, m: nat)
  {
    && q <= b < |d| && (b - q) % BLOCK_SIZE == 0
    && PatternFreeBlocks(d, pat, q, b)
    && m == b + Find(ReadAt(d, b, BLOCK_SIZE), pat)
    && MatchAt(d, pat, m)
  }

  /** The inner loop for a signature with a footer (selectRec.py:137-148). */
  function ExtractFooter(d: seq<byte>, footer: seq<byte>, footerLength: nat, q: nat): (x: Extraction)
    requires q <= |d|
    ensures q + |x.content| <= |d|
    ensures q <= x.next <= |d|
    ensures !x.closed ==> x.next == |d|
    ensures x.closed ==> q < |d|
    decreases |d| - q
  {
    var block := ReadAt(d, q, BLOCK_SIZE);
    if block == [] then Extraction([], q, false, q, q)
    else
      var e := Find(block, footer);
      if e >= 0 then
        Extraction(block[..Min(e + footerLength, |block|)], q + |block|, true, q, q + e)
      else
        var rest := ExtractFooter(d, footer, footerLength, q + |block|);
        Prepend(block, rest)
  }

  /** The inner loop for a footer-less signature (selectRec.py:149-157), with the rewind of `policy`. */
  function ExtractHeuristic(d: seq<byte>, header: seq<byte>, policy: Rewind, q: nat): (x: Extraction)
    requires q <= |d|
    requires q >= BLOCK_SIZE || q == |d|
    ensures q + |x.content| <= |d|
    ensures x.next <= |d|
    ensures !x.closed ==> x.next == |d|
    ensures x.closed ==> q < |d| && x.next + BLOCK_SIZE > q
    decreases |d| - q
  {
    var block := ReadAt(d, q, BLOCK_SIZE);
    if block == [] then Extraction([], q, false, q, q)
    else
      var r := Find(block, header);
      if r >= 0 then
        var next := if policy == AsWritten then q + |block| - (BLOCK_SIZE - r) else q + r;
        Extraction(block[..r], next, true, q, q + r)
      else
        var rest := ExtractHeuristic(d, header, policy, q + |block|);
        Prepend(block, rest)
  }

  /** The bytes a footer file gathers after its header block are the device bytes that follow. */
  lemma {:induction false} ExtractFooterSlice(d: seq<byte>, footer: seq<byte>, footerLength: nat, q: nat)
    requires q <= |d|
    ensures IsSliceAt(d, q, ExtractFooter(d, footer, footerLength, q).content)
    decreases |d| - q
  {
    var block := ReadAt(d, q, BLOCK_SIZE);
    if block != [] && Find(block, footer) < 0 {
      var rest := ExtractFooter(d, footer, footerLength, q + |block|);
      assert ExtractFooter(d, footer, footerLength, q) == Prepend(block, rest);
      ExtractFooterSlice(d, footer, footerLength, q + |block|);
      SliceAppend(d, q, block, rest.content);
    }
  }

  /** The bytes a footer-less file gathers after its header block are the device bytes that follow. */
  lemma {:induction false} ExtractHeuristicSlice(d: seq<byte>, header: seq<byte>, policy: Rewind, q: nat)
    requires q <= |d|
    requires q >= BLOCK_SIZE || q == |d|
    ensures IsSliceAt(d, q, ExtractHeuristic(d, header, policy, q).content)
    decreases |d| - q
  {
    var block := ReadAt(d, q, BLOCK_SIZE);
    if block != [] && Find(block, header) < 0 {
      var rest := ExtractHeuristic(d, header, policy, q + |block|);
      assert ExtractHeuristic(d, header, policy, q) == Prepend(block, rest);
      ExtractHeuristicSlice(d, header, policy, q + |block|);
      SliceAppend(d, q, block, rest.content);
    }
  }

  /** A footer file that runs into the end of the stream keeps every byte to the end of
      the device, and none of the blocks it read held the footer (selectRec.py:138-140). */
  lemma {:induction false} ExtractFooterRunsOut(d: seq<byte>, footer: seq<byte>, footerLength: nat, q: nat)
    requires q <= |d|
    requires !ExtractFooter(d, footer, footerLength, q).closed
    ensures q + |ExtractFooter(d, footer, footerLength, q).content| == |d|
    ensures PatternFreeBlocks(d, footer, q, |d|)
    decreases |d| - q
  {
    var block := ReadAt(d, q, BLOCK_SIZE);
    if block != [] {
      ExtractFooterRunsOut(d, footer, footerLength, q + |block|);
      assert |block| < BLOCK_SIZE ==> PatternFreeBlocks(d, footer, q + BLOCK_SIZE, |d|);
    }
  }

  /** A closed footer file ends exactly as the inner loop would if it were started at the
      block that closed it: the earlier blocks only contribute their bytes. */
  lemma {:induction false} ExtractFooterTail(d: seq<byte>, footer: seq<byte>, footerLength: nat, q: nat)
    requires q <= |d|
    requires ExtractFooter(d, footer, footerLength, q).closed
    ensures var x := ExtractFooter(d, footer, footerLength, q);
      && q <= x.last < |d|
      && var y := ExtractFooter(d, footer, footerLength, x.last);
      && y.closed && y.last == x.last && y.mark == x.mark && y.next == x.next
    decreases |d| - q
  {
    var block := ReadAt(d, q, BLOCK_SIZE);
    if Find(block, footer) < 0 {
      var q' := q + |block|;
      assert ExtractFooter(d, footer, footerLength, q) == Prepend(block, ExtractFooter(d, footer, footerLength, q'));
      ExtractFooterTail(d, footer, footerLength, q');
    }
  }

  /** The closing block is a whole number of 512-byte blocks after the start. */
  lemma {:induction false} ExtractFooterAligned(d: seq<byte>, footer: seq<byte>, footerLength: nat, q: nat)
    requires q <= |d|
    requires ExtractFooter(d, footer, footerLength, q).closed
    ensures var x := ExtractFooter(d, footer, footerLength, q);
      q <= x.last < |d| && (x.last - q) % BLOCK_SIZE == 0
    decreases |d| - q
  {
    var block := ReadAt(d, q, BLOCK_SIZE);
    if Find(block, footer) < 0 {
      var q' := q + |block|;
      var x := ExtractFooter(d, footer, footerLength, q');
      assert ExtractFooter(d, footer, footerLength, q) == Prepend(block, x);
      ExtractFooterAligned(d, footer, footerLength, q');
      assert |block| == BLOCK_SIZE;
      assert x.last - q == (x.last - q') + BLOCK_SIZE;
    }
  }

  /** A file closed by the very first block read holds the first footer match of that block. */
  lemma ExtractFooterClosesAtOnce(d: seq<byte>, footer: seq<byte>, footerLength: nat, q: nat)
    requires q <= |d|
    requires ExtractFooter(d, footer, footerLength, q).closed
    requires ExtractFooter(d, footer, footerLength, q).last == q
    ensures var x := ExtractFooter(d, footer, footerLength, q);
      && Find(ReadAt(d, q, BLOCK_SIZE), footer) >= 0
      && x.mark == q + Find(ReadAt(d, q, BLOCK_SIZE), footer)
      && x.next == q + |ReadAt(d, q, BLOCK_SIZE)|
  {
    var block := ReadAt(d, q, BLOCK_SIZE);
    if Find(block, footer) < 0 {
      var q' := q + |block|;
      ExtractFooterAligned(d, footer, footerLength, q');
      assert false;
    }
  }

  /** Every block read before the closing one lacks the footer. */
  lemma {:induction false} ExtractFooterSkipsFooterFree(d: seq<byte>, footer: seq<byte>, footerLength: nat, q: nat)
    requires q <= |d|
    requires ExtractFooter(d, footer, footerLength, q).closed
    ensures PatternFreeBlocks(d, footer, q, ExtractFooter(d, footer, footerLength, q).last)
    decreases |d| - q
  {
    var block := ReadAt(d, q, BLOCK_SIZE);
    if Find(block, footer) < 0 {
      var q' := q + |block|;
      assert ExtractFooter(d, footer, footerLength, q) == Prepend(block, ExtractFooter(d, footer, footerLength, q'));
      ExtractFooterSkipsFooterFree(d, footer, footerLength, q');
      assert |block| == BLOCK_SIZE;
    }
  }

  /** How much a closed footer file keeps: up to `footerLength` bytes past the footer match,
      cut at the end of the closing block (Python's slice `block[:end_pos + footer_length]`). */
  lemma {:induction false} ExtractFooterKeeps(d: seq<byte>, footer: seq<byte>, footerLength: nat, q: nat)
    requires q <= |d|
    requires ExtractFooter(d, footer, footerLength, q).closed
    ensures var x := ExtractFooter(d, footer, footerLength, q);
      q + |x.content| == Min(x.mark + footerLength, x.next)
    decreases |d| - q
  {
    var block := ReadAt(d, q, BLOCK_SIZE);
    if Find(block, footer) < 0 {
      var q' := q + |block|;
      assert ExtractFooter(d, footer, footerLength, q) == Prepend(block, ExtractFooter(d, footer, footerLength, q'));
      ExtractFooterKeeps(d, footer, footerLength, q');
    }
  }

  /** A footer file is closed by the first footer match of the first block (read after the
      header's block) that holds one: it keeps `footerLength` bytes from that match, cut at
      the end of the block, and the rest of the block is consumed (selectRec.py:142-146). */
  lemma ExtractFooterCloses(d: seq<byte>, footer: seq<byte>, footerLength: nat, q: nat)
    requires q <= |d|
    requires ExtractFooter(d, footer, footerLength, q).closed
    ensures var x := ExtractFooter(d, footer, footerLength, q);
      && StopsAt(d, footer, q, x.last, x.mark) && x.last <= x.mark
      && x.next == x.last + |ReadAt(d, x.last, BLOCK_SIZE)|
      && x.mark + |footer| <= x.next
      && q + |x.content| == Min(x.mark + footerLength, x.next)
  {
    var x := ExtractFooter(d, footer, footerLength, q);
    ExtractFooterTail(d, footer, footerLength, q);
    ExtractFooterAligned(d, footer, footerLength, q);
    ExtractFooterClosesAtOnce(d, footer, footerLength, x.last);
    ExtractFooterSkipsFooterFree(d, footer, footerLength, q);
    ExtractFooterKeeps(d, footer, footerLength, q);
    MatchInBlock(d, x.last, BLOCK_SIZE, footer, x.mark - x.last);
  }

  /** A footer-less file that runs into the end of the stream keeps every byte to the end of
      the device, and none of the blocks it read held another header. */
  lemma {:induction false} ExtractHeuristicRunsOut(d: seq<byte>, header: seq<byte>, policy: Rewind, q: nat)
    requires q <= |d|
    requires q >= BLOCK_SIZE || q == |d|
    requires !ExtractHeuristic(d, header, policy, q).closed
    ensures q + |ExtractHeuristic(d, header, policy, q).content| == |d|
    ensures PatternFreeBlocks(d, header, q, |d|)
    decreases |d| - q
  {
    var block := ReadAt(d, q, BLOCK_SIZE);
    if block != [] {
      ExtractHeuristicRunsOut(d, header, policy, q + |block|);
      assert |block| < BLOCK_SIZE ==> PatternFreeBlocks(d, header, q + BLOCK_SIZE, |d|);
    }
  }

  /** A closed footer-less file ends exactly as the inner loop would if it were started at
      the block that closed it. */
  lemma {:induction false} ExtractHeuristicTail(d: seq<byte>, header: seq<byte>, policy: Rewind, q: nat)
    requires q <= |d|
    requires q >= BLOCK_SIZE || q == |d|
    requires ExtractHeuristic(d, header, policy, q).closed
    ensures var x := ExtractHeuristic(d, header, policy, q);
      && q <= x.last < |d|
      && var y := ExtractHeuristic(d, header, policy, x.last);
      && y.closed && y.last == x.last && y.mark == x.mark && y.next == x.next
    decreases |d| - q
  {
    var block := ReadAt(d, q, BLOCK_SIZE);
    if Find(block, header) < 0 {
      var q' := q + |block|;
      assert ExtractHeuristic(d, header, policy, q) == Prepend(block, ExtractHeuristic(d, header, policy, q'));
      ExtractHeuristicTail(d, header, policy, q');
    }
  }

  /** The closing block is a whole number of 512-byte blocks after the start. */
  lemma {:induction false} ExtractHeuristicAligned(d: seq<byte>, header: seq<byte>, policy: Rewind, q: nat)
    requires q <= |d|
    requires q >= BLOCK_SIZE || q == |d|
    requires ExtractHeuristic(d, header, policy, q).closed
    ensures var x := ExtractHeuristic(d, header, policy, q);
      q <= x.last < |d| && (x.last - q) % BLOCK_SIZE == 0
    decreases |d| - q
  {
    var block := ReadAt(d, q, BLOCK_SIZE);
    if Find(block, header) < 0 {
      var q' := q + |block|;
      var x := ExtractHeuristic(d, header, policy, q');
      assert ExtractHeuristic(d, header, policy, q) == Prepend(block, x);
      ExtractHeuristicAligned(d, header, policy, q');
      assert |block| == BLOCK_SIZE;
      assert x.last - q == (x.last - q') + BLOCK_SIZE;
    }
  }

  /** A file closed by the very first block read stops at the first header match of that block,
      and the rewind lands where `policy` says. */
  lemma ExtractHeuristicClosesAtOnce(d: seq<byte>, header: seq<byte>, policy: Rewind, q: nat)
    requires q <= |d|
    requires q >= BLOCK_SIZE || q == |d|
    requires ExtractHeuristic(d, header, policy, q).closed
    requires ExtractHeuristic(d, header, policy, q).last == q
    ensures var x := ExtractHeuristic(d, header, policy, q);
      && Find(ReadAt(d, q, BLOCK_SIZE), header) >= 0
      && x.mark == q + Find(ReadAt(d, q, BLOCK_SIZE), header)
      && (policy == Intended ==> x.next == x.mark)
      && (policy == AsWritten ==> x.next == x.mark - (BLOCK_SIZE - |ReadAt(d, q, BLOCK_SIZE)|))
  {
    var block := ReadAt(d, q, BLOCK_SIZE);
    if Find(block, header) < 0 {
      var q' := q + |block|;
      ExtractHeuristicAligned(d, header, policy, q');
      assert false;
    }
  }

  /** A footer-less file stops just before the first header of the first later block that
      holds one. The source's rewind lands on that header only when the block was a full
      512 bytes, and `512 - L` bytes before it for a short final block of length `L`;
      the intended rewind always lands on it (selectRec.py:151-155). */
  lemma ExtractHeuristicCloses(d: seq<byte>, header: seq<byte>, policy: Rewind, q: nat)
    requires q <= |d|
    requires q >= BLOCK_SIZE || q == |d|
    requires ExtractHeuristic(d, header, policy, q).closed
    ensures var x := ExtractHeuristic(d, header, policy, q);
      && StopsAt(d, header, q, x.last, x.mark)
      && q + |x.content| == x.mark
      && (policy == Intended ==> x.next == x.mark)
      && (policy == AsWritten ==> x.next == x.mark - (BLOCK_SIZE - |ReadAt(d, x.last, BLOCK_SIZE)|))
  {
    var x := ExtractHeuristic(d, header, policy, q);
    ExtractHeuristicTail(d, header, policy, q);
    ExtractHeuristicClosesAtOnce(d, header, policy, x.last);
    ExtractHeuristicStops(d, header, policy, q);
  }

  /** Where a closed footer-less file stops, and that it keeps everything before. */
  lemma {:induction false} ExtractHeuristicStops(d: seq<byte>, header: seq<byte>, policy: Rewind, q: nat)
    requires q <= |d|
    requires q >= BLOCK_SIZE || q == |d|
    requires ExtractHeuristic(d, header, policy, q).closed
    ensures var x := ExtractHeuristic(d, header, policy, q);
      StopsAt(d, header, q, x.last, x.mark) && q + |x.content| == x.mark
    decreases |d| - q
  {
    var block := ReadAt(d, q, BLOCK_SIZE);
    var r := Find(block, header);
    if r >= 0 {
      StopsAtFirstMatch(d, header, q, q, q + r);
    } else {
      var q' := q + |block|;
      var rest := ExtractHeuristic(d, header, policy, q');
      assert ExtractHeuristic(d, header, policy, q) == Prepend(block, rest);
      ExtractHeuristicStops(d, header, policy, q');
      assert |block| == BLOCK_SIZE;
      StopsAfterHeaderFreeBlock(d, header, q, q', rest.last, rest.mark);
    }
  }

  /** Stopping after a block without `pat` is stopping from that block on. */
  lemma StopsAfterHeaderFreeBlock(d: seq<byte>, pat: seq<byte>, q: nat, q': nat, b: nat, m: nat)
    requires q' == q + BLOCK_SIZE && StopsAt(d, pat, q', b, m) && Find(ReadAt(d, q, BLOCK_SIZE), pat) < 0
    ensures StopsAt(d, pat, q, b, m)
  {
  }

  /** A block a whole number of blocks after `q`, preceded only by blocks without `pat`,
      whose first match of `pat` is at `m`, is where the inner loop stops. */
  lemma StopsAtFirstMatch(d: seq<byte>, pat: seq<byte>, q: nat, b: nat, m: nat)
    requires q <= b < |d| && (b - q) % BLOCK_SIZE == 0
    requires PatternFreeBlocks(d, pat, q, b)
    requires Find(ReadAt(d, b, BLOCK_SIZE), pat) >= 0 && m == b + Find(ReadAt(d, b, BLOCK_SIZE), pat)
    ensures StopsAt(d, pat, q, b, m)
  {
    MatchInBlock(d, b, BLOCK_SIZE, pat, m - b);
  }

  /** When the block that held the next header was a full 512 bytes, the rewind puts the
      cursor on that header's first byte and the next outer read finds it at index 0. */
  lemma RewindOnFullBlockFindsHeaderAtZero(d: seq<byte>, header: seq<byte>, q: nat)
    requires q <= |d|
    requires q >= BLOCK_SIZE || q == |d|
    requires |header| <= BLOCK_SIZE
    requires ExtractHeuristic(d, header, AsWritten, q).closed
    requires |ReadAt(d, ExtractHeuristic(d, header, AsWritten, q).last, BLOCK_SIZE)| == BLOCK_SIZE
    ensures var x := ExtractHeuristic(d, header, AsWritten, q);
      x.next == x.mark && Find(ReadAt(d, x.next, BLOCK_SIZE), header) == 0
  {
    ExtractHeuristicCloses(d, header, AsWritten, q);
    var x := ExtractHeuristic(d, header, AsWritten, q);
    MatchInBlock(d, x.next, BLOCK_SIZE, header, 0);
  }

  /** The inner loop of `recover_files` for `sig`, started at `q`. */
  function Extract(d: seq<byte>, sig: Signature, policy: Rewind, q: nat): (x: Extraction)
    requires q <= |d|
    requires q >= BLOCK_SIZE || q == |d|
    ensures q + |x.content| <= |d|
    ensures x.next <= |d|
    ensures !x.closed ==> x.next == |d|
    ensures x.closed ==> q < |d| && x.next + BLOCK_SIZE > q
    ensures sig.WithFooter? ==> x.next >= q
  {
    match sig
    case WithFooter(_, footer, footerLength, _) => ExtractFooter(d, footer, footerLength, q)
    case Heuristic(header, _) => ExtractHeuristic(d, header, policy, q)
  }

  lemma ExtractSlice(d: seq<byte>, sig: Signature, policy: Rewind, q: nat)
    requires q <= |d|
    requires q >= BLOCK_SIZE || q == |d|
    ensures IsSliceAt(d, q, Extract(d, sig, policy, q).content)
  {
    match sig
    case WithFooter(_, footer, footerLength, _) => ExtractFooterSlice(d, footer, footerLength, q);
    case Heuristic(header, _) => ExtractHeuristicSlice(d, header, policy, q);
  }

  /** What ended a file: the stream running out, or a footer (or next header) found at
      device position `at` in the block read at `block`. */
  datatype Terminator = RanOut | ClosedBy(block: nat, at: nat)

  /** A recovered file: where its header was found, its bytes, what ended it, and where
      the outer scan resumed afterwards. */
  datatype Carved = Carved(offset: nat, bytes: seq<byte>, end: Terminator, resume: nat)

  datatype Step = Step(file: Option<Carved>, next: nat)

  /** One iteration of the outer `while block:` loop, for the block read at `p`. */
  function ScanStep(d: seq<byte>, sig: Signature, policy: Rewind, p: nat): (s: Step)
    requires p < |d|
    ensures p < s.next <= |d|
    ensures s.file.Some? ==>
      && s.file.value.offset >= p
      && s.file.value.offset + |s.file.value.bytes| <= |d|
      && s.file.value.resume == s.next
  {
    var block := ReadAt(d, p, BLOCK_SIZE);
    var h := Find(block, sig.header);
    if h < 0 then Step(None, p + |block|)
    else
      var q := p + |block|;
      var x := Extract(d, sig, policy, q);
      var c := Carved(p + h, block[h..] + x.content, if x.closed then ClosedBy(x.last, x.mark) else RanOut, x.next);
      Step(Some(c), x.next)
  }

  /** A carved file is a run of consecutive device bytes starting at its header. */
  lemma StepSlice(d: seq<byte>, sig: Signature, policy: Rewind, p: nat)
    requires p < |d|
    ensures var s := ScanStep(d, sig, policy, p);
      s.file.Some? ==> IsSliceAt(d, s.file.value.offset, s.file.value.bytes)
  {
    var block := ReadAt(d, p, BLOCK_SIZE);
    var h := Find(block, sig.header);
    if h >= 0 {
      var q := p + |block|;
      var x := Extract(d, sig, policy, q);
      ExtractSlice(d, sig, policy, q);
      SliceTailConcat(d, p, h, q, block, x.content);
      assert ScanStep(d, sig, policy, p).file.value.bytes == block[h..] + x.content;
    }
  }

  /** The outer loop sees only the first header of each block: a block without one is
      skipped whole, otherwise the file starts at the block's first match (selectRec.py:119-121). */
  lemma ScanStepFirstHeader(d: seq<byte>, sig: Signature, policy: Rewind, p: nat)
    requires p < |d|
    ensures var s := ScanStep(d, sig, policy, p);
      var block := ReadAt(d, p, BLOCK_SIZE);
      && (s.file.None? <==> forall j :: !MatchAt(block, sig.header, j))
      && (s.file.None? ==> s.next == p + |block|)
      && (s.file.Some? ==>
            && MatchAt(d, sig.header, s.file.value.offset)
            && s.file.value.offset + |sig.header| <= p + |block|
            && (forall j :: 0 <= j < s.file.value.offset - p ==> !MatchAt(block, sig.header, j))
            && s.file.value.resume == s.next)
  {
    var block := ReadAt(d, p, BLOCK_SIZE);
    var h := Find(block, sig.header);
    FindSpec(block, sig.header);
    if h >= 0 {
      MatchInBlock(d, p, BLOCK_SIZE, sig.header, h);
    }
  }

  /** How a carved file is assembled from the header's block and the inner loop's result. */
  lemma ScanStepParts(d: seq<byte>, sig: Signature, policy: Rewind, p: nat)
    requires p < |d|
    requires ScanStep(d, sig, policy, p).file.Some?
    ensures var c := ScanStep(d, sig, policy, p).file.value;
      var q := p + |ReadAt(d, p, BLOCK_SIZE)|;
      var x := Extract(d, sig, policy, q);
      && c.offset < q && c.offset + |c.bytes| == q + |x.content|
      && c.resume == x.next
      && (c.end.RanOut? <==> !x.closed)
      && (c.end.ClosedBy? ==> c.end.block == x.last && c.end.at == x.mark)
  {
  }

  /** A file of a footer format that finds its footer: the header's own block is never
      searched; the file ends `footerLength` bytes past the first footer match of the first
      later block holding one, cut at that block's end, and the scan resumes right after
      that block, dropping the rest of it (selectRec.py:134-146, 164). */
  lemma FooterFileClosed(d: seq<byte>, sig: Signature, policy: Rewind, p: nat)
    requires p < |d|
    requires sig.WithFooter?
    requires ScanStep(d, sig, policy, p).file.Some?
    requires ScanStep(d, sig, policy, p).file.value.end.ClosedBy?
    ensures var c := ScanStep(d, sig, policy, p).file.value;
      var q := p + |ReadAt(d, p, BLOCK_SIZE)|;
      var b, m := c.end.block, c.end.at;
      && StopsAt(d, sig.footer, q, b, m)
      && c.resume == b + |ReadAt(d, b, BLOCK_SIZE)|
      && c.offset + |c.bytes| == Min(m + sig.footerLength, c.resume)
  {
    var q := p + |ReadAt(d, p, BLOCK_SIZE)|;
    ScanStepParts(d, sig, policy, p);
    assert Extract(d, sig, policy, q) == ExtractFooter(d, sig.footer, sig.footerLength, q);
    ExtractFooterCloses(d, sig.footer, sig.footerLength, q);
  }

  /** A file of a footer format that never finds its footer holds every byte from its
      header to the end of the device, and is still a recovered file (selectRec.py:138-140, 159-162). */
  lemma FooterFileRunsOut(d: seq<byte>, sig: Signature, policy: Rewind, p: nat)
    requires p < |d|
    requires sig.WithFooter?
    requires ScanStep(d, sig, policy, p).file.Some?
    requires ScanStep(d, sig, policy, p).file.value.end.RanOut?
    ensures var c := ScanStep(d, sig, policy, p).file.value;
      && c.offset + |c.bytes| == |d| && c.resume == |d|
      && PatternFreeBlocks(d, sig.footer, p + |ReadAt(d, p, BLOCK_SIZE)|, |d|)
  {
    var q := p + |ReadAt(d, p, BLOCK_SIZE)|;
    ScanStepParts(d, sig, policy, p);
    assert Extract(d, sig, policy, q) == ExtractFooter(d, sig.footer, sig.footerLength, q);
    ExtractFooterRunsOut(d, sig.footer, sig.footerLength, q);
  }

  /** A file of a footer-less format that meets another header: it ends just before the
      first header of the first later block holding one, and the scan resumes where
      `policy` rewinds to (selectRec.py:149-155). */
  lemma HeuristicFileClosed(d: seq<byte>, sig: Signature, policy: Rewind, p: nat)
    requires p < |d|
    requires sig.Heuristic?
    requires ScanStep(d, sig, policy, p).file.Some?
    requires ScanStep(d, sig, policy, p).file.value.end.ClosedBy?
    ensures var c := ScanStep(d, sig, policy, p).file.value;
      var q := p + |ReadAt(d, p, BLOCK_SIZE)|;
      var b, m := c.end.block, c.end.at;
      && StopsAt(d, sig.header, q, b, m)
      && c.offset + |c.bytes| == m
      && (policy == Intended ==> c.resume == m)
      && (policy == AsWritten ==> c.resume == m - (BLOCK_SIZE - |ReadAt(d, b, BLOCK_SIZE)|))
  {
    var q := p + |ReadAt(d, p, BLOCK_SIZE)|;
    ScanStepParts(d, sig, policy, p);
    assert Extract(d, sig, policy, q) == ExtractHeuristic(d, sig.header, policy, q);
    ExtractHeuristicCloses(d, sig.header, policy, q);
  }

  /** A file of a footer-less format that meets no other header holds every byte from its
      header to the end of the device (selectRec.py:138-140, 159-162). */
  lemma HeuristicFileRunsOut(d: seq<byte>, sig: Signature, policy: Rewind, p: nat)
    requires p < |d|
    requires sig.Heuristic?
    requires ScanStep(d, sig, policy, p).file.Some?
    requires ScanStep(d, sig, policy, p).file.value.end.RanOut?
    ensures var c := ScanStep(d, sig, policy, p).file.value;
      && c.offset + |c.bytes| == |d| && c.resume == |d|
      && PatternFreeBlocks(d, sig.header, p + |ReadAt(d, p, BLOCK_SIZE)|, |d|)
  {
    var q := p + |ReadAt(d, p, BLOCK_SIZE)|;
    ScanStepParts(d, sig, policy, p);
    assert Extract(d, sig, policy, q) == ExtractHeuristic(d, sig.header, policy, q);
    ExtractHeuristicRunsOut(d, sig.header, policy, q);
  }

  /** The files carved by the outer loop from position `p` on, in the order they are written. */
  function PassFrom(d: seq<byte>, sig: Signature, policy: Rewind, p: nat): (files: seq<Carved>)
    ensures forall k :: 0 <= k < |files| ==>
      && p <= files[k].offset
      && files[k].offset + |files[k].bytes| <= |d|
    decreases |d| - p
  {
    if p >= |d| then []
    else
      var s := ScanStep(d, sig, policy, p);
      (if s.file.Some? then [s.file.value] else []) + PassFrom(d, sig, policy, s.next)
  }

  /** `recover_files(disk, signature, ...)`: the pass starts with `disk.seek(0)`. */
  function Pass(d: seq<byte>, sig: Signature, policy: Rewind): (files: seq<Carved>)
    ensures forall k :: 0 <= k < |files| ==> files[k].offset + |files[k].bytes| <= |d|
  {
    PassFrom(d, sig, policy, 0)
  }

  /** Every file starts at or after the point where the scan resumed after each earlier file. */
  predicate ResumedBeforeLater(files: seq<Carved>)
  {
    forall i, j :: 0 <= i < j < |files| ==> files[i].resume <= files[j].offset
  }

  /** The scan resumed after each file's header. */
  predicate ResumedPastHeaders(files: seq<Carved>)
  {
    forall k :: 0 <= k < |files| ==> files[k].offset < files[k].resume
  }

  /** Files start at strictly increasing offsets, so no header is carved twice. */
  predicate OffsetsIncrease(files: seq<Carved>)
  {
    forall i, j :: 0 <= i < j < |files| ==> files[i].offset < files[j].offset
  }

  /** The scan after a file resumes where that file's extraction left the device, so every
      later file starts at or after it (selectRec.py:164). */
  lemma {:induction false} PassFromResumes(d: seq<byte>, sig: Signature, policy: Rewind, p: nat)
    ensures ResumedBeforeLater(PassFrom(d, sig, policy, p))
    decreases |d| - p
  {
    if p < |d| {
      var s := ScanStep(d, sig, policy, p);
      var files, rest := PassFrom(d, sig, policy, p), PassFrom(d, sig, policy, s.next);
      PassFromResumes(d, sig, policy, s.next);
      if s.file.Some? {
        assert files == [s.file.value] + rest;
        forall i, j | 0 <= i < j < |files| ensures files[i].resume <= files[j].offset {
          assert files[j] == rest[j - 1];
          if i > 0 {
            assert files[i] == rest[i - 1];
          }
        }
      } else {
        assert files == rest;
      }
    }
  }

  /** A footer file, or a footer-less one under the intended rewind, is resumed after its
      header: the footer search starts after the header's block, and the intended rewind
      lands on the next header, which lies in a later block. */
  lemma StepResumesPastHeader(d: seq<byte>, sig: Signature, policy: Rewind, p: nat)
    requires p < |d|
    requires sig.WithFooter? || policy == Intended
    requires ScanStep(d, sig, policy, p).file.Some?
    ensures ScanStep(d, sig, policy, p).file.value.offset < ScanStep(d, sig, policy, p).file.value.resume
  {
    var q := p + |ReadAt(d, p, BLOCK_SIZE)|;
    ScanStepParts(d, sig, policy, p);
    if sig.Heuristic? && ExtractHeuristic(d, sig.header, policy, q).closed {
      ExtractHeuristicCloses(d, sig.header, policy, q);
    }
  }

  lemma {:induction false} PassFromResumesPastHeaders(d: seq<byte>, sig: Signature, policy: Rewind, p: nat)
    requires sig.WithFooter? || policy == Intended
    ensures ResumedPastHeaders(PassFrom(d, sig, policy, p))
    decreases |d| - p
  {
    if p < |d| {
      var s := ScanStep(d, sig, policy, p);
      var files, rest := PassFrom(d, sig, policy, p), PassFrom(d, sig, policy, s.next);
      PassFromResumesPastHeaders(d, sig, policy, s.next);
      if s.file.Some? {
        StepResumesPastHeader(d, sig, policy, p);
        assert files == [s.file.value] + rest;
        forall k | 0 <= k < |files| ensures files[k].offset < files[k].resume {
          if k > 0 {
            assert files[k] == rest[k - 1];
          }
        }
      } else {
        assert files == rest;
      }
    }
  }

  /** For a footer format, and for a footer-less one once the rewind lands on the next
      header, the files of a pass start at strictly increasing offsets: no header is
      carved twice. */
  lemma PassOffsetsIncrease(d: seq<byte>, sig: Signature, policy: Rewind)
    requires sig.WithFooter? || policy == Intended
    ensures OffsetsIncrease(Pass(d, sig, policy))
  {
    var files := Pass(d, sig, policy);
    PassFromResumes(d, sig, policy, 0);
    PassFromResumesPastHeaders(d, sig, policy, 0);
    forall i, j | 0 <= i < j < |files| ensures files[i].offset < files[j].offset {
      assert files[i].offset < files[i].resume <= files[j].offset;
    }
  }

  /** A pass from `p` carves nothing exactly when none of the 512-byte blocks read from `p`
      to the end of the device holds the header (selectRec.py:119-121, 164). */
  lemma {:induction false} PassFromEmptyIffNoHeader(d: seq<byte>, sig: Signature, policy: Rewind, p: nat)
    ensures PassFrom(d, sig, policy, p) == [] <==> PatternFreeBlocks(d, sig.header, p, |d|)
    decreases |d| - p
  {
    if p < |d| {
      var block := ReadAt(d, p, BLOCK_SIZE);
      var s := ScanStep(d, sig, policy, p);
      if Find(block, sig.header) < 0 {
        PassFromEmptyIffNoHeader(d, sig, policy, s.next);
      }
    }
  }

  /** A device on which the header never occurs yields no file. */
  lemma NoHeaderNoFiles(d: seq<byte>, sig: Signature, policy: Rewind)
    requires forall j :: !MatchAt(d, sig.header, j)
    ensures Pass(d, sig, policy) == []
  {
    NoHeaderBlocks(d, sig.header, 0);
    PassFromEmptyIffNoHeader(d, sig, policy, 0);
  }

  lemma {:induction false} NoHeaderBlocks(d: seq<byte>, pat: seq<byte>, p: nat)
    requires forall j :: !MatchAt(d, pat, j)
    ensures PatternFreeBlocks(d, pat, p, |d|)
    decreases |d| - p
  {
    if p < |d| {
      var block := ReadAt(d, p, BLOCK_SIZE);
      var r := Find(block, pat);
      if r >= 0 {
        MatchInBlock(d, p, BLOCK_SIZE, pat, r);
        assert false;
      }
      NoHeaderBlocks(d, pat, p + BLOCK_SIZE);
    }
  }
}
