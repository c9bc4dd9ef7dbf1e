/** The consolidated carving engine: `recover_files` and the counter threading of `main`
    (selectRec.py). Output files are records in the engine's state instead of writes to
    disk, and each freshly created group directory is identified by the number of groups
    opened before it instead of a random UUID. */
module CarvingEngine {
  import opened Bytes
  import opened BlockDevice
  import opened Signatures
  import opened CarvingSpec
  import opened Naming

  /** Files written to one group directory before a new one is opened. */
  const FILES_PER_FOLDER: nat := 4

  /** A file written by the engine: its group directory, the counter and extension its
      name is made of, and its bytes. */
  datatype Recovered = Recovered(group: nat, counter: nat, extension: string, bytes: seq<byte>)

  /** The file's name inside its group directory, `f"{file_counter}.{extension}"`. */
  function Name(r: Recovered): string
  {
    FileName(r.counter, r.extension)
  }

  /** File `k` of a run (counting from 0) lies in group `k / 4` and carries counter `k + 1`. */
  predicate WellNumbered(output: seq<Recovered>)
  {
    forall k :: 0 <= k < |output| ==>
      output[k].group == k / FILES_PER_FOLDER && output[k].counter == k + 1
  }

  lemma AppendWellNumbered(output: seq<Recovered>, r: Recovered)
    requires WellNumbered(output)
    requires r.group == |output| / FILES_PER_FOLDER && r.counter == |output| + 1
    ensures WellNumbered(output + [r])
  {
  }

  /** A new group is opened exactly when the file count is a multiple of four. */
  lemma GroupArithmetic(n: nat)
    ensures n % FILES_PER_FOLDER == 0 ==>
      (n + FILES_PER_FOLDER) / FILES_PER_FOLDER == (n + FILES_PER_FOLDER - 1) / FILES_PER_FOLDER + 1
      && (n + FILES_PER_FOLDER - 1) / FILES_PER_FOLDER == n / FILES_PER_FOLDER
    ensures n % FILES_PER_FOLDER != 0 ==>
      (n + FILES_PER_FOLDER) / FILES_PER_FOLDER == (n + FILES_PER_FOLDER - 1) / FILES_PER_FOLDER
      && (n + FILES_PER_FOLDER - 1) / FILES_PER_FOLDER - 1 == n / FILES_PER_FOLDER
  {
  }

  /** The record of the file written when `k` files were already written: group `k / 4`,
      counter `k + 1`. */
  function Record(k: nat, extension: string, bytes: seq<byte>): (r: Recovered)
    ensures r.group * FILES_PER_FOLDER <= k < (r.group + 1) * FILES_PER_FOLDER
    ensures r.counter == k + 1 && r.extension == extension && r.bytes == bytes
  {
    Recovered(k / FILES_PER_FOLDER, k + 1, extension, bytes)
  }

  /** The records written for `files`, carved for `extension`, when `start` files were
      written before them. */
  function Label(files: seq<Carved>, start: nat, extension: string): (out: seq<Recovered>)
    ensures |out| == |files|
  {
    if files == [] then []
    else
      var k := |files| - 1;
      Label(files[..k], start, extension) + [Record(start + k, extension, files[k].bytes)]
  }

  lemma LabelSnoc(files: seq<Carved>, c: Carved, start: nat, extension: string)
    ensures Label(files + [c], start, extension)
         == Label(files, start, extension) + [Record(start + |files|, extension, c.bytes)]
  {
    assert (files + [c])[..|files|] == files;
  }

  /** Numbering continues across the records of another pass. */
  lemma {:induction false} LabelWellNumbered(prev: seq<Recovered>, files: seq<Carved>, extension: string)
    requires WellNumbered(prev)
    ensures WellNumbered(prev + Label(files, |prev|, extension))
  {
    if files != [] {
      var k := |files| - 1;
      LabelWellNumbered(prev, files[..k], extension);
      AppendWellNumbered(prev + Label(files[..k], |prev|, extension), Record(|prev| + k, extension, files[k].bytes));
      Associative(prev, Label(files[..k], |prev|, extension), [Record(|prev| + k, extension, files[k].bytes)]);
    }
  }

  /** Everything `main` writes for the signatures `sigs`, one pass each, in order, with the
      counters carried from one pass to the next. */
  function Recovery(d: seq<byte>, sigs: seq<Signature>, policy: Rewind): seq<Recovered>
  {
    if sigs == [] then []
    else
      var before := Recovery(d, sigs[..|sigs| - 1], policy);
      before + Label(Pass(d, sigs[|sigs| - 1], policy), |before|, sigs[|sigs| - 1].extension)
  }

  /** The number of files the passes over `sigs` find, `total_recovered`. */
  function TotalFound(d: seq<byte>, sigs: seq<Signature>, policy: Rewind): nat
  {
    if sigs == [] then 0
    else TotalFound(d, sigs[..|sigs| - 1], policy) + |Pass(d, sigs[|sigs| - 1], policy)|
  }

  /** `total_recovered` counts exactly the files written. */
  lemma {:induction false} RecoveryCountsPasses(d: seq<byte>, sigs: seq<Signature>, policy: Rewind)
    ensures |Recovery(d, sigs, policy)| == TotalFound(d, sigs, policy)
  {
    if sigs != [] {
      RecoveryCountsPasses(d, sigs[..|sigs| - 1], policy);
    }
  }

  /** Across all passes, file `k` lies in group `k / 4` and is named after counter `k + 1`. */
  lemma {:induction false} RecoveryWellNumbered(d: seq<byte>, sigs: seq<Signature>, policy: Rewind)
    ensures WellNumbered(Recovery(d, sigs, policy))
  {
    if sigs != [] {
      RecoveryWellNumbered(d, sigs[..|sigs| - 1], policy);
      LabelWellNumbered(Recovery(d, sigs[..|sigs| - 1], policy), Pass(d, sigs[|sigs| - 1], policy), sigs[|sigs| - 1].extension);
    }
  }

  /** No two files written by a run share a name, so none overwrites another, and no
      group directory receives more than four of them. */
  lemma RecoveryNamesDistinct(d: seq<byte>, sigs: seq<Signature>, policy: Rewind, i: nat, j: nat)
    requires i < j < |Recovery(d, sigs, policy)|
    ensures Name(Recovery(d, sigs, policy)[i]) != Name(Recovery(d, sigs, policy)[j])
    ensures Recovery(d, sigs, policy)[i].group == Recovery(d, sigs, policy)[j].group ==> j - i < FILES_PER_FOLDER
  {
    var out := Recovery(d, sigs, policy);
    RecoveryWellNumbered(d, sigs, policy);
    if Name(out[i]) == Name(out[j]) {
      FileNameInjective(out[i].counter, out[i].extension, out[j].counter, out[j].extension);
    }
  }

  /** A device on which no signature's header occurs yields no file at all. */
  lemma {:induction false} RecoveryWithoutHeaders(d: seq<byte>, sigs: seq<Signature>, policy: Rewind)
    requires forall s, j :: s in sigs ==> !MatchAt(d, s.header, j)
    ensures Recovery(d, sigs, policy) == []
  {
    if sigs != [] {
      RecoveryWithoutHeaders(d, sigs[..|sigs| - 1], policy);
      NoHeaderNoFiles(d, sigs[|sigs| - 1], policy);
    }
  }

  /** A block without the header is skipped whole. */
  lemma StepWithoutHeader(d: seq<byte>, sig: Signature, policy: Rewind, p: nat)
    requires p < |d| && Find(ReadAt(d, p, BLOCK_SIZE), sig.header) < 0
    ensures PassFrom(d, sig, policy, p) == PassFrom(d, sig, policy, p + |ReadAt(d, p, BLOCK_SIZE)|)
  {
  }

  /** A block with the header yields one file: the block's tail from the first match and
      what the inner loop gathers after it. */
  lemma StepWithHeader(d: seq<byte>, sig: Signature, policy: Rewind, p: nat)
    requires p < |d| && Find(ReadAt(d, p, BLOCK_SIZE), sig.header) >= 0
    ensures var block := ReadAt(d, p, BLOCK_SIZE);
      var x := Extract(d, sig, policy, p + |block|);
      var s := ScanStep(d, sig, policy, p);
      && s.file.Some?
      && s.file.value.bytes == block[Find(block, sig.header)..] + x.content
      && s.next == x.next
      && PassFrom(d, sig, policy, p) == [s.file.value] + PassFrom(d, sig, policy, s.next)
  {
  }

  lemma Associative<T>(a: seq<T>, b: seq<T>, c: seq<T>)
    ensures a + (b + c) == (a + b) + c
  {
  }

  lemma PrependTwice(a: seq<byte>, b: seq<byte>, x: Extraction)
    ensures Prepend(a, Prepend(b, x)) == Prepend(a + b, x)
  {
    assert a + (b + x.content) == (a + b) + x.content;
  }

  lemma FooterRoundContinues(d: seq<byte>, footer: seq<byte>, footerLength: nat, c: nat, tail: seq<byte>, x: Extraction)
    requires c < |d|
    requires x == Prepend(tail, ExtractFooter(d, footer, footerLength, c))
    requires Find(ReadAt(d, c, BLOCK_SIZE), footer) < 0
    ensures var block := ReadAt(d, c, BLOCK_SIZE);
      x == Prepend(tail + block, ExtractFooter(d, footer, footerLength, c + |block|))
  {
    var block := ReadAt(d, c, BLOCK_SIZE);
    PrependTwice(tail, block, ExtractFooter(d, footer, footerLength, c + |block|));
  }

  lemma FooterRoundStops(d: seq<byte>, footer: seq<byte>, footerLength: nat, c: nat, tail: seq<byte>, x: Extraction)
    requires c < |d|
    requires x == Prepend(tail, ExtractFooter(d, footer, footerLength, c))
    requires Find(ReadAt(d, c, BLOCK_SIZE), footer) >= 0
    ensures var block := ReadAt(d, c, BLOCK_SIZE);
      var e := Find(block, footer);
      x.content == tail + block[..Min(e + footerLength, |block|)] && x.next == c + |block| && x.closed
  {
  }

  lemma HeaderRoundContinues(d: seq<byte>, header: seq<byte>, policy: Rewind, c: nat, tail: seq<byte>, x: Extraction)
    requires BLOCK_SIZE <= c < |d|
    requires x == Prepend(tail, ExtractHeuristic(d, header, policy, c))
    requires Find(ReadAt(d, c, BLOCK_SIZE), header) < 0
    ensures var block := ReadAt(d, c, BLOCK_SIZE);
      x == Prepend(tail + block, ExtractHeuristic(d, header, policy, c + |block|))
  {
    var block := ReadAt(d, c, BLOCK_SIZE);
    PrependTwice(tail, block, ExtractHeuristic(d, header, policy, c + |block|));
  }

  lemma HeaderRoundStops(d: seq<byte>, header: seq<byte>, policy: Rewind, c: nat, tail: seq<byte>, x: Extraction)
    requires BLOCK_SIZE <= c < |d|
    requires x == Prepend(tail, ExtractHeuristic(d, header, policy, c))
    requires Find(ReadAt(d, c, BLOCK_SIZE), header) >= 0
    ensures var block := ReadAt(d, c, BLOCK_SIZE);
      var r := Find(block, header);
      && x.content == tail + block[..r]
      && x.next == if policy == AsWritten then c + |block| - (BLOCK_SIZE - r) else c + r
  {
  }

  /** The file one outer iteration carves, as a sequence of zero or one. */
  function Found(s: Step): seq<Carved>
  {
    if s.file.Some? then [s.file.value] else []
  }

  /** The record one outer iteration writes, when `start` files were written before. */
  function Emitted(s: Step, start: nat, extension: string): seq<Recovered>
  {
    if s.file.Some? then [Record(start, extension, s.file.value.bytes)] else []
  }

  /** The bookkeeping of one outer iteration: the carved file joins those already done,
      and its record joins those already written. */
  lemma PassStep(d: seq<byte>, sig: Signature, policy: Rewind, p: nat, done: seq<Carved>,
                 prev: seq<Recovered>, start: nat, before: seq<Recovered>, after: seq<Recovered>)
    requires p < |d|
    requires Pass(d, sig, policy) == done + PassFrom(d, sig, policy, p)
    requires before == prev + Label(done, start, sig.extension) && |prev| == start
    requires after == before + Emitted(ScanStep(d, sig, policy, p), |before|, sig.extension)
    ensures var s := ScanStep(d, sig, policy, p);
      && Pass(d, sig, policy) == (done + Found(s)) + PassFrom(d, sig, policy, s.next)
      && after == prev + Label(done + Found(s), start, sig.extension)
      && |done + Found(s)| == |done| + (if s.file.Some? then 1 else 0)
  {
    var s := ScanStep(d, sig, policy, p);
    assert PassFrom(d, sig, policy, p) == Found(s) + PassFrom(d, sig, policy, s.next);
    Associative(done, Found(s), PassFrom(d, sig, policy, s.next));
    if s.file.Some? {
      LabelSnoc(done, s.file.value, start, sig.extension);
    } else {
      assert done + Found(s) == done;
    }
    Associative(prev, Label(done, start, sig.extension), Emitted(s, start + |done|, sig.extension));
  }

  lemma PassEnd(d: seq<byte>, sig: Signature, policy: Rewind, p: nat, done: seq<Carved>)
    requires |d| <= p
    requires Pass(d, sig, policy) == done + PassFrom(d, sig, policy, p)
    ensures Pass(d, sig, policy) == done
  {
    assert done + [] == done;
  }

  /** The state `main` threads through the passes: the list cells `current_group`,
      `files_in_group` and `file_counter`, plus the files written so far. */
  class Carver {
    var currentGroup: Option<nat>
    var filesInGroup: nat
    var fileCounter: nat
    /** Group directories created so far; the next one gets this number. */
    var groupsOpened: nat
    var output: seq<Recovered>

    /** `files_in_group` is never reset, so it counts every file; the counter names the
        next file; a group is opened for every fourth file. */
    predicate Valid()
      reads this
    {
      && filesInGroup == |output|
      && fileCounter == |output| + 1
      && groupsOpened == (|output| + FILES_PER_FOLDER - 1) / FILES_PER_FOLDER
      && (currentGroup.None? <==> output == [])
      && (output != [] ==> currentGroup == Some(groupsOpened - 1))
    }

    /** `current_group = [None]`, `files_in_group = [0]`, `file_counter = [1]`. */
    constructor ()
      ensures Valid() && output == []
    {
      currentGroup := None;
      filesInGroup := 0;
      fileCounter := 1;
      groupsOpened := 0;
      output := [];
    }

    /** Record one file: open a new group when the count is a multiple of four, name the
        file after the counter, advance both counters. */
    method Write(extension: string, bytes: seq<byte>)
      requires Valid()
      modifies this
      ensures Valid()
      ensures output == old(output) + [Record(|old(output)|, extension, bytes)]
    {
      if filesInGroup % FILES_PER_FOLDER == 0 {
        currentGroup := Some(groupsOpened);
        groupsOpened := groupsOpened + 1;
      }
      GroupArithmetic(|output|);
      output := output + [Recovered(currentGroup.value, fileCounter, extension, bytes)];
      filesInGroup := filesInGroup + 1;
      fileCounter := fileCounter + 1;
    }

    /** The `if header_pos >= 0:` branch of `recover_files` for the block read at `p`:
        write the block's tail from the header, then what the inner loop gathers. */
    method CarveFile(disk: Disk, sig: Signature, policy: Rewind, block: seq<byte>, headerPos: int, ghost p: nat)
      requires Valid()
      requires p < |disk.data| && block == ReadAt(disk.data, p, BLOCK_SIZE) && disk.pos == p + |block|
      requires headerPos == Find(block, sig.header) && headerPos >= 0
      modifies this, disk
      ensures Valid()
      ensures ScanStep(disk.data, sig, policy, p).file.Some?
      ensures output == old(output)
        + [Record(|old(output)|, sig.extension, ScanStep(disk.data, sig, policy, p).file.value.bytes)]
      ensures disk.pos == ScanStep(disk.data, sig, policy, p).next
    {
      StepWithHeader(disk.data, sig, policy, p);
      var tail := CopyUntilEnd(disk, sig, policy);
      Write(sig.extension, block[headerPos..] + tail);
    }

    /** One iteration of the outer `while block:` loop for the block read at `p`: write a
        file when the block holds the header, and leave the device where the next block
        is read. */
    method ScanBlock(disk: Disk, sig: Signature, policy: Rewind, block: seq<byte>, ghost p: nat)
      returns (found: bool)
      requires Valid()
      requires p < |disk.data| && block == ReadAt(disk.data, p, BLOCK_SIZE) && disk.pos == p + |block|
      modifies this, disk
      ensures Valid()
      ensures found == ScanStep(disk.data, sig, policy, p).file.Some?
      ensures output == old(output) + Emitted(ScanStep(disk.data, sig, policy, p), |old(output)|, sig.extension)
      ensures disk.pos == ScanStep(disk.data, sig, policy, p).next
    {
      var headerPos := Find(block, sig.header);
      found := headerPos >= 0;
      if found {
        CarveFile(disk, sig, policy, block, headerPos, p);
      } else {
        StepWithoutHeader(disk.data, sig, policy, p);
      }
    }

    /** `recover_files(disk, signature, ...)`: one pass over the whole device. The files it
        writes are exactly those of `Pass(disk.data, sig, policy)`, numbered after the ones
        already written. `policy` selects the rewind after a footer-less file: `AsWritten`
        is the source's. */
    method RecoverFiles(disk: Disk, sig: Signature, policy: Rewind) returns (recovered: nat)
      requires Valid()
      modifies this, disk
      ensures Valid()
      ensures output == old(output) + Label(Pass(disk.data, sig, policy), |old(output)|, sig.extension)
      ensures recovered == |Pass(disk.data, sig, policy)|
      ensures disk.pos == |disk.data|
    {
      ghost var d := disk.data;
      ghost var start := |output|;
      ghost var done: seq<Carved> := [];
      ghost var p: nat := 0;
      disk.Seek(0);
      var block := disk.Read(BLOCK_SIZE);
      recovered := 0;
      while block != []
        invariant p <= |d| && block == ReadAt(d, p, BLOCK_SIZE) && disk.pos == p + |block|
        invariant Pass(d, sig, policy) == done + PassFrom(d, sig, policy, p)
        invariant Valid()
        invariant output == old(output) + Label(done, start, sig.extension)
        invariant recovered == |done|
        decreases |d| - p
      {
        ghost var before := output;
        var found := ScanBlock(disk, sig, policy, block, p);
        PassStep(d, sig, policy, p, done, old(output), start, before, output);
        if found {
          recovered := recovered + 1;
        }
        done := done + Found(ScanStep(d, sig, policy, p));
        p := disk.pos;
        block := disk.Read(BLOCK_SIZE);
      }
      PassEnd(d, sig, policy, p, done);
    }
  }

  /** The inner `while recovering:` loop of `recover_files`, from the block after the
      header's: it gathers what `Extract` describes and leaves the device where `Extract`
      says the outer scan resumes. The source tests `signature['footer']` in every round;
      the test does not change between rounds, so it is made once here. */
  method CopyUntilEnd(disk: Disk, sig: Signature, policy: Rewind) returns (tail: seq<byte>)
    requires disk.pos <= |disk.data| && (disk.pos >= BLOCK_SIZE || disk.pos == |disk.data|)
    modifies disk
    ensures tail == Extract(disk.data, sig, policy, old(disk.pos)).content
    ensures disk.pos == Extract(disk.data, sig, policy, old(disk.pos)).next
  {
    if sig.WithFooter? {
      tail := CopyUntilFooter(disk, sig.footer, sig.footerLength);
    } else {
      tail := CopyUntilHeader(disk, sig.header, policy);
    }
  }

  /** The inner loop for a format with a footer: blocks are appended whole until one
      holds the footer, of which `footerLength` bytes are kept. */
  method CopyUntilFooter(disk: Disk, footer: seq<byte>, footerLength: nat) returns (tail: seq<byte>)
    requires disk.pos <= |disk.data|
    modifies disk
    ensures tail == ExtractFooter(disk.data, footer, footerLength, old(disk.pos)).content
    ensures disk.pos == ExtractFooter(disk.data, footer, footerLength, old(disk.pos)).next
  {
    ghost var d := disk.data;
    ghost var x := ExtractFooter(d, footer, footerLength, disk.pos);
    tail := [];
    assert x == Prepend(tail, ExtractFooter(d, footer, footerLength, disk.pos));
    var recovering := true;
    while recovering
      invariant disk.data == d
      invariant recovering ==>
        && disk.pos <= |d|
        && x == Prepend(tail, ExtractFooter(d, footer, footerLength, disk.pos))
      invariant !recovering ==> tail == x.content && disk.pos == x.next
      decreases recovering, |d| - disk.pos
    {
      tail, recovering := FooterRound(disk, footer, footerLength, x, tail);
    }
  }

  /** One round of the copy loop of a file with a footer. */
  method FooterRound(disk: Disk, footer: seq<byte>, footerLength: nat, ghost x: Extraction, tail: seq<byte>)
    returns (tail': seq<byte>, more: bool)
    requires disk.pos <= |disk.data|
    requires x == Prepend(tail, ExtractFooter(disk.data, footer, footerLength, disk.pos))
    modifies disk
    ensures more ==>
      && old(disk.pos) < disk.pos <= |disk.data|
      && x == Prepend(tail', ExtractFooter(disk.data, footer, footerLength, disk.pos))
    ensures !more ==> tail' == x.content && disk.pos == x.next
  {
    ghost var d := disk.data;
    ghost var c := disk.pos;
    var block := disk.Read(BLOCK_SIZE);
    if block == [] {
      assert tail + [] == tail;
      return tail, false;
    }
    var endPos := Find(block, footer);
    if endPos >= 0 {
      FooterRoundStops(d, footer, footerLength, c, tail, x);
      tail' := tail + block[..Min(endPos + footerLength, |block|)];
      more := false;
    } else {
      FooterRoundContinues(d, footer, footerLength, c, tail, x);
      tail' := tail + block;
      more := true;
    }
  }

  /** The repositioning after a footer-less file: `disk.seek(disk.tell() - (BLOCK_SIZE -
      next_header_pos))` as written, or the start of the next header under `Intended`. */
  method RewindTo(disk: Disk, policy: Rewind, blockLength: nat, r: nat)
    requires blockLength <= disk.pos && BLOCK_SIZE <= disk.pos + r
    modifies disk
    ensures disk.pos == if policy == AsWritten then old(disk.pos) - (BLOCK_SIZE - r) else old(disk.pos) - blockLength + r
  {
    var t := disk.Tell();
    if policy == AsWritten {
      disk.Seek(t - (BLOCK_SIZE - r));
    } else {
      disk.Seek(t - blockLength + r);
    }
  }

  /** The inner loop for a footer-less format: blocks are appended whole until one holds
      the next header; the bytes before it are kept and the device is repositioned by
      `policy` so that the outer scan reads that header again. */
  method CopyUntilHeader(disk: Disk, header: seq<byte>, policy: Rewind) returns (tail: seq<byte>)
    requires disk.pos <= |disk.data| && (disk.pos >= BLOCK_SIZE || disk.pos == |disk.data|)
    modifies disk
    ensures tail == ExtractHeuristic(disk.data, header, policy, old(disk.pos)).content
    ensures disk.pos == ExtractHeuristic(disk.data, header, policy, old(disk.pos)).next
  {
    ghost var d := disk.data;
    ghost var x := ExtractHeuristic(d, header, policy, disk.pos);
    tail := [];
    assert x == Prepend(tail, ExtractHeuristic(d, header, policy, disk.pos));
    var recovering := true;
    while recovering
      invariant disk.data == d
      invariant recovering ==>
        && disk.pos <= |d| && (disk.pos >= BLOCK_SIZE || disk.pos == |d|)
        && x == Prepend(tail, ExtractHeuristic(d, header, policy, disk.pos))
      invariant !recovering ==> tail == x.content && disk.pos == x.next
      decreases recovering, |d| - disk.pos
    {
      tail, recovering := HeaderRound(disk, header, policy, x, tail);
    }
  }

  /** One round of the copy loop of a file without a footer. */
  method HeaderRound(disk: Disk, header: seq<byte>, policy: Rewind, ghost x: Extraction, tail: seq<byte>)
    returns (tail': seq<byte>, more: bool)
    requires disk.pos <= |disk.data| && (disk.pos >= BLOCK_SIZE || disk.pos == |disk.data|)
    requires x == Prepend(tail, ExtractHeuristic(disk.data, header, policy, disk.pos))
    modifies disk
    ensures more ==>
      && BLOCK_SIZE <= disk.pos && old(disk.pos) < disk.pos <= |disk.data|
      && x == Prepend(tail', ExtractHeuristic(disk.data, header, policy, disk.pos))
    ensures !more ==> tail' == x.content && disk.pos == x.next
  {
    ghost var d := disk.data;
    ghost var c := disk.pos;
    var block := disk.Read(BLOCK_SIZE);
    if block == [] {
      assert tail + [] == tail;
      return tail, false;
    }
    var nextHeaderPos := Find(block, header);
    if nextHeaderPos >= 0 {
      HeaderRoundStops(d, header, policy, c, tail, x);
      tail' := tail + block[..nextHeaderPos];
      more := false;
      RewindTo(disk, policy, |block|, nextHeaderPos);
    } else {
      HeaderRoundContinues(d, header, policy, c, tail, x);
      tail' := tail + block;
      more := true;
    }
  }

  /** The passes over the first `i + 1` signatures write those over the first `i`, then
      the records of the next pass, numbered after them. */
  lemma RecoveryStep(d: seq<byte>, sigs: seq<Signature>, i: nat, policy: Rewind)
    requires i < |sigs|
    ensures var before := Recovery(d, sigs[..i], policy);
      Recovery(d, sigs[..i + 1], policy) == before + Label(Pass(d, sigs[i], policy), |before|, sigs[i].extension)
  {
    assert sigs[..i + 1][..i] == sigs[..i];
  }

  /** `main` after the device is opened: one pass per signature of the chosen recovery
      type, the counters threaded from pass to pass, and the total of recovered files. */
  method RunRecovery(data: seq<byte>, recoveryType: int, policy: Rewind)
    returns (total: nat, files: seq<Recovered>)
    ensures files == Recovery(data, SignaturesFor(recoveryType), policy)
    ensures total == |files|
  {
    var signatures := SignaturesFor(recoveryType);
    var disk := new Disk(data);
    var carver := new Carver();
    total := 0;
    var i := 0;
    while i < |signatures|
      invariant i <= |signatures| && disk.data == data
      invariant carver.Valid()
      invariant carver.output == Recovery(data, signatures[..i], policy)
      invariant total == |carver.output|
    {
      var recovered := carver.RecoverFiles(disk, signatures[i], policy);
      total := total + recovered;
      RecoveryStep(data, signatures, i, policy);
      i := i + 1;
    }
    assert signatures[..i] == signatures;
    files := carver.output;
  }
}
