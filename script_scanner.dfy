/** The module-level scan shared by pngRec.py, jpegRec.py, mp4Rec.py and webmRec.py, as
    one method over a `Script`. It is proved to write exactly the files of `ScriptRunOn`.
    Where a script would spin for ever in its inner loop, the method stops and reports it. */
module ScriptScanner {
  import opened Bytes
  import opened BlockDevice
  import opened CarvingSpec
  import opened CarvingEngine
  import opened ScriptSpec

  /** `while byte:` over the device: for each block holding the header, count it in `rcvd`
      and, when it passes the width and date tests, rotate the directory and write the file.
      `hangs` reports that the script never leaves the inner loop of its last file. */
  method RunScript(data: seq<byte>, sc: Script, dateOk: bool) returns (files: seq<RecFile>, hangs: bool)
    ensures files == Saved(ScriptRunOn(data, sc, dateOk).files)
    ensures hangs == ScriptRunOn(data, sc, dateOk).hangs
  {
    var disk := new Disk(data);
    var block := disk.Read(BLOCK_SIZE);
    var rcvd, directory, inDirectory := 0, 0, 0;
    ghost var whole := ScriptRunOn(data, sc, dateOk);
    ghost var p: nat := 0;
    files := [];
    hangs := false;
    while block != []
      invariant disk.data == data && p <= |data|
      invariant block == ReadAt(data, p, BLOCK_SIZE) && disk.pos == p + |block|
      invariant Joined(whole, files, ScriptFrom(data, sc, dateOk, p, ScanState(rcvd, directory, inDirectory)))
      decreases |data| - p
    {
      ghost var st := ScanState(rcvd, directory, inDirectory);
      var out, spins;
      out, rcvd, directory, inDirectory, spins := ScanBlock(disk, sc, dateOk, block, rcvd, directory, inDirectory, p);
      RunStep(data, sc, dateOk, p, st, whole, files, out);
      files := files + out;
      if spins {
        hangs := true;
        return;
      }
      p := disk.pos;
      block := disk.Read(BLOCK_SIZE);
    }
    assert files + [] == files;
  }

  /** `files` were written so far, and `rest` describes the remainder of the run `whole`. */
  ghost predicate Joined(whole: ScriptRun, files: seq<RecFile>, rest: ScriptRun)
  {
    Saved(whole.files) == files + Saved(rest.files) && whole.hangs == rest.hangs
  }

  /** The bookkeeping of one outer iteration: its files join those written, and the run
      either goes on from where the step leaves the device or spins. */
  lemma RunStep(d: seq<byte>, sc: Script, dateOk: bool, p: nat, st: ScanState, whole: ScriptRun,
                before: seq<RecFile>, out: seq<RecFile>)
    requires p < |d|
    requires Joined(whole, before, ScriptFrom(d, sc, dateOk, p, st))
    requires out == Saved(Written(StepAt(d, sc, dateOk, p, st)))
    ensures var s := StepAt(d, sc, dateOk, p, st);
      if s.hangs then Saved(whole.files) == before + out && whole.hangs
      else Joined(whole, before + out, ScriptFrom(d, sc, dateOk, s.next, s.state))
  {
    var s := StepAt(d, sc, dateOk, p, st);
    if s.hangs {
      assert Saved(Written(s)) == out;
    } else {
      var rest := ScriptFrom(d, sc, dateOk, s.next, s.state);
      SavedAppend(Written(s), rest.files);
    }
  }

  /** One iteration of `while byte:` for the block read at `p`, with the counters `rcvd`,
      `current_rec_directory` and `files_in_current_rec`: the files it writes (none or
      one), the counters afterwards, and whether the inner loop spins. */
  method ScanBlock(disk: Disk, sc: Script, dateOk: bool, block: seq<byte>,
                   rcvd: nat, directory: nat, inDirectory: nat, ghost p: nat)
    returns (out: seq<RecFile>, rcvd': nat, directory': nat, inDirectory': nat, spins: bool)
    requires p < |disk.data| && block == ReadAt(disk.data, p, BLOCK_SIZE) && disk.pos == p + |block|
    modifies disk
    ensures var s := StepAt(disk.data, sc, dateOk, p, ScanState(rcvd, directory, inDirectory));
      && out == Saved(Written(s))
      && ScanState(rcvd', directory', inDirectory') == s.state
      && spins == s.hangs
      && (!spins ==> disk.pos == s.next)
  {
    rcvd', directory', inDirectory' := rcvd, directory, inDirectory;
    out, spins := [], false;
    var found := Find(block, sc.header);
    if found >= 0 {
      rcvd' := rcvd' + 1;
      if Accepts(sc, block, found, dateOk) {
        if inDirectory' >= FILES_PER_DIRECTORY {
          directory' := directory' + 1;
          inDirectory' := 0;
        }
        inDirectory' := inDirectory' + 1;
        var tail, closed := CopyUntilEnd(disk, sc.end);
        out := [RecFile(directory', rcvd', block[found..] + tail)];
        spins := !closed;
        StepWithFile(disk.data, sc, dateOk, p, ScanState(rcvd, directory, inDirectory));
      }
    }
  }

  /** A block whose header passes the tests yields the file made of the block's tail and
      what the inner loop gathers, and the scan goes on where the inner loop stops. */
  lemma StepWithFile(d: seq<byte>, sc: Script, dateOk: bool, p: nat, st: ScanState)
    requires p < |d|
    requires var block := ReadAt(d, p, BLOCK_SIZE);
      Find(block, sc.header) >= 0 && Accepts(sc, block, Find(block, sc.header), dateOk)
    ensures var block := ReadAt(d, p, BLOCK_SIZE);
      var found := Find(block, sc.header);
      var x := ScriptExtract(d, sc.end, p + |block|);
      var placed := Rotate(st.(rcvd := st.rcvd + 1));
      var s := StepAt(d, sc, dateOk, p, st);
      && Saved(Written(s)) == [RecFile(placed.directory, placed.rcvd, block[found..] + x.content)]
      && s.state == placed && s.hangs == !x.closed && s.next == x.next
  {
  }

  /** The inner `while drec:` loop, from the block after the header's: what `ScriptExtract`
      gathers, whether a block ended the file, and where the scan resumes when one did. */
  method CopyUntilEnd(disk: Disk, rule: EndRule) returns (tail: seq<byte>, closed: bool)
    requires disk.pos <= |disk.data|
    modifies disk
    ensures var x := ScriptExtract(disk.data, rule, old(disk.pos));
      tail == x.content && closed == x.closed && (closed ==> disk.pos == x.next)
  {
    match rule
    case FooterIn(footer, keep) =>
      tail, closed := CopyUntilFooterIn(disk, footer, keep);
    case BlockStartsWith(terminators) =>
      tail, closed := CopyUntilBlockStart(disk, terminators);
  }

  /** pngRec.py's inner loop: blocks are appended until one holds the footer, of which
      `keep` bytes are kept from its start. */
  method CopyUntilFooterIn(disk: Disk, footer: seq<byte>, keep: nat) returns (tail: seq<byte>, closed: bool)
    requires disk.pos <= |disk.data|
    modifies disk
    ensures var x := ExtractFooter(disk.data, footer, keep, old(disk.pos));
      tail == x.content && closed == x.closed && (closed ==> disk.pos == x.next)
  {
    ghost var d := disk.data;
    ghost var x := ExtractFooter(d, footer, keep, disk.pos);
    tail := [];
    assert x == Prepend(tail, ExtractFooter(d, footer, keep, disk.pos));
    var recovering := true;
    closed := false;
    while recovering
      invariant disk.data == d
      invariant recovering ==>
        && disk.pos <= |d|
        && x == Prepend(tail, ExtractFooter(d, footer, keep, disk.pos))
      invariant !recovering ==> tail == x.content && closed == x.closed && (closed ==> disk.pos == x.next)
      decreases recovering, |d| - disk.pos
    {
      tail, recovering, closed := FooterInRound(disk, footer, keep, x, tail);
    }
  }

  /** One round of pngRec.py's inner loop. An empty read never holds the (non-empty)
      footer: there the script spins, and the round reports the file as not closed. */
  method FooterInRound(disk: Disk, footer: seq<byte>, keep: nat, ghost x: Extraction, tail: seq<byte>)
    returns (tail': seq<byte>, more: bool, closed: bool)
    requires disk.pos <= |disk.data|
    requires x == Prepend(tail, ExtractFooter(disk.data, footer, keep, disk.pos))
    modifies disk
    ensures more ==>
      && old(disk.pos) < disk.pos <= |disk.data|
      && x == Prepend(tail', ExtractFooter(disk.data, footer, keep, disk.pos))
    ensures !more ==> tail' == x.content && closed == x.closed && (closed ==> disk.pos == x.next)
  {
    ghost var d := disk.data;
    ghost var c := disk.pos;
    var block := disk.Read(BLOCK_SIZE);
    if block == [] {
      assert tail + [] == tail;
      return tail, false, false;
    }
    var iend := Find(block, footer);
    if iend >= 0 {
      FooterRoundStops(d, footer, keep, c, tail, x);
      tail' := tail + block[..Min(iend + keep, |block|)];
      more, closed := false, true;
    } else {
      FooterRoundContinues(d, footer, keep, c, tail, x);
      tail' := tail + block;
      more, closed := true, false;
    }
  }

  /** The inner loop of jpegRec.py, mp4Rec.py and webmRec.py: blocks are appended until
      one starts with a terminator, and that block is appended whole. */
  method CopyUntilBlockStart(disk: Disk, terminators: seq<seq<byte>>) returns (tail: seq<byte>, closed: bool)
    requires disk.pos <= |disk.data|
    modifies disk
    ensures var x := ExtractStart(disk.data, terminators, old(disk.pos));
      tail == x.content && closed == x.closed && (closed ==> disk.pos == x.next)
  {
    ghost var d := disk.data;
    ghost var x := ExtractStart(d, terminators, disk.pos);
    tail := [];
    assert x == Prepend(tail, ExtractStart(d, terminators, disk.pos));
    var recovering := true;
    closed := false;
    while recovering
      invariant disk.data == d
      invariant recovering ==>
        && disk.pos <= |d|
        && x == Prepend(tail, ExtractStart(d, terminators, disk.pos))
      invariant !recovering ==> tail == x.content && closed == x.closed && (closed ==> disk.pos == x.next)
      decreases recovering, |d| - disk.pos
    {
      tail, recovering, closed := BlockStartRound(disk, terminators, x, tail);
    }
  }

  /** One round of the start-of-block inner loop. An empty read that starts with no
      terminator is where the script spins. */
  method BlockStartRound(disk: Disk, terminators: seq<seq<byte>>, ghost x: Extraction, tail: seq<byte>)
    returns (tail': seq<byte>, more: bool, closed: bool)
    requires disk.pos <= |disk.data|
    requires x == Prepend(tail, ExtractStart(disk.data, terminators, disk.pos))
    modifies disk
    ensures more ==>
      && old(disk.pos) < disk.pos <= |disk.data|
      && x == Prepend(tail', ExtractStart(disk.data, terminators, disk.pos))
    ensures !more ==> tail' == x.content && closed == x.closed && (closed ==> disk.pos == x.next)
  {
    ghost var d := disk.data;
    ghost var c := disk.pos;
    var block := disk.Read(BLOCK_SIZE);
    if StartsWithAny(block, terminators) {
      BlockStartRoundStops(d, terminators, c, tail, x);
      tail' := tail + block;
      more, closed := false, true;
    } else if block == [] {
      assert tail + [] == tail;
      tail', more, closed := tail, false, false;
    } else {
      BlockStartRoundContinues(d, terminators, c, tail, x);
      tail' := tail + block;
      more, closed := true, false;
    }
  }

  lemma BlockStartRoundContinues(d: seq<byte>, terminators: seq<seq<byte>>, c: nat, tail: seq<byte>, x: Extraction)
    requires c < |d|
    requires x == Prepend(tail, ExtractStart(d, terminators, c))
    requires !StartsWithAny(ReadAt(d, c, BLOCK_SIZE), terminators)
    ensures var block := ReadAt(d, c, BLOCK_SIZE);
      x == Prepend(tail + block, ExtractStart(d, terminators, c + |block|))
  {
    var block := ReadAt(d, c, BLOCK_SIZE);
    PrependTwice(tail, block, ExtractStart(d, terminators, c + |block|));
  }

  lemma BlockStartRoundStops(d: seq<byte>, terminators: seq<seq<byte>>, c: nat, tail: seq<byte>, x: Extraction)
    requires c <= |d|
    requires x == Prepend(tail, ExtractStart(d, terminators, c))
    requires StartsWithAny(ReadAt(d, c, BLOCK_SIZE), terminators)
    ensures var block := ReadAt(d, c, BLOCK_SIZE);
      x.content == tail + block && x.next == c + |block| && x.closed
  {
  }
}
